/** The exceptions the modelled Java code can raise, as values. */
module Failures {

  datatype Failure =
    /** `IllegalArgumentException` with the exact message the source builds. */
    | IllegalArgument(message: string)
    /** `NullPointerException` from dereferencing a missing record field. */
    | NullPointer
    /** `NumberFormatException` from `Integer.parseInt`. */
    | NumberFormat(input: string)
    /** `DateTimeParseException` from parsing a date text. */
    | DateTimeParse(text: string)
    /** `IllegalArgumentException` from `Enum.valueOf` on an unknown name. */
    | NoEnumConstant(name: string)
}
