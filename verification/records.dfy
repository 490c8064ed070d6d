/**
 * The persisted form of an item as an abstract record: a sequence of tagged text
 * fields, read back the way the DOM lookups of the item constructors read them.
 */
module Records {
  import opened Wrappers
  import opened Failures

  datatype Field = Field(tag: string, text: string)

  type Element = seq<Field>

  /** `getElementsByTagName(tag).getLength()`. */
  function Occurrences(e: Element, tag: string): nat {
    if |e| == 0 then 0 else (if e[0].tag == tag then 1 else 0) + Occurrences(e[1..], tag)
  }

  /**
   * `getElementsByTagName(tag).item(0).getTextContent()`: the text of the first field with
   * the tag, or `None` where `item(0)` is null.
   */
  function FirstText(e: Element, tag: string): (r: Option<string>)
    ensures r.None? <==> Occurrences(e, tag) == 0
    ensures r.Some? ==> exists i :: 0 <= i < |e| && e[i] == Field(tag, r.value)
                                    && forall j :: 0 <= j < i ==> e[j].tag != tag
  {
    if |e| == 0 then None
    else if e[0].tag == tag then Some(e[0].text)
    else
      var r := FirstText(e[1..], tag);
      if r.Some? then
        var i :| 0 <= i < |e[1..]| && e[1..][i] == Field(tag, r.value)
                 && forall j :: 0 <= j < i ==> e[1..][j].tag != tag;
        assert e[i + 1] == Field(tag, r.value);
        assert forall j :: 0 <= j < i + 1 ==> e[j].tag != tag by {
          forall j | 0 <= j < i + 1 ensures e[j].tag != tag {
            if j > 0 { assert e[j] == e[1..][j - 1]; }
          }
        }
        r
      else r
  }

  /**
   * The same lookup where a missing field makes `item(0)` null, so that reading its text
   * throws a `NullPointerException`.
   */
  function Item0Text(e: Element, tag: string): (r: Result<string, Failure>)
    ensures r.Err? <==> Occurrences(e, tag) == 0
    ensures r.Err? ==> r.error == NullPointer
    ensures r.Ok? ==> exists i :: 0 <= i < |e| && e[i] == Field(tag, r.value)
                                  && forall j :: 0 <= j < i ==> e[j].tag != tag
    ensures r.Ok? ==> FirstText(e, tag) == Some(r.value)
  {
    match FirstText(e, tag)
    case None => Err(NullPointer)
    case Some(text) => Ok(text)
  }

  /**
   * `InventoryItem.textContent`: the field's text when the tag occurs exactly once, and
   * the empty string otherwise.
   */
  function SoleText(e: Element, tag: string): (r: string)
    ensures Occurrences(e, tag) != 1 ==> r == ""
    ensures Occurrences(e, tag) == 1 ==> exists i :: 0 <= i < |e| && e[i] == Field(tag, r)
  {
    if Occurrences(e, tag) == 1 then FirstText(e, tag).value else ""
  }

  /** A field that is written only when its text is non-empty. */
  function OptionalField(tag: string, text: string): (r: Element)
    ensures text == "" ==> r == []
    ensures text != "" ==> r == [Field(tag, text)]
  {
    if text == "" then [] else [Field(tag, text)]
  }

  lemma {:induction false} OccurrencesAppend(a: Element, b: Element, tag: string)
    ensures Occurrences(a + b, tag) == Occurrences(a, tag) + Occurrences(b, tag)
    decreases |a|
  {
    if |a| > 0 {
      assert (a + b)[1..] == a[1..] + b;
      OccurrencesAppend(a[1..], b, tag);
    } else {
      assert a + b == b;
    }
  }

  lemma {:induction false} FirstTextAppend(a: Element, b: Element, tag: string)
    ensures FirstText(a + b, tag) == if Occurrences(a, tag) > 0 then FirstText(a, tag) else FirstText(b, tag)
    decreases |a|
  {
    if |a| > 0 {
      assert (a + b)[1..] == a[1..] + b;
      FirstTextAppend(a[1..], b, tag);
    } else {
      assert a + b == b;
    }
  }

  /** A tag that no field carries does not occur. */
  lemma {:induction false} OccurrencesAbsent(e: Element, tag: string)
    requires forall i :: 0 <= i < |e| ==> e[i].tag != tag
    ensures Occurrences(e, tag) == 0
    decreases |e|
  {
    if |e| > 0 {
      OccurrencesAbsent(e[1..], tag);
    }
  }

  /** The lookup finds the field at the first index that carries the tag. */
  lemma {:induction false} FirstTextAt(e: Element, tag: string, i: nat)
    requires i < |e| && e[i].tag == tag
    requires forall j :: 0 <= j < i ==> e[j].tag != tag
    ensures FirstText(e, tag) == Some(e[i].text)
    decreases i
  {
    if i > 0 {
      FirstTextAt(e[1..], tag, i - 1);
    }
  }

  /** Each field of `fields` written only when its text is non-empty, in order. */
  function Optionals(fields: seq<Field>): (r: Element)
    ensures forall i :: 0 <= i < |r| ==> r[i].text != ""
    ensures |r| <= |fields|
  {
    if |fields| == 0 then [] else OptionalField(fields[0].tag, fields[0].text) + Optionals(fields[1..])
  }

  /** No two of the fields share a tag. */
  predicate DistinctTags(fields: seq<Field>) {
    forall j, k :: 0 <= j < k < |fields| ==> fields[j].tag != fields[k].tag
  }

  /** A tag none of the fields carries does not occur among the written ones. */
  lemma {:induction false} OptionalsAbsent(fields: seq<Field>, tag: string)
    requires forall j :: 0 <= j < |fields| ==> fields[j].tag != tag
    ensures Occurrences(Optionals(fields), tag) == 0
    decreases |fields|
  {
    if |fields| > 0 {
      OptionalsAbsent(fields[1..], tag);
      OccurrencesAppend(OptionalField(fields[0].tag, fields[0].text), Optionals(fields[1..]), tag);
    }
  }

  /**
   * With distinct tags, a field's tag occurs among the written fields once if its text is
   * non-empty and not at all otherwise, and the lookup finds its text.
   */
  lemma {:induction false} OptionalsLookup(fields: seq<Field>, i: nat)
    requires i < |fields| && DistinctTags(fields)
    ensures Occurrences(Optionals(fields), fields[i].tag) == if fields[i].text == "" then 0 else 1
    ensures fields[i].text != "" ==> FirstText(Optionals(fields), fields[i].tag) == Some(fields[i].text)
    decreases i
  {
    var tag := fields[i].tag;
    var head := OptionalField(fields[0].tag, fields[0].text);
    var rest := fields[1..];
    OccurrencesAppend(head, Optionals(rest), tag);
    FirstTextAppend(head, Optionals(rest), tag);
    if i == 0 {
      OptionalsAbsent(rest, tag);
    } else {
      assert rest[i - 1] == fields[i];
      OptionalsLookup(rest, i - 1);
    }
  }

  /**
   * `textContent` of a field written with `OptionalField` after fields of other tags reads
   * back its text, or the empty string when it was omitted.
   */
  lemma SoleTextAfter(prefix: Element, fields: seq<Field>, i: nat)
    requires i < |fields| && DistinctTags(fields)
    requires Occurrences(prefix, fields[i].tag) == 0
    ensures SoleText(prefix + Optionals(fields), fields[i].tag) == fields[i].text
  {
    OptionalsLookup(fields, i);
    OccurrencesAppend(prefix, Optionals(fields), fields[i].tag);
    FirstTextAppend(prefix, Optionals(fields), fields[i].tag);
  }
}
