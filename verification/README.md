# Property model: monitored items, inventory, registry and queries

This project models the core of the brailsoft property model in Dafny. It is a small
library that keeps a register of properties (houses). Each property holds two kinds of item:

- **Monitored items**: recurring maintenance tasks. Each one has a next-action date and an
  advance-notice date.
- **Inventory items**: things bought for the property.

The model covers:

- **`MonitoredItems`**: the schedule engine. It covers:
  - the validating constructor, with its exact messages in the source's order;
  - the derived dates: next action is the last action plus `noticeEvery` weeks, months or
    years, and next notice is the next action minus `advanceNotice` periods;
  - the setters that recalculate those dates, and the overdue and notice-due tests;
  - `equals` (description only) and `compareTo` (next-action date only);
  - the persisted record and its reader.
- **`InventoryItems`**: the inventory item. It covers:
  - the constructor, which turns a purchase date into `dd/MM/uuuu` text;
  - `equals`, `toString`, and the three-key `compareTo`;
  - the record writer, which leaves out empty fields and stores the date as `uuuu-MM-dd`;
  - the record reader, which reads a field only when it occurs exactly once.
- **`PropertyMonitors`**: the registry. Each operation takes the registry as a value and
  returns an `Outcome`: the result (success or the exception), the registry afterwards, and
  a log.
  - On success the log holds the broadcast notification, the audit record and the storage
    request, in that order.
  - On a refusal the registry is unchanged and the log is empty.
- **`PropertySelect`**: the read-only queries. Each returns a freshly sorted list: the items
  of one property, the items due on a date, or the properties with overdue items or notices.
- **`Events`**: the notification, audit-type and audit-object enums and their strings.

The model also includes what the core relies on from the Java platform:

- `Calendar`: `LocalDate` arithmetic and comparison.
- `DateText`: the ISO, storage and display date formats, with strict and smart resolving.
- `Digits`: `Integer.parseInt` and `Integer.toString`.
- `JavaStrings`: `String.isBlank` and `String.compareTo`.
- `Sorting`: a stable sort and `Stream.filter`.
- `Records`: a DOM element's child fields.

`PropertySelect.inventoryFor` reports its failures with the prefix `PropertyMonitor:`, while
the rest of the class uses `PropertySelect:`. The model keeps each message as written
(`PropertySelect.InventoryFor`).

## Model

| member | source | states |
|---|---|---|
| Events.NamesDistinguish | src/main/java/com/brailsoft/model/PropertyNotificationType.java:5-21 | within each enum the strings tell the constants apart: no two notification types, no two categories, no two audit types and no two audit objects share a string (across enums they may, as "changed" and "property" do) |
| Calendar.CompareAgreesWithEpochDay | src/main/java/com/brailsoft/model/MonitoredItem.java:412-415 | `LocalDate.compareTo` is negative, zero or positive exactly as the first date's epoch day is smaller, equal or larger |
| Calendar.EpochDayInjective | src/main/java/com/brailsoft/model/MonitoredItem.java:388-410 | two valid dates with the same epoch day are the same date, so day arithmetic lands on one date |
| Calendar.PlusDays | src/test/java/com/brailsoft/model/PropertySelectTest.java:115-137 | `plusDays(n)` moves the epoch day by exactly `n` |
| Calendar.PlusWeeks | src/main/java/com/brailsoft/model/MonitoredItem.java:388-390 | `plusWeeks(n)` moves the epoch day by exactly `7n` |
| Calendar.MinusWeeks | src/main/java/com/brailsoft/model/MonitoredItem.java:400-402 | `minusWeeks(n)` moves the epoch day back by exactly `7n` |
| Calendar.PlusMonths | src/main/java/com/brailsoft/model/MonitoredItem.java:392-394 | `plusMonths(n)` advances the proleptic month by `n` and clamps the day to the target month's length |
| Calendar.MinusMonths | src/main/java/com/brailsoft/model/MonitoredItem.java:404-406 | `minusMonths(n)` moves the proleptic month back by `n`, clamping the day |
| Calendar.PlusYears | src/main/java/com/brailsoft/model/MonitoredItem.java:396-398 | `plusYears(n)` keeps the month, adds `n` to the year and clamps 29 February |
| Calendar.MinusYears | src/main/java/com/brailsoft/model/MonitoredItem.java:408-410 | `minusYears(n)` keeps the month, subtracts `n` from the year and clamps 29 February |
| Calendar.WeeksRoundTrip | src/main/java/com/brailsoft/model/MonitoredItem.java:388-402 | subtracting the weeks just added, or adding the weeks just subtracted, gives the date back |
| Calendar.YearsRoundTrip | src/main/java/com/brailsoft/model/MonitoredItem.java:396-410 | subtracting the years just added gives the date back unless it is 29 February |
| Calendar.MonthsRoundTrip | src/main/java/com/brailsoft/model/MonitoredItem.java:392-406 | subtracting the months just added gives the date back when the day is at most 28 |
| Calendar.LeapDayClamp | src/main/java/com/brailsoft/model/MonitoredItem.java:396-410 | from 29 February 2024, one year forward lands on 28 February 2025, and back on 28 February 2024 |
| Calendar.AdvanceWeeksIsAfter | src/main/java/com/brailsoft/model/MonitoredItem.java:388-402 | moving forward by at least one week gives a strictly later date; moving back, a strictly earlier one |
| Calendar.AdvanceMonthsIsAfter | src/main/java/com/brailsoft/model/MonitoredItem.java:392-406 | the same for months |
| Calendar.AdvanceYearsIsAfter | src/main/java/com/brailsoft/model/MonitoredItem.java:396-410 | the same for years |
| Calendar.PlusDaysIsAfter | src/main/java/com/brailsoft/model/MonitoredItem.java:334-340 | a positive day offset gives a later date, a negative one an earlier date, and zero the same date |
| DateText.ParseIso | src/main/java/com/brailsoft/model/MonitoredItem.java:167-175 | a failed parse reports the text itself; a parsed date's year lies in the supported range |
| DateText.ParseUi | src/main/java/com/brailsoft/model/InventoryItem.java:117 | the same for the `dd/MM/uuuu` display pattern |
| DateText.IsoRoundTrip | src/main/java/com/brailsoft/model/MonitoredItem.java:191 | the ISO text of a date in range parses back to the same date, with either resolver |
| DateText.UiRoundTrip | src/main/java/com/brailsoft/model/InventoryItem.java:49 | the display text of a date in range parses back to the same date |
| DateText.PurchaseDateRoundTrip | src/main/java/com/brailsoft/model/InventoryItem.java:81-84 | converting a display date to storage text and back (and the other way round) gives the original text |
| DateText.UiToStorage | src/main/java/com/brailsoft/model/InventoryItem.java:116-120 | a display date converts exactly when it parses, failing with a parse error naming it; the storage text denotes the same date |
| DateText.StorageToUi | src/main/java/com/brailsoft/model/InventoryItem.java:81-84 | a stored date converts exactly when it parses, failing with a parse error naming it; the display text denotes the same date |
| DateText.SmartClampsStrictRejects | src/main/java/com/brailsoft/model/ModelDateFormats.java:6-7 | the storage pattern resolves 2021-02-30 to 28 February while `LocalDate.parse` rejects it |
| DateText.YearTextRoundTrip | src/main/java/com/brailsoft/model/MonitoredItem.java:191 | the padded, signed year text reads back as the same year |
| Digits.IntTextRoundTrip | src/main/java/com/brailsoft/model/MonitoredItem.java:189-192 | `Integer.parseInt(Integer.toString(n))` gives `n` back for every 32-bit `n` |
| Digits.ParseInt | src/main/java/com/brailsoft/model/MonitoredItem.java:169-170 | a failure is a number-format error naming the text; a digit string, or a digit string after `-` or `+`, parses exactly when its value fits in 32 bits, to its decimal value negated after `-`; any other text fails |
| Digits.NatText | src/main/java/com/brailsoft/model/MonitoredItem.java:189 | the decimal text of a natural number is a non-empty digit string with a leading zero only for zero itself |
| Digits.NatTextRoundTrip | src/main/java/com/brailsoft/model/MonitoredItem.java:189 | the decimal text of a natural number reads back as the same number |
| Digits.PaddedRoundTrip | src/main/java/com/brailsoft/model/MonitoredItem.java:191 | zero-padding a number's text does not change its value |
| JavaStrings.CompareToZero | src/main/java/com/brailsoft/model/InventoryItem.java:233-243 | `String.compareTo` is zero exactly for equal strings |
| JavaStrings.CompareToFlip | src/main/java/com/brailsoft/model/InventoryItem.java:233-243 | swapping the operands of `compareTo` negates the result |
| JavaStrings.CompareToTransitive | src/main/java/com/brailsoft/model/InventoryItem.java:233-243 | `compareTo(a, b) <= 0` is transitive |
| JavaStrings.CascadeZero | src/main/java/com/brailsoft/model/InventoryItem.java:235-241 | the key-by-key comparison is zero exactly when all keys agree |
| JavaStrings.CascadeFlip | src/main/java/com/brailsoft/model/InventoryItem.java:235-241 | the key-by-key comparison is antisymmetric |
| JavaStrings.CascadeTransitive | src/main/java/com/brailsoft/model/InventoryItem.java:235-241 | the key-by-key comparison's `<= 0` is transitive |
| Sorting.Sort | src/main/java/com/brailsoft/model/PropertySelect.java:52 | the sorted list is ordered by the comparator and is a permutation of the input |
| Sorting.SortStable | src/main/java/com/brailsoft/model/PropertySelect.java:88 | the sort is stable: elements that compare as equal come out in the order they went in |
| Sorting.Insert | src/main/java/com/brailsoft/model/PropertySelect.java:52 | inserting into a sorted list keeps it sorted and adds exactly one occurrence |
| Sorting.SortOfSorted | src/main/java/com/brailsoft/model/PropertySelect.java:21 | sorting a list that is already in order leaves it exactly as it was |
| Sorting.Filter | src/main/java/com/brailsoft/model/PropertySelect.java:19-20 | the filtered list holds exactly the matching elements, each as often as in the input |
| Sorting.FilterSorted | src/main/java/com/brailsoft/model/PropertySelect.java:19-20 | filtering a sorted list keeps it sorted |
| Records.FirstText | src/main/java/com/brailsoft/model/MonitoredItem.java:154-161 | `item(0)` finds the first field with the tag, and nothing exactly when the tag does not occur |
| Records.Item0Text | src/main/java/com/brailsoft/model/MonitoredItem.java:154-161 | reading `item(0)` fails with a null pointer exactly when the tag does not occur, otherwise gives the first such field's text |
| Records.SoleText | src/main/java/com/brailsoft/model/InventoryItem.java:89-96 | `textContent` gives the field's text when the tag occurs exactly once and `""` otherwise |
| Records.OptionalsLookup | src/main/java/com/brailsoft/model/InventoryItem.java:104-115 | a field written only when non-empty occurs once with its text, or not at all when empty |
| Records.SoleTextAfter | src/main/java/com/brailsoft/model/InventoryItem.java:76-80 | after a prefix without the tag, an optional field reads back as its own text, empty ones as `""` |
| Records.OccurrencesAppend | src/main/java/com/brailsoft/model/MonitoredItem.java:185-197 | the number of fields with a tag adds up over concatenation |
| Records.FirstTextAppend | src/main/java/com/brailsoft/model/MonitoredItem.java:185-197 | the first field with a tag in a concatenation comes from the first part when it has one |
| MonitoredItems.PeriodValueOf | src/main/java/com/brailsoft/model/MonitoredItem.java:168-171 | `Period.valueOf` gives the constant with exactly that name, and a no-such-constant error naming the text otherwise |
| MonitoredItems.PeriodRoundTrip | src/main/java/com/brailsoft/model/MonitoredItem.java:186-194 | the written period name reads back as the same period |
| MonitoredItems.Advance | src/main/java/com/brailsoft/model/MonitoredItem.java:364-371 | the next-action date is `n` weeks, months or years after the date, with the month-end clamp |
| MonitoredItems.Retreat | src/main/java/com/brailsoft/model/MonitoredItem.java:354-362 | the next-notice date is `n` weeks, months or years before the date, with the month-end clamp |
| MonitoredItems.AdvanceRetreatStrict | src/main/java/com/brailsoft/model/MonitoredItem.java:354-371 | for at least one period, advancing gives a strictly later date and retreating a strictly earlier one |
| MonitoredItems.Initialize | src/main/java/com/brailsoft/model/MonitoredItem.java:202-216 | the item stores its inputs, its dates are consistent with them, and it has no owner |
| MonitoredItems.Construct | src/main/java/com/brailsoft/model/MonitoredItem.java:105-127 | success exactly when every check passes; otherwise the first failing check's message, in the source's order; a new item is scheduled, has no owner and no e-mail date |
| MonitoredItems.RecalculateNextNotice | src/main/java/com/brailsoft/model/MonitoredItem.java:383-386 | only the next-notice date changes, to the notice period before the next action |
| MonitoredItems.RecalculateTimes | src/main/java/com/brailsoft/model/MonitoredItem.java:373-381 | both dates are brought back into agreement with the item's settings; nothing else changes |
| MonitoredItems.SetPeriodForNextAction | src/main/java/com/brailsoft/model/MonitoredItem.java:253-256 | the new period is stored, both dates are consistent again, and nothing else changes |
| MonitoredItems.SetNoticeEvery | src/main/java/com/brailsoft/model/MonitoredItem.java:266-269 | the new count is stored, both dates are consistent again, and nothing else changes |
| MonitoredItems.SetAdvanceNotice | src/main/java/com/brailsoft/model/MonitoredItem.java:279-282 | only the count and the next-notice date change, and a consistent item stays consistent |
| MonitoredItems.SetPeriodForNextNotice | src/main/java/com/brailsoft/model/MonitoredItem.java:304-307 | only the period and the next-notice date change, and a consistent item stays consistent |
| MonitoredItems.ActionPerformed | src/main/java/com/brailsoft/model/MonitoredItem.java:313-316 | the action date is stored and both dates are recomputed from it; nothing else changes |
| MonitoredItems.SetEmailSentOn | src/main/java/com/brailsoft/model/MonitoredItem.java:322-324 | only the e-mail date changes, with no recalculation |
| MonitoredItems.SetDescription | src/main/java/com/brailsoft/model/MonitoredItem.java:241-243 | only the description changes |
| MonitoredItems.SetOwner | src/main/java/com/brailsoft/model/MonitoredItem.java:229-231 | only the owner changes |
| MonitoredItems.Overdue | src/main/java/com/brailsoft/model/MonitoredItem.java:334-340 | an item is overdue exactly on the days whose epoch day is past its next-action date |
| MonitoredItems.NoticeDue | src/main/java/com/brailsoft/model/MonitoredItem.java:346-352 | an item's notice is due exactly on the days whose epoch day is past its next-notice date |
| MonitoredItems.DueBoundaries | src/main/java/com/brailsoft/model/MonitoredItem.java:334-352 | neither the due date nor the day before it is overdue; the day after is |
| MonitoredItems.ScheduleOrder | src/main/java/com/brailsoft/model/MonitoredItem.java:105-127 | for a validly built item, the next action comes after the last one and the notice before the next action |
| MonitoredItems.ActionClearsOverdue | src/main/java/com/brailsoft/model/MonitoredItem.java:313-316 | an item is not overdue on the day its action is recorded |
| MonitoredItems.YearlyWithWeeklyNotice | src/test/java/com/brailsoft/model/PropertySelectTest.java:67 | the test item falls due one year after its start, with its notice one week before that |
| MonitoredItems.NoticeCanPrecedeLastAction | src/main/java/com/brailsoft/model/MonitoredItem.java:354-371 | a notice period longer than the action period puts the notice before the last action (2020-06-01, yearly, two years' notice: 2019-06-01) |
| MonitoredItems.CompareItems | src/main/java/com/brailsoft/model/MonitoredItem.java:412-415 | `compareTo` is negative, zero or positive exactly as the first item's next-action date is earlier, the same or later |
| MonitoredItems.CompareItemsMeaning | src/main/java/com/brailsoft/model/MonitoredItem.java:412-415 | `compareTo` is zero exactly for equal next-action dates and is antisymmetric |
| MonitoredItems.CompareInconsistentWithEquals | src/main/java/com/brailsoft/model/MonitoredItem.java:412-432 | two items can compare as zero and still not be equal |
| MonitoredItems.ItemOrderIsTotalPreorder | src/main/java/com/brailsoft/model/MonitoredItem.java:412-415 | the item order is total and transitive, as `Collections.sort` needs |
| MonitoredItems.SortItems | src/main/java/com/brailsoft/model/PropertySelect.java:52 | an item list sorted by next-action date, a permutation of the input |
| MonitoredItems.Encode | src/main/java/com/brailsoft/model/MonitoredItem.java:181-200 | the record holds only the item's tags, and the e-mail field exactly when the item has an e-mail date |
| MonitoredItems.ReadTexts | src/main/java/com/brailsoft/model/MonitoredItem.java:154-165 | reading fails with a null pointer exactly when a mandatory field is missing; otherwise each text is the first occurrence of its field, and the e-mail text is present exactly when that field occurs |
| MonitoredItems.ParseEmailSentOn | src/main/java/com/brailsoft/model/MonitoredItem.java:172-175 | no e-mail text gives no date; otherwise the text is parsed as an ISO date, failing as it fails |
| MonitoredItems.ParseTexts | src/main/java/com/brailsoft/model/MonitoredItem.java:167-178 | succeeds exactly when every text parses; otherwise fails with the error of the first text that does not, in the source's order (last-actioned date, action period, the two counts, notice period, e-mail date); a parsed item is scheduled, has no owner, and carries the parsed value of every text |
| MonitoredItems.Decode | src/main/java/com/brailsoft/model/MonitoredItem.java:150-179 | a missing mandatory field fails with a null pointer; otherwise succeeds exactly when the read texts parse, and a failure is the parse error of one field's first text; a decoded item is scheduled, has no owner, and each field parses from (or prints as) that field's first text |
| MonitoredItems.ReadFields | src/main/java/com/brailsoft/model/MonitoredItem.java:154-165 | reading the fields the writer produced gives back exactly the written texts |
| MonitoredItems.ParseTextsOf | src/main/java/com/brailsoft/model/MonitoredItem.java:167-178 | parsing an item's texts rebuilds the item, without its owner |
| MonitoredItems.EncodeDecodeRoundTrip | src/main/java/com/brailsoft/model/MonitoredItem.java:150-200 | reading back a written record gives the same item, without its owner, for dates in the supported range |
| MonitoredItems.DecodeSkipsValidation | src/main/java/com/brailsoft/model/MonitoredItem.java:150-179 | the record reader accepts an item with `noticeEvery < 1` that the validating constructor refuses |
| InventoryItems.Construct | src/main/java/com/brailsoft/model/InventoryItem.java:28-52 | success exactly when the description is non-blank and no text is null; otherwise the first failing check's message; the purchase text is empty exactly without a date and otherwise parses back to it |
| InventoryItems.PurchaseText | src/main/java/com/brailsoft/model/InventoryItem.java:45-50 | no date gives `""`; a date gives display text that parses back to that date |
| InventoryItems.DisplayDateParses | src/main/java/com/brailsoft/model/InventoryItem.java:49 | the display text of a date in range parses back to the date |
| InventoryItems.SetOwner | src/main/java/com/brailsoft/model/InventoryItem.java:187-189 | only the owner changes |
| InventoryItems.CompareInventory | src/main/java/com/brailsoft/model/InventoryItem.java:233-243 | `compareTo` is zero exactly when manufacturer, model and serial number agree; otherwise the first differing key's `String.compareTo` is the result |
| InventoryItems.CompareInventoryMeaning | src/main/java/com/brailsoft/model/InventoryItem.java:233-243 | `compareTo` is zero exactly when manufacturer, model and serial number agree, whatever the descriptions; otherwise the first differing key decides; it is antisymmetric |
| InventoryItems.CompareInconsistentWithEquals | src/main/java/com/brailsoft/model/InventoryItem.java:195-243 | `equals` and `compareTo` disagree both ways: a different description compares as zero, and a different manufacturer is still equal |
| InventoryItems.InventoryOrderIsTotalPreorder | src/main/java/com/brailsoft/model/InventoryItem.java:233-243 | the inventory order is total and transitive |
| InventoryItems.SortInventory | src/main/java/com/brailsoft/model/PropertySelect.java:72-73 | an inventory list sorted by the three keys, a permutation of the input |
| InventoryItems.ItemTextOfTestItem | src/test/java/com/brailsoft/model/InventoryItemMonitorTest.java:196 | the tests' inventory item prints as its description, manufacturer, model and serial number joined by `", "` |
| InventoryItems.Encode | src/main/java/com/brailsoft/model/InventoryItem.java:98-122 | succeeds exactly when the purchase date is empty or parses as display text, and otherwise fails with a parse error naming it; the description comes first and every other written field is non-empty |
| InventoryItems.Decode | src/main/java/com/brailsoft/model/InventoryItem.java:71-87 | succeeds exactly when a description occurs and the stored date is empty or parses; a missing description fails with a null pointer and a bad stored date with a parse error naming it; the description is the first description field's text, the other texts each field's sole text, and the display date denotes the same day as the stored one |
| InventoryItems.ReadOptionalInputs | src/main/java/com/brailsoft/model/InventoryItem.java:76-80 | each optional field of a written record reads back as the item's own text |
| InventoryItems.EncodeDecodeRoundTrip | src/main/java/com/brailsoft/model/InventoryItem.java:71-122 | reading back a written record gives the same item, without its owner, when its purchase text is empty or a display date in range |
| InventoryItems.DecodeDescriptionOnly | src/main/java/com/brailsoft/model/InventoryItem.java:89-96 | a record with only a description reads as an item whose other texts are empty |
| InventoryItems.DuplicateFieldReadsEmpty | src/main/java/com/brailsoft/model/InventoryItem.java:92-94 | a field that occurs twice reads as empty |
| Properties.ComparePropertiesMeaning | src/main/java/com/brailsoft/model/PropertyMonitor.java:146-153 | the property order is zero exactly for equal properties, and antisymmetric |
| Properties.PropertyOrderIsTotalPreorder | src/main/java/com/brailsoft/model/PropertyMonitor.java:150 | the property order is total and transitive |
| Properties.SortProperties | src/main/java/com/brailsoft/model/PropertyMonitor.java:148-150 | a property list sorted by address, a permutation of the input |
| Properties.AreItemsOverdue | src/main/java/com/brailsoft/model/PropertySelect.java:19 | a property has overdue items on a day exactly when one of its monitored items has a next-action date with a smaller epoch day |
| Properties.AreNoticesOverdue | src/main/java/com/brailsoft/model/PropertySelect.java:28 | a property has due notices on a day exactly when one of its monitored items has a next-notice date with a smaller epoch day |
| Properties.AddMonitoredItem | src/main/java/com/brailsoft/model/PropertyMonitor.java:178 | a property refuses an item equal to one it holds, with its message; otherwise it appends the item and changes nothing else, keeping its items distinct |
| Properties.AddInventoryItem | src/main/java/com/brailsoft/model/PropertyMonitor.java:217 | the same for inventory items |
| Properties.DuplicateInventoryMessage | src/test/java/com/brailsoft/model/InventoryItemMonitorTest.java:196-197 | adding the tests' inventory item twice fails with the message the tests expect |
| PropertyMonitors.FindProperty | src/main/java/com/brailsoft/model/PropertyMonitor.java:264-275 | `findProperty` finds nothing exactly when no equal property is registered, and otherwise the first equal one |
| PropertyMonitors.FindPropertyUnique | src/main/java/com/brailsoft/model/PropertyMonitor.java:264-275 | in a registry without duplicates, the one equal property is the one found |
| PropertyMonitors.RemoveAt | src/main/java/com/brailsoft/model/PropertyMonitor.java:98 | `List.remove` drops exactly one element and keeps the others in order |
| PropertyMonitors.RemoveAtFacts | src/main/java/com/brailsoft/model/PropertyMonitor.java:131 | removing the first equal property keeps every other property, adds none, and in a registry without duplicates leaves no equal one |
| PropertyMonitors.Clear | src/main/java/com/brailsoft/model/PropertyMonitor.java:41-46 | the registry becomes empty and only a storage request is logged |
| PropertyMonitors.AddProperty | src/main/java/com/brailsoft/model/PropertyMonitor.java:48-73 | refuses null and an already registered property with their messages, changing and logging nothing; otherwise appends it and logs add, added and store; no duplicates are introduced |
| PropertyMonitors.ReplaceProperty | src/main/java/com/brailsoft/model/PropertyMonitor.java:75-113 | refuses null arguments, an unknown old property and an already registered new one, in that order; otherwise the registry becomes the old list without its first property equal to the old one, in order, with the new property appended, and, when the registry had no duplicates, the old one is gone; logs changed, modified and store; failures change and log nothing |
| PropertyMonitors.RemoveProperty | src/main/java/com/brailsoft/model/PropertyMonitor.java:115-144 | refuses null and an unknown property; otherwise the registry becomes the old list without its first equal property, the others in their order, and logs removed, deleted and store |
| PropertyMonitors.PropertiesOf | src/main/java/com/brailsoft/model/PropertyMonitor.java:146-153 | `properties()` is the registry sorted by address, as a permutation |
| PropertyMonitors.UpdateSameAddressUnique | src/main/java/com/brailsoft/model/PropertyMonitor.java:178 | updating a property in place under its own address keeps the registry free of duplicates |
| PropertyMonitors.AddMonitoredItem | src/main/java/com/brailsoft/model/PropertyMonitor.java:155-192 | refuses null, an ownerless item and an unknown owner, in that order; an item equal to one the owner holds fails with "Property: item ... already exists"; on success only the owner's item list grows and the log is add, added and store; failures change and log nothing |
| PropertyMonitors.AddInventoryItem | src/main/java/com/brailsoft/model/PropertyMonitor.java:194-231 | the same for inventory items, with the inventory notification and audit object and the duplicate message the registry tests expect |
| PropertyMonitors.AddItemTouchesOnlyOwner | src/main/java/com/brailsoft/model/PropertyMonitor.java:177-178 | after a successful insertion the owner property has the item appended and every other property is unchanged |
| PropertyMonitors.AddPropertyKeepsOthers | src/main/java/com/brailsoft/model/PropertyMonitor.java:64 | a registered property stays registered when another is added |
| PropertyMonitors.AddThenRemove | src/main/java/com/brailsoft/model/PropertyMonitor.java:48-144 | adding a new property and then removing it gives back the original registry |
| PropertySelect.AllItems | src/main/java/com/brailsoft/model/PropertySelect.java:86 | every monitored item of every property, and nothing else |
| PropertySelect.OverdueItemsFor | src/main/java/com/brailsoft/model/PropertySelect.java:78-91 | refuses a null date; otherwise exactly the items whose next action falls on the date, each as often as registered, sorted, and, since they all compare as equal, in registry order |
| PropertySelect.NotifiedItemsFor | src/main/java/com/brailsoft/model/PropertySelect.java:93-106 | refuses a null date; otherwise exactly the items whose next notice falls on the date, sorted by next-action date, with items due for action on the same day kept in registry order |
| PropertySelect.MonitoredItemsFor | src/main/java/com/brailsoft/model/PropertySelect.java:35-55 | refuses null and an unregistered property with their messages; otherwise the registered property's items sorted by next-action date |
| PropertySelect.InventoryItemsFor | src/main/java/com/brailsoft/model/PropertySelect.java:57-76 | refuses null and an unregistered property; otherwise the registered property's inventory sorted by the three keys |
| PropertySelect.InventoryFor | src/main/java/com/brailsoft/model/PropertySelect.java:108-127 | the same list as `inventoryItemsFor`, with failure messages that carry the `PropertyMonitor:` prefix |
| PropertySelect.WithOverdueItems | src/main/java/com/brailsoft/model/PropertySelect.java:17-24 | exactly the registered properties with an item overdue on the given day, sorted by address |
| PropertySelect.WithOverdueNotices | src/main/java/com/brailsoft/model/PropertySelect.java:26-33 | exactly the registered properties with a notice due on the given day, sorted by address |
| PropertySelect.SingleItemOverdue | src/main/java/com/brailsoft/model/PropertySelect.java:86-87 | with one item registered, the action-date query finds it exactly on its own date |
| PropertySelect.SingleItemNotified | src/main/java/com/brailsoft/model/PropertySelect.java:101-102 | with one item registered, the notice-date query finds it exactly on its notice date |
| PropertySelect.TestRegistry | src/test/java/com/brailsoft/model/PropertySelectTest.java:140-153 | the tests' setup leaves one property holding the test item and the test inventory item |
| PropertySelect.TestScenarioCounts | src/test/java/com/brailsoft/model/PropertySelectTest.java:95-137 | the sizes the query tests expect: one item and one inventory item; overdue only on the anniversary (not the day before or after, not at the start); notified only a week before it |

## Left out

- Storage, notification broadcasting and the audit service: these are I/O. The registry
  operations record what they would broadcast, audit and store as log entries. Reading and
  writing the property file, and the directory handling, are not modelled.
- The JavaFX property objects, bindings and display strings: these are user-interface
  plumbing. The singleton, `synchronized` and logging are left out too. Values are
  immutable, so copy constructors and defensive copies are the identity.
- The clock: `overdue()` and `noticeDue()` without arguments read the system date. The
  dated forms take it as a parameter. `withOverdueItems` and `withOverdueNotices` take "today"
  as a parameter.
- `Addresses.CompareAddresses`: the address class is not part of this model, so its
  `compareTo` is taken to be `String.compareTo` on the printed address. That order is total,
  and it is zero exactly for equal addresses. The property order and every sorted property
  list rest on this choice.
- The property class and the address class are not part of this model. A property is its
  address, which gives its `equals`, `compareTo` and `toString`, and its two item lists.
  Adding a duplicate item to a property fails with the message the tests expect.
- `getAllItems` is not part of this model. It is taken to be the monitored items of every
  property, property by property in registry order.
- `removeItem` and the `Failed` notifications are not part of the core source. `Failed`
  exists as a constant only.
- The tag names of the record fields are not part of this model. Each is a distinct placeholder.
- The `Period` enum is not part of this model. Its constants are taken to be named `WEEKLY`,
  `MONTHLY` and `YEARLY`.
- `PropertyMonitors.AddMonitoredItem`: an item without an owner is refused with
  `PropertyMonitor: property was null`. The source's `owner()` copies a null owner through
  the property copy constructor, which is not part of this model, so what it actually throws
  is unknown.
- Null arguments to the setters and to the record builders are left out. The Java types
  would accept them; the model's types do not.
- The `DateTimeException` that `LocalDate` arithmetic throws beyond year ±999,999,999 is
  left out. Arithmetic is unbounded. The year range is enforced where text is parsed.
- `Digits.ParseInt` accepts ASCII digits only; `Integer.parseInt` also accepts other Unicode
  decimal digits. Java's date formatters accept ASCII digits only, as modelled.
- Strings are sequences of characters. `String.compareTo` compares UTF-16 code units, which
  differ from code points only beyond the basic plane.
- The element constructors' `null` element checks and the builders' `null` document checks
  are left out. A record is a value and always present.
