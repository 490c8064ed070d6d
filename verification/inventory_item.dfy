/**
 * An item of a property's inventory: a description, who made and sold it, and when it
 * was bought. The purchase date is held as display text, `dd/MM/uuuu`, or empty.
 */
module InventoryItems {
  import opened Wrappers
  import opened Failures
  import opened Calendar
  import opened DateText
  import opened JavaStrings
  import opened Records
  import opened Addresses
  import Tags
  import Sorting

  /** The fields of an inventory item; `owner` holds the key of the owning property. */
  datatype InventoryItem = InventoryItem(
    description: string,
    manufacturer: string,
    model: string,
    serialNumber: string,
    supplier: string,
    purchaseDate: string,
    owner: Option<Address>)

  /** A purchase date as the constructors leave it: empty, or the display rendering of a date. */
  ghost predicate CanonicalPurchaseDate(s: string) {
    s == "" || exists d: LocalDate :: InYearRange(d.year) && s == UiText(d)
  }

  /**
   * The validating constructor. Arguments the source may receive as `null` are options;
   * only the description must be non-blank, the other texts may be empty.
   */
  function Construct(description: Option<string>, manufacturer: Option<string>, model: Option<string>,
                     serialNumber: Option<string>, supplier: Option<string>,
                     purchaseDate: Option<LocalDate>): (r: Result<InventoryItem, Failure>)
    ensures r.Ok? <==> !MissingText(description) && manufacturer.Some? && model.Some?
                       && serialNumber.Some? && supplier.Some?
    ensures MissingText(description) ==>
              r == Err(IllegalArgument("InventoryItem: description was missing"))
    ensures !MissingText(description) && manufacturer.None? ==>
              r == Err(IllegalArgument("InventoryItem: manufacturer was null"))
    ensures !MissingText(description) && manufacturer.Some? && model.None? ==>
              r == Err(IllegalArgument("InventoryItem: model was null"))
    ensures !MissingText(description) && manufacturer.Some? && model.Some? && serialNumber.None? ==>
              r == Err(IllegalArgument("InventoryItem: serialNumber was null"))
    ensures !MissingText(description) && manufacturer.Some? && model.Some? && serialNumber.Some?
            && supplier.None? ==>
              r == Err(IllegalArgument("InventoryItem: supplier was null"))
    ensures r.Ok? ==> r.value.description == description.value && r.value.manufacturer == manufacturer.value
    ensures r.Ok? ==> r.value.model == model.value && r.value.serialNumber == serialNumber.value
    ensures r.Ok? ==> r.value.supplier == supplier.value && r.value.owner == None
    ensures r.Ok? ==> (r.value.purchaseDate == "" <==> purchaseDate.None?)
    ensures r.Ok? && purchaseDate.Some? && InYearRange(purchaseDate.value.year) ==>
              ParseUiDate(r.value.purchaseDate) == Ok(purchaseDate.value)
    ensures r.Ok? && (purchaseDate.Some? ==> InYearRange(purchaseDate.value.year)) ==>
              CanonicalPurchaseDate(r.value.purchaseDate)
  {
    if MissingText(description) then Err(IllegalArgument("InventoryItem: description was missing"))
    else if manufacturer.None? then Err(IllegalArgument("InventoryItem: manufacturer was null"))
    else if model.None? then Err(IllegalArgument("InventoryItem: model was null"))
    else if serialNumber.None? then Err(IllegalArgument("InventoryItem: serialNumber was null"))
    else if supplier.None? then Err(IllegalArgument("InventoryItem: supplier was null"))
    else
      Ok(InventoryItem(description.value, manufacturer.value, model.value, serialNumber.value,
                       supplier.value, PurchaseText(purchaseDate), None))
  }

  /** The constructor's purchase date: empty for `null`, otherwise the `dd/MM/uuuu` rendering. */
  function PurchaseText(d: Option<LocalDate>): (r: string)
    ensures r == "" <==> d.None?
    ensures d.Some? && InYearRange(d.value.year) ==> ParseUiDate(r) == Ok(d.value)
    ensures (d.Some? ==> InYearRange(d.value.year)) ==> CanonicalPurchaseDate(r)
  {
    match d
    case None => ""
    case Some(date) =>
      DisplayDateParses(date);
      UiText(date)
  }

  lemma DisplayDateParses(d: LocalDate)
    ensures InYearRange(d.year) ==> ParseUiDate(UiText(d)) == Ok(d)
  {
    if InYearRange(d.year) {
      UiRoundTrip(d, Smart);
    }
  }

  /** `setOwner`: the item now belongs to the property with this address. */
  function SetOwner(item: InventoryItem, owner: Address): (r: InventoryItem)
    ensures r.owner == Some(owner) && r.(owner := item.owner) == item
  {
    item.(owner := Some(owner))
  }

  // ---------------------------------------------------------------------------
  // Identity, order and text
  // ---------------------------------------------------------------------------

  /** `equals` and `hashCode`: the description alone. */
  predicate SameItem(a: InventoryItem, b: InventoryItem) {
    a.description == b.description
  }

  /** The keys `compareTo` consults, in order. */
  function SortKeys(item: InventoryItem): seq<string> {
    [item.manufacturer, item.model, item.serialNumber]
  }

  /** `compareTo`: manufacturer, then model, then serial number; never the description. */
  function CompareInventory(a: InventoryItem, b: InventoryItem): (r: int)
    ensures r == 0 <==> a.manufacturer == b.manufacturer && a.model == b.model && a.serialNumber == b.serialNumber
    ensures a.manufacturer != b.manufacturer ==> r == CompareTo(a.manufacturer, b.manufacturer)
    ensures a.manufacturer == b.manufacturer && a.model != b.model ==> r == CompareTo(a.model, b.model)
    ensures a.manufacturer == b.manufacturer && a.model == b.model ==> r == CompareTo(a.serialNumber, b.serialNumber)
  {
    CascadeZero(SortKeys(a), SortKeys(b));
    CompareToZero(a.manufacturer, b.manufacturer);
    CompareToZero(a.model, b.model);
    assert SortKeys(a)[1..] == [a.model, a.serialNumber];
    assert SortKeys(b)[1..] == [b.model, b.serialNumber];
    assert SortKeys(a)[2..] == [a.serialNumber];
    assert SortKeys(b)[2..] == [b.serialNumber];
    assert CompareCascade([a.serialNumber], [b.serialNumber]) == CompareTo(a.serialNumber, b.serialNumber);
    CompareCascade(SortKeys(a), SortKeys(b))
  }

  /** The sort order used for inventory lists: `compareTo <= 0`. */
  predicate InventoryLeq(a: InventoryItem, b: InventoryItem) {
    CompareInventory(a, b) <= 0
  }

  /**
   * `compareTo` is zero exactly when the three keys agree, whatever the descriptions, and
   * otherwise the first differing key decides.
   */
  lemma CompareInventoryMeaning(a: InventoryItem, b: InventoryItem)
    ensures CompareInventory(a, b) == 0 <==>
              a.manufacturer == b.manufacturer && a.model == b.model && a.serialNumber == b.serialNumber
    ensures a.manufacturer != b.manufacturer ==>
              CompareInventory(a, b) == CompareTo(a.manufacturer, b.manufacturer)
    ensures a.manufacturer == b.manufacturer && a.model != b.model ==>
              CompareInventory(a, b) == CompareTo(a.model, b.model)
    ensures CompareInventory(b, a) == -CompareInventory(a, b)
  {
    CascadeZero(SortKeys(a), SortKeys(b));
    CascadeFlip(SortKeys(a), SortKeys(b));
    CompareToZero(a.manufacturer, b.manufacturer);
    CompareToZero(a.model, b.model);
    assert SortKeys(a)[1..] == [a.model, a.serialNumber];
    assert SortKeys(b)[1..] == [b.model, b.serialNumber];
  }

  /**
   * `equals` and `compareTo` disagree in both directions: a different description compares
   * as zero, and a different manufacturer is still the same item.
   */
  lemma CompareInconsistentWithEquals(a: InventoryItem)
    ensures var b := a.(description := a.description + "x");
            CompareInventory(a, b) == 0 && !SameItem(a, b)
    ensures var c := a.(manufacturer := a.manufacturer + "x");
            SameItem(a, c) && CompareInventory(a, c) != 0
  {
    assert |a.description + "x"| != |a.description|;
    assert |a.manufacturer + "x"| != |a.manufacturer|;
  }

  lemma InventoryOrderIsTotalPreorder()
    ensures Sorting.TotalPreorder(InventoryLeq)
  {
    forall a, b ensures InventoryLeq(a, b) || InventoryLeq(b, a) {
      CascadeFlip(SortKeys(a), SortKeys(b));
    }
    forall a, b, c | InventoryLeq(a, b) && InventoryLeq(b, c) ensures InventoryLeq(a, c) {
      CascadeTransitive(SortKeys(a), SortKeys(b), SortKeys(c));
    }
  }

  /** Inventory lists sorted by (manufacturer, model, serial number). */
  function SortInventory(items: seq<InventoryItem>): (r: seq<InventoryItem>)
    ensures Sorting.Sorted(r, InventoryLeq) && multiset(r) == multiset(items)
  {
    InventoryOrderIsTotalPreorder();
    Sorting.Sort(items, InventoryLeq)
  }

  /** `toString`: description, manufacturer, model and serial number, separated by `", "`. */
  function ItemText(item: InventoryItem): string {
    item.description + ", " + item.manufacturer + ", " + item.model + ", " + item.serialNumber
  }

  /** The text of the item the registry tests add, as it appears in their error message. */
  lemma ItemTextOfTestItem(d: Option<LocalDate>)
    ensures var r := Construct(Some("inventory1"), Some("manufacturer1"), Some("model1"),
                               Some("serialnumber1"), Some("supplier1"), d);
            r.Ok? && ItemText(r.value) == "inventory1" + ", " + "manufacturer1" + ", " + "model1" + ", " + "serialnumber1"
  {
    assert !IsBlank("inventory1") by { assert !IsWhitespace("inventory1"[0]); }
  }

  // ---------------------------------------------------------------------------
  // The persisted record
  // ---------------------------------------------------------------------------

  /** The fields after the description, in the order `buildElement` considers them. */
  function OptionalInputs(item: InventoryItem, storedDate: string): (r: seq<Field>)
    ensures DistinctTags(r) && |r| == 5
  {
    [ Field(Tags.MANUFACTURER, item.manufacturer),
      Field(Tags.MODEL, item.model),
      Field(Tags.SERIAL_NUMBER, item.serialNumber),
      Field(Tags.SUPPLIER, item.supplier),
      Field(Tags.PURCHASE_DATE, storedDate) ]
  }

  /**
   * `buildElement`: the description always, every other field only when non-empty, and the
   * purchase date re-rendered from `dd/MM/uuuu` to `uuuu-MM-dd`. A purchase date that does
   * not parse as display text makes it fail.
   */
  function Encode(item: InventoryItem): (r: Result<Element, Failure>)
    ensures r.Ok? <==> item.purchaseDate == "" || ParseUiDate(item.purchaseDate).Ok?
    ensures item.purchaseDate != "" && ParseUiDate(item.purchaseDate).Err? ==>
              r == Err(DateTimeParse(item.purchaseDate))
    ensures r.Ok? ==> |r.value| >= 1 && r.value[0] == Field(Tags.DESCRIPTION, item.description)
    ensures r.Ok? ==> forall i :: 1 <= i < |r.value| ==> r.value[i].text != ""
  {
    var storedDate :- if item.purchaseDate == "" then Ok("") else UiToStorage(item.purchaseDate);
    Ok([Field(Tags.DESCRIPTION, item.description)] + Optionals(OptionalInputs(item, storedDate)))
  }

  /**
   * The element constructor: the description from the first description field (a missing
   * one makes the read throw), every other field from `textContent`, and a non-empty
   * purchase date re-rendered from `uuuu-MM-dd` to `dd/MM/uuuu`.
   */
  function Decode(e: Element): (r: Result<InventoryItem, Failure>)
    ensures Occurrences(e, Tags.DESCRIPTION) == 0 ==> r == Err(NullPointer)
    ensures r.Ok? <==> Occurrences(e, Tags.DESCRIPTION) > 0
                       && (SoleText(e, Tags.PURCHASE_DATE) == "" || ParseStorageDate(SoleText(e, Tags.PURCHASE_DATE)).Ok?)
    ensures (&& Occurrences(e, Tags.DESCRIPTION) > 0 && SoleText(e, Tags.PURCHASE_DATE) != ""
             && ParseStorageDate(SoleText(e, Tags.PURCHASE_DATE)).Err?) ==>
              r == Err(DateTimeParse(SoleText(e, Tags.PURCHASE_DATE)))
    ensures r.Ok? ==> Some(r.value.description) == FirstText(e, Tags.DESCRIPTION)
    ensures r.Ok? && SoleText(e, Tags.PURCHASE_DATE) != "" ==>
              ParseUiDate(r.value.purchaseDate) == ParseStorageDate(SoleText(e, Tags.PURCHASE_DATE))
    ensures r.Ok? ==> r.value.owner == None && CanonicalPurchaseDate(r.value.purchaseDate)
    ensures r.Ok? ==> r.value.manufacturer == SoleText(e, Tags.MANUFACTURER) && r.value.model == SoleText(e, Tags.MODEL)
    ensures r.Ok? ==> r.value.serialNumber == SoleText(e, Tags.SERIAL_NUMBER) && r.value.supplier == SoleText(e, Tags.SUPPLIER)
    ensures r.Ok? ==> (r.value.purchaseDate == "" <==> SoleText(e, Tags.PURCHASE_DATE) == "")
  {
    var description :- Item0Text(e, Tags.DESCRIPTION);
    var storedDate := SoleText(e, Tags.PURCHASE_DATE);
    var purchaseDate :- if storedDate == "" then Ok("") else StorageToUi(storedDate);
    assert CanonicalPurchaseDate(purchaseDate) by {
      if purchaseDate != "" {
        var d := ParseStorageDate(storedDate).value;
        assert InYearRange(d.year) && purchaseDate == UiText(d);
      }
    }
    Ok(InventoryItem(description, SoleText(e, Tags.MANUFACTURER), SoleText(e, Tags.MODEL),
                     SoleText(e, Tags.SERIAL_NUMBER), SoleText(e, Tags.SUPPLIER), purchaseDate, None))
  }

  /** `textContent` reads back every optional field that was written, and an omitted one as empty. */
  lemma ReadOptionalInputs(item: InventoryItem, storedDate: string)
    ensures var e := [Field(Tags.DESCRIPTION, item.description)] + Optionals(OptionalInputs(item, storedDate));
            && SoleText(e, Tags.MANUFACTURER) == item.manufacturer
            && SoleText(e, Tags.MODEL) == item.model
            && SoleText(e, Tags.SERIAL_NUMBER) == item.serialNumber
            && SoleText(e, Tags.SUPPLIER) == item.supplier
            && SoleText(e, Tags.PURCHASE_DATE) == storedDate
  {
    var prefix := [Field(Tags.DESCRIPTION, item.description)];
    var fields := OptionalInputs(item, storedDate);
    SoleTextAfter(prefix, fields, 0);
    SoleTextAfter(prefix, fields, 1);
    SoleTextAfter(prefix, fields, 2);
    SoleTextAfter(prefix, fields, 3);
    SoleTextAfter(prefix, fields, 4);
  }

  /**
   * Every item whose purchase date is as the constructors leave it can be written, and
   * reading the record back reproduces every field except the owner.
   */
  lemma EncodeDecodeRoundTrip(item: InventoryItem)
    requires CanonicalPurchaseDate(item.purchaseDate)
    ensures Encode(item).Ok?
    ensures Decode(Encode(item).value) == Ok(item.(owner := None))
  {
    var storedDate := "";
    if item.purchaseDate != "" {
      var d: LocalDate :| InYearRange(d.year) && item.purchaseDate == UiText(d);
      PurchaseDateRoundTrip(d);
      storedDate := IsoText(d);
      assert StorageToUi(storedDate) == Ok(item.purchaseDate);
    }
    var e := [Field(Tags.DESCRIPTION, item.description)] + Optionals(OptionalInputs(item, storedDate));
    assert Encode(item) == Ok(e);
    ReadOptionalInputs(item, storedDate);
    FirstTextAt(e, Tags.DESCRIPTION, 0);
  }

  /** A record holding only a description reads back with every other field empty. */
  lemma DecodeDescriptionOnly(description: string)
    ensures Decode([Field(Tags.DESCRIPTION, description)])
            == Ok(InventoryItem(description, "", "", "", "", "", None))
  {
    var e := [Field(Tags.DESCRIPTION, description)];
    FirstTextAt(e, Tags.DESCRIPTION, 0);
  }

  /** A field that occurs twice is read as empty, not as either of its texts. */
  lemma DuplicateFieldReadsEmpty(description: string, first: string, second: string)
    ensures var r := Decode([Field(Tags.DESCRIPTION, description), Field(Tags.SUPPLIER, first),
                             Field(Tags.SUPPLIER, second)]);
            r.Ok? && r.value.supplier == ""
  {
    var e := [Field(Tags.DESCRIPTION, description), Field(Tags.SUPPLIER, first), Field(Tags.SUPPLIER, second)];
    FirstTextAt(e, Tags.DESCRIPTION, 0);
    assert e[1..][1..] == [Field(Tags.SUPPLIER, second)];
    assert Occurrences(e[1..][1..], Tags.SUPPLIER) == 1;
    assert Occurrences(e, Tags.SUPPLIER) == 2;
  }
}
