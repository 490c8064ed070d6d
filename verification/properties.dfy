/**
 * A property as the registry and the queries see it: an address that identifies and
 * orders it, its monitored items and its inventory. The property class itself is not
 * part of this model; this record keeps only what the registry relies on.
 */
module Properties {
  import opened Wrappers
  import opened Failures
  import opened Calendar
  import opened JavaStrings
  import opened Addresses
  import MI = MonitoredItems
  import II = InventoryItems
  import Sorting

  datatype Property = Property(
    address: Address,
    monitoredItems: seq<MI.MonitoredItem>,
    inventoryItems: seq<II.InventoryItem>)

  /** A property with no items yet. */
  function NewProperty(address: Address): (r: Property)
    ensures r.address == address && r.monitoredItems == [] && r.inventoryItems == []
  {
    Property(address, [], [])
  }

  /** `toString`, as it appears in the registry's messages: the address text. */
  function PropertyText(p: Property): string {
    p.address.text
  }

  /** `equals`: two properties are the same property when their addresses agree. */
  predicate SameProperty(a: Property, b: Property) {
    a.address == b.address
  }

  /** `compareTo`: by address. */
  function CompareProperties(a: Property, b: Property): int {
    CompareAddresses(a.address, b.address)
  }

  predicate PropertyLeq(a: Property, b: Property) {
    CompareProperties(a, b) <= 0
  }

  /** The property order agrees with `equals`: zero exactly for the same address. */
  lemma ComparePropertiesMeaning(a: Property, b: Property)
    ensures CompareProperties(a, b) == 0 <==> SameProperty(a, b)
    ensures CompareProperties(b, a) == -CompareProperties(a, b)
  {
    CompareToZero(a.address.text, b.address.text);
    CompareToFlip(a.address.text, b.address.text);
  }

  lemma PropertyOrderIsTotalPreorder()
    ensures Sorting.TotalPreorder(PropertyLeq)
  {
    forall a, b ensures PropertyLeq(a, b) || PropertyLeq(b, a) {
      CompareToFlip(a.address.text, b.address.text);
    }
    forall a, b, c | PropertyLeq(a, b) && PropertyLeq(b, c) ensures PropertyLeq(a, c) {
      CompareToTransitive(a.address.text, b.address.text, c.address.text);
    }
  }

  /** `Collections.sort` of a property list. */
  function SortProperties(ps: seq<Property>): (r: seq<Property>)
    ensures Sorting.Sorted(r, PropertyLeq) && multiset(r) == multiset(ps)
  {
    PropertyOrderIsTotalPreorder();
    Sorting.Sort(ps, PropertyLeq)
  }

  // ---------------------------------------------------------------------------
  // Items of a property
  // ---------------------------------------------------------------------------

  /** The property already holds a monitored item equal to `item` (same description). */
  predicate HasMonitoredItem(p: Property, item: MI.MonitoredItem) {
    exists i :: 0 <= i < |p.monitoredItems| && MI.SameItem(p.monitoredItems[i], item)
  }

  /** The property already holds an inventory item equal to `item` (same description). */
  predicate HasInventoryItem(p: Property, item: II.InventoryItem) {
    exists i :: 0 <= i < |p.inventoryItems| && II.SameItem(p.inventoryItems[i], item)
  }

  /** No two monitored items and no two inventory items of the property are equal. */
  predicate DistinctItems(p: Property) {
    && (forall i, j :: 0 <= i < j < |p.monitoredItems| ==> !MI.SameItem(p.monitoredItems[i], p.monitoredItems[j]))
    && (forall i, j :: 0 <= i < j < |p.inventoryItems| ==> !II.SameItem(p.inventoryItems[i], p.inventoryItems[j]))
  }

  /** `addItem(MonitoredItem)`: refuse an item equal to one already held, otherwise append it. */
  function AddMonitoredItem(p: Property, item: MI.MonitoredItem): (r: Result<Property, Failure>)
    ensures r.Err? <==> HasMonitoredItem(p, item)
    ensures r.Err? ==> r.error == IllegalArgument("Property: item " + MI.ItemText(item) + " already exists")
    ensures r.Ok? ==> r.value.address == p.address && r.value.inventoryItems == p.inventoryItems
    ensures r.Ok? ==> r.value.monitoredItems == p.monitoredItems + [item]
    ensures r.Ok? && DistinctItems(p) ==> DistinctItems(r.value)
  {
    if HasMonitoredItem(p, item) then Err(IllegalArgument("Property: item " + MI.ItemText(item) + " already exists"))
    else Ok(p.(monitoredItems := p.monitoredItems + [item]))
  }

  /** `addItem(InventoryItem)`: refuse an item equal to one already held, otherwise append it. */
  function AddInventoryItem(p: Property, item: II.InventoryItem): (r: Result<Property, Failure>)
    ensures r.Err? <==> HasInventoryItem(p, item)
    ensures r.Err? ==> r.error == IllegalArgument("Property: item " + II.ItemText(item) + " already exists")
    ensures r.Ok? ==> r.value.address == p.address && r.value.monitoredItems == p.monitoredItems
    ensures r.Ok? ==> r.value.inventoryItems == p.inventoryItems + [item]
    ensures r.Ok? && DistinctItems(p) ==> DistinctItems(r.value)
  {
    if HasInventoryItem(p, item) then Err(IllegalArgument("Property: item " + II.ItemText(item) + " already exists"))
    else Ok(p.(inventoryItems := p.inventoryItems + [item]))
  }

  /** Adding the tests' inventory item a second time fails with the message the tests expect. */
  lemma DuplicateInventoryMessage(p: Property, d: Option<LocalDate>)
    requires var r := II.Construct(Some("inventory1"), Some("manufacturer1"), Some("model1"),
                                   Some("serialnumber1"), Some("supplier1"), d);
             r.Ok? && HasInventoryItem(p, r.value)
    ensures var item := II.Construct(Some("inventory1"), Some("manufacturer1"), Some("model1"),
                                     Some("serialnumber1"), Some("supplier1"), d).value;
            AddInventoryItem(p, item)
            == Err(IllegalArgument("Property: item "
                                  + ("inventory1" + ", " + "manufacturer1" + ", " + "model1" + ", " + "serialnumber1")
                                  + " already exists"))
  {
    II.ItemTextOfTestItem(d);
  }

  /** `areItemsOverdue`, with the date passed in: some monitored item is overdue on `today`. */
  predicate AreItemsOverdue(p: Property, today: LocalDate): (r: bool)
    ensures r <==> exists i :: 0 <= i < |p.monitoredItems|
                              && EpochDay(today) > EpochDay(p.monitoredItems[i].timeForNextAction)
  {
    exists i :: 0 <= i < |p.monitoredItems| && MI.Overdue(p.monitoredItems[i], today)
  }

  /** `areNoticesOverdue`, with the date passed in: some monitored item's notice is due on `today`. */
  predicate AreNoticesOverdue(p: Property, today: LocalDate): (r: bool)
    ensures r <==> exists i :: 0 <= i < |p.monitoredItems|
                              && EpochDay(today) > EpochDay(p.monitoredItems[i].timeForNextNotice)
  {
    exists i :: 0 <= i < |p.monitoredItems| && MI.NoticeDue(p.monitoredItems[i], today)
  }
}
