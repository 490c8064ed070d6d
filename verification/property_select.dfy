/**
 * Read-only queries over the registry. Every query returns a fresh list sorted with the
 * entity's own order; none changes the registry. The "today" of the overdue queries is
 * passed in instead of being read from the clock.
 */
module PropertySelect {
  import opened Wrappers
  import opened Failures
  import opened Calendar
  import opened Addresses
  import opened Properties
  import opened PropertyMonitors
  import MI = MonitoredItems
  import II = InventoryItems
  import Sorting

  /** Every monitored item of every property, property by property in registry order. */
  function AllItems(ps: seq<Property>): (r: seq<MI.MonitoredItem>)
    ensures forall m :: m in r <==> exists i :: 0 <= i < |ps| && m in ps[i].monitoredItems
    ensures |ps| == 1 ==> r == ps[0].monitoredItems
  {
    if |ps| == 0 then []
    else
      var rest := AllItems(ps[1..]);
      assert forall m :: (exists i :: 0 <= i < |ps| && m in ps[i].monitoredItems) ==>
                         m in ps[0].monitoredItems || exists i :: 0 <= i < |ps[1..]| && m in ps[1..][i].monitoredItems by {
        forall m | exists i :: 0 <= i < |ps| && m in ps[i].monitoredItems
          ensures m in ps[0].monitoredItems || exists i :: 0 <= i < |ps[1..]| && m in ps[1..][i].monitoredItems
        {
          var i :| 0 <= i < |ps| && m in ps[i].monitoredItems;
          if i > 0 { assert ps[1..][i - 1] == ps[i]; }
        }
      }
      ps[0].monitoredItems + rest
  }

  /** The item's next action falls on `date`. */
  predicate ActionOn(m: MI.MonitoredItem, date: LocalDate) {
    m.timeForNextAction == date
  }

  /** The item's next notice falls on `date`. */
  predicate NoticeOn(m: MI.MonitoredItem, date: LocalDate) {
    m.timeForNextNotice == date
  }

  /** `ActionOn` as the test a stream filter applies. */
  function ActionTest(date: LocalDate): MI.MonitoredItem -> bool {
    m => ActionOn(m, date)
  }

  /** `NoticeOn` as the test a stream filter applies. */
  function NoticeTest(date: LocalDate): MI.MonitoredItem -> bool {
    m => NoticeOn(m, date)
  }

  /** Items due for action on the same day compare as equal. */
  lemma SameActionDayEqual(a: LocalDate)
    ensures forall y, z :: ActionTest(a)(y) && ActionTest(a)(z) ==> MI.ItemLeq(y, z)
  {
  }

  /** The items due on one day are already in order, so sorting them changes nothing. */
  lemma SortingDueKeepsOrder(items: seq<MI.MonitoredItem>, d: LocalDate)
    ensures var due := Sorting.Filter(items, ActionTest(d));
            MI.SortItems(due) == due
  {
    var due := Sorting.Filter(items, ActionTest(d));
    MI.ItemOrderIsTotalPreorder();
    SameActionDayEqual(d);
    assert Sorting.Sorted(due, MI.ItemLeq);
    Sorting.SortOfSorted(due, MI.ItemLeq);
  }

  /**
   * `overdueItemsFor`: the items whose next action falls exactly on `date`, sorted. They all
   * compare as equal, so the stable sort hands them back in registry order.
   */
  function OverdueItemsFor(reg: Registry, date: Option<LocalDate>): (r: Result<seq<MI.MonitoredItem>, Failure>)
    ensures r.Err? <==> date.None?
    ensures r.Err? ==> r.error == IllegalArgument("PropertySelect: date was null")
    ensures r.Ok? ==> Sorting.Sorted(r.value, MI.ItemLeq)
    ensures r.Ok? ==> forall m :: m in r.value <==> m in AllItems(reg.properties) && ActionOn(m, date.value)
    ensures r.Ok? ==> forall m :: multiset(r.value)[m] ==
                                  if ActionOn(m, date.value) then multiset(AllItems(reg.properties))[m] else 0
    ensures r.Ok? ==> r.value == Sorting.Filter(AllItems(reg.properties), ActionTest(date.value))
  {
    if date.None? then Err(IllegalArgument("PropertySelect: date was null"))
    else
      var d := date.value;
      var due := Sorting.Filter(AllItems(reg.properties), ActionTest(d));
      SortingDueKeepsOrder(AllItems(reg.properties), d);
      var sorted := MI.SortItems(due);
      assert forall m :: m in sorted <==> m in due by {
        forall m ensures m in sorted <==> m in due {
          assert m in sorted <==> multiset(sorted)[m] > 0;
          assert m in due <==> multiset(due)[m] > 0;
        }
      }
      Ok(sorted)
  }

  /**
   * `notifiedItemsFor`: the items whose next notice falls exactly on `date`, sorted by
   * next-action date; items due for action on the same day keep their registry order.
   */
  function NotifiedItemsFor(reg: Registry, date: Option<LocalDate>): (r: Result<seq<MI.MonitoredItem>, Failure>)
    ensures r.Err? <==> date.None?
    ensures r.Err? ==> r.error == IllegalArgument("PropertySelect: date was null")
    ensures r.Ok? ==> Sorting.Sorted(r.value, MI.ItemLeq)
    ensures r.Ok? ==> forall m :: m in r.value <==> m in AllItems(reg.properties) && NoticeOn(m, date.value)
    ensures r.Ok? ==> forall m :: multiset(r.value)[m] ==
                                  if NoticeOn(m, date.value) then multiset(AllItems(reg.properties))[m] else 0
    ensures r.Ok? ==> forall a :: Sorting.Filter(r.value, ActionTest(a))
                                  == Sorting.Filter(Sorting.Filter(AllItems(reg.properties), NoticeTest(date.value)), ActionTest(a))
  {
    if date.None? then Err(IllegalArgument("PropertySelect: date was null"))
    else
      var d := date.value;
      var due := Sorting.Filter(AllItems(reg.properties), NoticeTest(d));
      var sorted := MI.SortItems(due);
      forall a ensures Sorting.Filter(sorted, ActionTest(a)) == Sorting.Filter(due, ActionTest(a)) {
        MI.ItemOrderIsTotalPreorder();
        SameActionDayEqual(a);
        Sorting.SortStable(due, MI.ItemLeq, ActionTest(a));
      }
      assert forall m :: m in sorted <==> m in due by {
        forall m ensures m in sorted <==> m in due {
          assert m in sorted <==> multiset(sorted)[m] > 0;
          assert m in due <==> multiset(due)[m] > 0;
        }
      }
      Ok(sorted)
  }

  /** `monitoredItemsFor`: the registered property's monitored items, sorted by next-action date. */
  function MonitoredItemsFor(reg: Registry, p: Option<Property>): (r: Result<seq<MI.MonitoredItem>, Failure>)
    ensures p.None? ==> r == Err(IllegalArgument("PropertySelect: property was null"))
    ensures p.Some? && !Contains(reg.properties, p.value) ==>
              r == Err(IllegalArgument("PropertySelect: property " + PropertyText(p.value) + " not found"))
    ensures r.Ok? <==> p.Some? && Contains(reg.properties, p.value)
    ensures r.Ok? ==> var found := reg.properties[FindProperty(reg.properties, p.value).value];
                      && Sorting.Sorted(r.value, MI.ItemLeq)
                      && multiset(r.value) == multiset(found.monitoredItems)
  {
    if p.None? then Err(IllegalArgument("PropertySelect: property was null"))
    else match FindProperty(reg.properties, p.value)
      case None => Err(IllegalArgument("PropertySelect: property " + PropertyText(p.value) + " not found"))
      case Some(i) => Ok(MI.SortItems(reg.properties[i].monitoredItems))
  }

  /** `inventoryItemsFor`: the registered property's inventory, sorted by manufacturer, model and serial number. */
  function InventoryItemsFor(reg: Registry, p: Option<Property>): (r: Result<seq<II.InventoryItem>, Failure>)
    ensures p.None? ==> r == Err(IllegalArgument("PropertySelect: property was null"))
    ensures p.Some? && !Contains(reg.properties, p.value) ==>
              r == Err(IllegalArgument("PropertySelect: property " + PropertyText(p.value) + " not found"))
    ensures r.Ok? <==> p.Some? && Contains(reg.properties, p.value)
    ensures r.Ok? ==> var found := reg.properties[FindProperty(reg.properties, p.value).value];
                      && Sorting.Sorted(r.value, II.InventoryLeq)
                      && multiset(r.value) == multiset(found.inventoryItems)
  {
    if p.None? then Err(IllegalArgument("PropertySelect: property was null"))
    else match FindProperty(reg.properties, p.value)
      case None => Err(IllegalArgument("PropertySelect: property " + PropertyText(p.value) + " not found"))
      case Some(i) => Ok(II.SortInventory(reg.properties[i].inventoryItems))
  }

  /**
   * `inventoryFor`: the same list as `InventoryItemsFor`; its failure messages carry the
   * registry's prefix instead of this class's.
   */
  function InventoryFor(reg: Registry, p: Option<Property>): (r: Result<seq<II.InventoryItem>, Failure>)
    ensures p.None? ==> r == Err(IllegalArgument("PropertyMonitor: property was null"))
    ensures p.Some? && !Contains(reg.properties, p.value) ==>
              r == Err(IllegalArgument("PropertyMonitor: property " + PropertyText(p.value) + " not found"))
    ensures r.Ok? <==> InventoryItemsFor(reg, p).Ok?
    ensures r.Ok? ==> r.value == InventoryItemsFor(reg, p).value
  {
    if p.None? then Err(IllegalArgument("PropertyMonitor: property was null"))
    else match FindProperty(reg.properties, p.value)
      case None => Err(IllegalArgument("PropertyMonitor: property " + PropertyText(p.value) + " not found"))
      case Some(i) => Ok(II.SortInventory(reg.properties[i].inventoryItems))
  }

  /** `withOverdueItems`: the registered properties with an item overdue on `today`, sorted by address. */
  function WithOverdueItems(reg: Registry, today: LocalDate): (r: seq<Property>)
    ensures Sorting.Sorted(r, PropertyLeq)
    ensures forall p :: p in r <==> p in reg.properties && AreItemsOverdue(p, today)
    ensures forall p :: multiset(r)[p] == if AreItemsOverdue(p, today) then multiset(reg.properties)[p] else 0
  {
    var all := PropertiesOf(reg);
    var overdue := Sorting.Filter(all, p => AreItemsOverdue(p, today));
    var sorted := SortProperties(overdue);
    MultisetMembership(sorted, overdue);
    MultisetMembership(all, reg.properties);
    sorted
  }

  /** `withOverdueNotices`: the registered properties with a notice due on `today`, sorted by address. */
  function WithOverdueNotices(reg: Registry, today: LocalDate): (r: seq<Property>)
    ensures Sorting.Sorted(r, PropertyLeq)
    ensures forall p :: p in r <==> p in reg.properties && AreNoticesOverdue(p, today)
    ensures forall p :: multiset(r)[p] == if AreNoticesOverdue(p, today) then multiset(reg.properties)[p] else 0
  {
    var all := PropertiesOf(reg);
    var due := Sorting.Filter(all, p => AreNoticesOverdue(p, today));
    var sorted := SortProperties(due);
    MultisetMembership(sorted, due);
    MultisetMembership(all, reg.properties);
    sorted
  }

  /** Lists with the same elements counted alike hold the same elements. */
  lemma MultisetMembership<T>(a: seq<T>, b: seq<T>)
    requires multiset(a) == multiset(b)
    ensures forall x :: x in a <==> x in b
  {
    forall x ensures x in a <==> x in b {
      assert x in a <==> x in multiset(a);
      assert x in b <==> x in multiset(b);
    }
  }

  // ---------------------------------------------------------------------------
  // Properties of the queries
  // ---------------------------------------------------------------------------

  /** A list whose element counts are those of `[x]` or of the empty list has that length. */
  lemma SingletonLength<T>(a: seq<T>, x: T, present: bool)
    requires forall m :: multiset(a)[m] == if present && m == x then 1 else 0
    ensures |a| == if present then 1 else 0
  {
    assert multiset(a) == if present then multiset{x} else multiset{};
    assert |a| == |multiset(a)|;
  }

  /** With a single item registered, the action-date query finds it exactly on its own date. */
  lemma SingleItemOverdue(reg: Registry, item: MI.MonitoredItem, date: LocalDate)
    requires AllItems(reg.properties) == [item]
    ensures |OverdueItemsFor(reg, Some(date)).value| == if item.timeForNextAction == date then 1 else 0
  {
    var a := OverdueItemsFor(reg, Some(date)).value;
    assert forall m :: multiset(AllItems(reg.properties))[m] == if m == item then 1 else 0;
    SingletonLength(a, item, item.timeForNextAction == date);
  }

  /** With a single item registered, the notice-date query finds it exactly on its notice date. */
  lemma SingleItemNotified(reg: Registry, item: MI.MonitoredItem, date: LocalDate)
    requires AllItems(reg.properties) == [item]
    ensures |NotifiedItemsFor(reg, Some(date)).value| == if item.timeForNextNotice == date then 1 else 0
  {
    var n := NotifiedItemsFor(reg, Some(date)).value;
    assert forall m :: multiset(AllItems(reg.properties))[m] == if m == item then 1 else 0;
    SingletonLength(n, item, item.timeForNextNotice == date);
  }

  /** Registering an item with a registry that holds only its owner, still empty. */
  lemma AddToSoleProperty(address: Address, item: MI.MonitoredItem)
    requires item.owner == Some(address)
    ensures var o := PropertyMonitors.AddMonitoredItem(Registry([NewProperty(address)]), Some(item));
            o.result.Ok? && o.after.properties == [Property(address, [item], [])]
  {
    var ps := [NewProperty(address)];
    assert FindAddress(ps, address) == Some(0);
    assert !HasMonitoredItem(ps[0], item);
    assert ps[0].(monitoredItems := ps[0].monitoredItems + [item]) == Property(address, [item], []);
    assert UpdateAt(ps, 0, Property(address, [item], [])) == [Property(address, [item], [])];
  }

  /** The monitored item of the query tests: yearly, last actioned on `start`, a week's notice. */
  function TestItem(start: LocalDate, address: Address): (m: MI.MonitoredItem)
    ensures m.owner == Some(address)
    ensures m.timeForNextAction == PlusYears(start, 1)
    ensures m.timeForNextNotice == MinusWeeks(PlusYears(start, 1), 1)
  {
    MI.YearlyWithWeeklyNotice(start);
    MI.SetOwner(MI.Construct(Some("item1"), Some(MI.Yearly), 1, Some(start), 1, Some(MI.Weekly)).value, address)
  }

  /** Registering an inventory item with a registry that holds only its owner and no inventory yet. */
  lemma AddInventoryToSoleProperty(address: Address, items: seq<MI.MonitoredItem>, item: II.InventoryItem)
    requires item.owner == Some(address)
    ensures var o := PropertyMonitors.AddInventoryItem(Registry([Property(address, items, [])]), Some(item));
            o.result.Ok? && o.after.properties == [Property(address, items, [item])]
  {
    var ps := [Property(address, items, [])];
    assert FindAddress(ps, address) == Some(0);
    assert !HasInventoryItem(ps[0], item);
    assert ps[0].(inventoryItems := ps[0].inventoryItems + [item]) == Property(address, items, [item]);
    assert UpdateAt(ps, 0, Property(address, items, [item])) == [Property(address, items, [item])];
  }

  /** The inventory item of the query tests, bought on `start`. */
  function TestInventory(start: LocalDate, address: Address): (item: II.InventoryItem)
    ensures item.owner == Some(address)
  {
    II.ItemTextOfTestItem(Some(start));
    II.SetOwner(II.Construct(Some("inventory1"), Some("manufacturer1"), Some("model1"),
                             Some("serialnumber1"), Some("supplier1"), Some(start)).value, address)
  }

  /**
   * The registry the query tests build: a new property added, then the test's monitored item
   * and inventory item registered with it.
   */
  function TestRegistry(start: LocalDate, address: Address): (reg: Registry)
    ensures reg.properties == [Property(address, [TestItem(start, address)], [TestInventory(start, address)])]
  {
    var item := TestItem(start, address);
    var inventory := TestInventory(start, address);
    var one := AddProperty(Clear(Registry([])).after, Some(NewProperty(address))).after;
    assert one == Registry([NewProperty(address)]);
    AddToSoleProperty(address, item);
    var two := PropertyMonitors.AddMonitoredItem(one, Some(item)).after;
    AddInventoryToSoleProperty(address, [item], inventory);
    PropertyMonitors.AddInventoryItem(two, Some(inventory)).after
  }

  /**
   * The scenario of the query tests: one yearly item, last actioned on `start`, with a week's
   * notice. The item shows up only on the anniversary and its notice only a week before it,
   * not a day earlier or later.
   */
  lemma TestScenarioCounts(start: LocalDate, address: Address)
    ensures var reg := TestRegistry(start, address);
            var due := PlusYears(start, 1);
            var notice := MinusWeeks(due, 1);
            && |MonitoredItemsFor(reg, Some(NewProperty(address))).value| == 1
            && |InventoryFor(reg, Some(NewProperty(address))).value| == 1
            && |OverdueItemsFor(reg, Some(start)).value| == 0
            && |OverdueItemsFor(reg, Some(due)).value| == 1
            && |OverdueItemsFor(reg, Some(PlusDays(due, -1))).value| == 0
            && |OverdueItemsFor(reg, Some(PlusDays(due, 1))).value| == 0
            && |NotifiedItemsFor(reg, Some(notice)).value| == 1
            && |NotifiedItemsFor(reg, Some(PlusDays(notice, -1))).value| == 0
            && |NotifiedItemsFor(reg, Some(PlusDays(notice, 1))).value| == 0
  {
    TestScenarioLookups(start, address);
    TestScenarioOverdue(start, address);
    TestScenarioNotices(start, address);
  }

  /** The test property holds one monitored item and one inventory item. */
  lemma TestScenarioLookups(start: LocalDate, address: Address)
    ensures var reg := TestRegistry(start, address);
            && |MonitoredItemsFor(reg, Some(NewProperty(address))).value| == 1
            && |InventoryFor(reg, Some(NewProperty(address))).value| == 1
  {
    var reg := TestRegistry(start, address);
    assert FindProperty(reg.properties, NewProperty(address)) == Some(0);
    assert |multiset(MonitoredItemsFor(reg, Some(NewProperty(address))).value)| == 1;
    assert |multiset(InventoryFor(reg, Some(NewProperty(address))).value)| == 1;
  }

  /** The test item is due on its anniversary and on no neighbouring day. */
  lemma TestScenarioOverdue(start: LocalDate, address: Address)
    ensures var reg := TestRegistry(start, address);
            var due := PlusYears(start, 1);
            && |OverdueItemsFor(reg, Some(start)).value| == 0
            && |OverdueItemsFor(reg, Some(due)).value| == 1
            && |OverdueItemsFor(reg, Some(PlusDays(due, -1))).value| == 0
            && |OverdueItemsFor(reg, Some(PlusDays(due, 1))).value| == 0
  {
    var reg := TestRegistry(start, address);
    var due := PlusYears(start, 1);
    var item := TestItem(start, address);
    assert AllItems(reg.properties) == [item];
    AdvanceYearsIsAfter(start, 1);
    CompareAgreesWithEpochDay(due, start);
    SingleItemOverdue(reg, item, start);
    SingleItemOverdue(reg, item, due);
    SingleItemOverdue(reg, item, PlusDays(due, -1));
    SingleItemOverdue(reg, item, PlusDays(due, 1));
  }

  /** The test item's notice is due a week before the anniversary and on no neighbouring day. */
  lemma TestScenarioNotices(start: LocalDate, address: Address)
    ensures var reg := TestRegistry(start, address);
            var notice := MinusWeeks(PlusYears(start, 1), 1);
            && |NotifiedItemsFor(reg, Some(notice)).value| == 1
            && |NotifiedItemsFor(reg, Some(PlusDays(notice, -1))).value| == 0
            && |NotifiedItemsFor(reg, Some(PlusDays(notice, 1))).value| == 0
  {
    var reg := TestRegistry(start, address);
    var notice := MinusWeeks(PlusYears(start, 1), 1);
    var item := TestItem(start, address);
    assert AllItems(reg.properties) == [item];
    SingleItemNotified(reg, item, notice);
    SingleItemNotified(reg, item, PlusDays(notice, -1));
    SingleItemNotified(reg, item, PlusDays(notice, 1));
  }
}
