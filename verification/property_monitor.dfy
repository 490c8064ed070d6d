/**
 * The registry of properties. Each operation takes the registry as a value and returns
 * an `Outcome`: its result, the registry afterwards, and the log of what it announced.
 * Every operation checks all of its error conditions before it changes anything; a
 * success logs an entity notification, an audit record and a storage request, in that order.
 */
module PropertyMonitors {
  import opened Wrappers
  import opened Failures
  import opened Events
  import opened Addresses
  import opened Properties
  import MI = MonitoredItems
  import II = InventoryItems
  import Sorting

  datatype Registry = Registry(properties: seq<Property>)

  /** What a notification carries. */
  datatype Subject =
    | PropertySubject(property: Property)
    | Replacement(oldProperty: Property, newProperty: Property)
    | MonitoredItemSubject(monitoredItem: MI.MonitoredItem)
    | InventoryItemSubject(inventoryItem: II.InventoryItem)

  /**
   * A log entry: a broadcast notification, an audit record with its text, or a request to
   * store the registry. Broadcasting, auditing and storing themselves are outside the model.
   */
  datatype Event =
    | Notify(category: Category, kind: NotificationType, subject: Subject)
    | Audit(auditType: AuditType, auditObject: AuditObject, text: string)
    | StoreRequest

  datatype Outcome = Outcome(result: Result<(), Failure>, after: Registry, log: seq<Event>)

  // ---------------------------------------------------------------------------
  // Registry invariants and lookups
  // ---------------------------------------------------------------------------

  /** The registry never holds two equal properties. */
  predicate Unique(ps: seq<Property>) {
    forall i, j :: 0 <= i < j < |ps| ==> !SameProperty(ps[i], ps[j])
  }

  /** `List.contains`: some registered property equals `p`. */
  predicate Contains(ps: seq<Property>, p: Property) {
    exists i :: 0 <= i < |ps| && SameProperty(ps[i], p)
  }

  /** `findProperty`: the index of the first registered property equal to `p`. */
  function FindProperty(ps: seq<Property>, p: Property): (r: Option<nat>)
    ensures r.None? <==> !Contains(ps, p)
    ensures r.Some? ==> r.value < |ps| && SameProperty(ps[r.value], p)
    ensures r.Some? ==> forall j :: 0 <= j < r.value ==> !SameProperty(ps[j], p)
  {
    if |ps| == 0 then None
    else if SameProperty(ps[0], p) then Some(0)
    else
      var r := FindProperty(ps[1..], p);
      assert Contains(ps, p) ==> Contains(ps[1..], p) by {
        if Contains(ps, p) {
          var i :| 0 <= i < |ps| && SameProperty(ps[i], p);
          assert ps[1..][i - 1] == ps[i];
        }
      }
      if r.None? then None else Some(r.value + 1)
  }

  /** The property registered under an address, as `findProperty` finds it for an item's owner. */
  function FindAddress(ps: seq<Property>, address: Address): (r: Option<nat>)
    ensures r == FindProperty(ps, NewProperty(address))
  {
    FindProperty(ps, NewProperty(address))
  }

  /** In a registry without duplicates, the property `findProperty` returns is the only equal one. */
  lemma FindPropertyUnique(ps: seq<Property>, p: Property, j: nat)
    requires Unique(ps) && j < |ps| && SameProperty(ps[j], p)
    ensures FindProperty(ps, p) == Some(j)
  {
  }

  /** `List.remove(Object)`: drop the element at index `i`. */
  function RemoveAt(ps: seq<Property>, i: nat): (r: seq<Property>)
    requires i < |ps|
    ensures |r| == |ps| - 1
    ensures multiset(r) + multiset{ps[i]} == multiset(ps)
    ensures forall j :: 0 <= j < i ==> r[j] == ps[j]
    ensures forall j :: i <= j < |r| ==> r[j] == ps[j + 1]
  {
    assert ps == ps[..i] + [ps[i]] + ps[i + 1..];
    ps[..i] + ps[i + 1..]
  }

  /** `after` keeps every property of `before` that differs from `p`, and holds nothing new. */
  predicate RemovesOnly(before: seq<Property>, after: seq<Property>, p: Property) {
    && (forall q :: q in before && !SameProperty(q, p) ==> q in after)
    && (forall q :: q in after ==> q in before)
  }

  /** What removing the first property equal to `p` keeps and drops. */
  lemma RemoveAtFacts(ps: seq<Property>, i: nat, p: Property)
    requires i < |ps| && FindProperty(ps, p) == Some(i)
    ensures var r := RemoveAt(ps, i);
            && RemovesOnly(ps, r, p)
            && (Unique(ps) ==> Unique(r) && !Contains(r, p))
  {
    var r := RemoveAt(ps, i);
    forall q | q in ps && !SameProperty(q, p) ensures q in r {
      var k :| 0 <= k < |ps| && ps[k] == q;
      if k < i { assert r[k] == q; } else { assert r[k - 1] == q; }
    }
    forall q | q in r ensures q in ps {
      var k :| 0 <= k < |r| && r[k] == q;
      if k < i { assert ps[k] == q; } else { assert ps[k + 1] == q; }
    }
    if Unique(ps) {
      forall a, b | 0 <= a < b < |r| ensures !SameProperty(r[a], r[b]) {
        var a' := if a < i then a else a + 1;
        var b' := if b < i then b else b + 1;
        assert r[a] == ps[a'] && r[b] == ps[b'];
      }
      forall k | 0 <= k < |r| ensures !SameProperty(r[k], p) {
        var k' := if k < i then k else k + 1;
        assert r[k] == ps[k'];
      }
    }
  }

  /** The notification kind and audit kind of one success agree, and so do category and object. */
  predicate Matching(notification: Event, audit: Event)
    requires notification.Notify? && audit.Audit?
  {
    && (notification.kind == Add <==> audit.auditType == Added)
    && (notification.kind == Changed <==> audit.auditType == Modified)
    && (notification.kind == Removed <==> audit.auditType == Deleted)
    && notification.kind != Failed
    && (notification.category == PropertyCategory <==> audit.auditObject == PropertyObject)
    && (notification.category == MonitoredItemCategory <==> audit.auditObject == MonitoredItemObject)
    && (notification.category == InventoryItemCategory <==> audit.auditObject == InventoryItemObject)
  }

  /** A mutation's log: nothing, or a notification, the matching audit record and one storage request. */
  predicate MutationLog(log: seq<Event>) {
    log == [] || (|log| == 3 && log[0].Notify? && log[1].Audit? && log[2] == StoreRequest && Matching(log[0], log[1]))
  }

  /** A refused operation: the given failure, the registry untouched, nothing logged. */
  predicate Refused(o: Outcome, reg: Registry, message: string) {
    o == Outcome(Err(IllegalArgument(message)), reg, [])
  }

  /** The three entries every success logs. */
  function SuccessLog(category: Category, kind: NotificationType, subject: Subject,
                      auditType: AuditType, auditObject: AuditObject, text: string): seq<Event> {
    [Notify(category, kind, subject), Audit(auditType, auditObject, text), StoreRequest]
  }

  // ---------------------------------------------------------------------------
  // Operations
  // ---------------------------------------------------------------------------

  /** `clear`: empty the registry and request storage, without a notification or audit record. */
  function Clear(reg: Registry): (o: Outcome)
    ensures o.result.Ok? && o.after.properties == [] && o.log == [StoreRequest]
    ensures Unique(o.after.properties)
  {
    Outcome(Ok(()), Registry([]), [StoreRequest])
  }

  /** `addProperty`: refuse `null` and a property that is already registered, otherwise append it. */
  function AddProperty(reg: Registry, p: Option<Property>): (o: Outcome)
    ensures p.None? ==> Refused(o, reg, "PropertyMonitor: property was null")
    ensures p.Some? && Contains(reg.properties, p.value) ==>
              Refused(o, reg, "PropertyMonitor: property " + PropertyText(p.value) + " already exists")
    ensures o.result.Ok? <==> p.Some? && !Contains(reg.properties, p.value)
    ensures o.result.Ok? ==>
              && o.after.properties == reg.properties + [p.value]
              && o.log == SuccessLog(PropertyCategory, Add, PropertySubject(p.value), Added, PropertyObject, PropertyText(p.value))
    ensures MutationLog(o.log)
    ensures Unique(reg.properties) ==> Unique(o.after.properties)
  {
    if p.None? then Outcome(Err(IllegalArgument("PropertyMonitor: property was null")), reg, [])
    else if Contains(reg.properties, p.value) then
      Outcome(Err(IllegalArgument("PropertyMonitor: property " + PropertyText(p.value) + " already exists")), reg, [])
    else
      Outcome(Ok(()), Registry(reg.properties + [p.value]),
              SuccessLog(PropertyCategory, Add, PropertySubject(p.value), Added, PropertyObject, PropertyText(p.value)))
  }

  /**
   * `replaceProperty`: refuse `null` arguments, an unknown old property and a new property
   * that is already registered; otherwise remove the old one and append the new one.
   */
  function ReplaceProperty(reg: Registry, oldProperty: Option<Property>, newProperty: Option<Property>): (o: Outcome)
    ensures oldProperty.None? || newProperty.None? ==> Refused(o, reg, "PropertyMonitor: property was null")
    ensures oldProperty.Some? && newProperty.Some? && !Contains(reg.properties, oldProperty.value) ==>
              Refused(o, reg, "PropertyMonitor: property " + PropertyText(oldProperty.value) + " was not known")
    ensures oldProperty.Some? && newProperty.Some? && Contains(reg.properties, oldProperty.value)
            && Contains(reg.properties, newProperty.value) ==>
              Refused(o, reg, "PropertyMonitor: property " + PropertyText(newProperty.value) + " already exists")
    ensures o.result.Ok? <==> oldProperty.Some? && newProperty.Some? && Contains(reg.properties, oldProperty.value)
                              && !Contains(reg.properties, newProperty.value)
    ensures o.result.Ok? ==>
              && |o.after.properties| == |reg.properties|
              && o.after.properties[|o.after.properties| - 1] == newProperty.value
              && RemovesOnly(reg.properties, o.after.properties[..|o.after.properties| - 1], oldProperty.value)
              && o.log == SuccessLog(PropertyCategory, Changed, Replacement(oldProperty.value, newProperty.value),
                                     Modified, PropertyObject, PropertyText(newProperty.value))
    ensures o.result.Ok? ==> o.after.properties == RemoveAt(reg.properties, FindProperty(reg.properties, oldProperty.value).value)
                                                   + [newProperty.value]
    ensures o.result.Ok? && Unique(reg.properties) ==> !Contains(o.after.properties, oldProperty.value)
    ensures MutationLog(o.log)
    ensures Unique(reg.properties) ==> Unique(o.after.properties)
  {
    if oldProperty.None? || newProperty.None? then
      Outcome(Err(IllegalArgument("PropertyMonitor: property was null")), reg, [])
    else if !Contains(reg.properties, oldProperty.value) then
      Outcome(Err(IllegalArgument("PropertyMonitor: property " + PropertyText(oldProperty.value) + " was not known")), reg, [])
    else if Contains(reg.properties, newProperty.value) then
      Outcome(Err(IllegalArgument("PropertyMonitor: property " + PropertyText(newProperty.value) + " already exists")), reg, [])
    else
      ReplaceKnown(reg, FindProperty(reg.properties, oldProperty.value).value, oldProperty.value, newProperty.value)
  }

  /** The successful path of `replaceProperty`: the old property at index `i` makes way for `newP`. */
  function ReplaceKnown(reg: Registry, i: nat, oldP: Property, newP: Property): (o: Outcome)
    requires i < |reg.properties| && FindProperty(reg.properties, oldP) == Some(i) && !Contains(reg.properties, newP)
    ensures o.result.Ok?
    ensures o.after.properties == RemoveAt(reg.properties, i) + [newP]
    ensures Replaced(reg.properties, o.after.properties, oldP, newP)
    ensures o.log == SuccessLog(PropertyCategory, Changed, Replacement(oldP, newP), Modified, PropertyObject, PropertyText(newP))
    ensures MutationLog(o.log)
  {
    var after := RemoveAt(reg.properties, i) + [newP];
    ReplaceAtFacts(reg.properties, i, oldP, newP, after);
    ReplacementLog(oldP, newP);
    Outcome(Ok(()), Registry(after), SuccessLog(PropertyCategory, Changed, Replacement(oldP, newP), Modified, PropertyObject, PropertyText(newP)))
  }

  /** The log of a replacement pairs a `Changed` notification with a `Modified` audit record. */
  lemma ReplacementLog(oldP: Property, newP: Property)
    ensures MutationLog(SuccessLog(PropertyCategory, Changed, Replacement(oldP, newP), Modified, PropertyObject, PropertyText(newP)))
  {
  }

  /**
   * `after` is `before` with `oldP` replaced: as long and not empty, `newP` last, every other property kept
   * and nothing else added, and no duplicate created.
   */
  predicate Replaced(before: seq<Property>, after: seq<Property>, oldP: Property, newP: Property) {
    && |after| == |before| && 0 < |after|
    && after[|after| - 1] == newP
    && RemovesOnly(before, after[..|after| - 1], oldP)
    && (Unique(before) ==> Unique(after) && !Contains(after, oldP))
  }

  /** What removing the first property equal to `oldP` and appending `newP` keeps and drops. */
  lemma ReplaceAtFacts(ps: seq<Property>, i: nat, oldP: Property, newP: Property, after: seq<Property>)
    requires i < |ps| && FindProperty(ps, oldP) == Some(i) && !Contains(ps, newP)
    requires after == RemoveAt(ps, i) + [newP]
    ensures Replaced(ps, after, oldP, newP)
  {
    RemoveAtFacts(ps, i, oldP);
    var rest := RemoveAt(ps, i);
    assert after[|ps| - 1] == newP;
    assert after[..|ps| - 1] == rest;
    if Unique(ps) {
      forall a, b | 0 <= a < b < |after| ensures !SameProperty(after[a], after[b]) {
        if b == |rest| {
          assert after[a] in ps;
        } else {
          assert after[a] == rest[a] && after[b] == rest[b];
        }
      }
      assert !SameProperty(newP, oldP) by {
        assert SameProperty(ps[i], oldP);
      }
      forall k | 0 <= k < |after| ensures !SameProperty(after[k], oldP) {
        if k < |rest| { assert after[k] == rest[k]; }
      }
    }
  }

  /** `removeProperty`: refuse `null` and an unknown property, otherwise remove the first equal one. */
  function RemoveProperty(reg: Registry, oldProperty: Option<Property>): (o: Outcome)
    ensures oldProperty.None? ==> Refused(o, reg, "PropertyMonitor: property was null")
    ensures oldProperty.Some? && !Contains(reg.properties, oldProperty.value) ==>
              Refused(o, reg, "PropertyMonitor: property " + PropertyText(oldProperty.value) + " was not known")
    ensures o.result.Ok? <==> oldProperty.Some? && Contains(reg.properties, oldProperty.value)
    ensures o.result.Ok? ==>
              && |o.after.properties| == |reg.properties| - 1
              && RemovesOnly(reg.properties, o.after.properties, oldProperty.value)
              && o.log == SuccessLog(PropertyCategory, Removed, PropertySubject(oldProperty.value),
                                     Deleted, PropertyObject, PropertyText(oldProperty.value))
    ensures o.result.Ok? ==> o.after.properties == RemoveAt(reg.properties, FindProperty(reg.properties, oldProperty.value).value)
    ensures o.result.Ok? && Unique(reg.properties) ==> !Contains(o.after.properties, oldProperty.value)
    ensures MutationLog(o.log)
    ensures Unique(reg.properties) ==> Unique(o.after.properties)
  {
    if oldProperty.None? then Outcome(Err(IllegalArgument("PropertyMonitor: property was null")), reg, [])
    else if !Contains(reg.properties, oldProperty.value) then
      Outcome(Err(IllegalArgument("PropertyMonitor: property " + PropertyText(oldProperty.value) + " was not known")), reg, [])
    else
      var ps := reg.properties;
      var i := FindProperty(ps, oldProperty.value).value;
      RemoveAtFacts(ps, i, oldProperty.value);
      RemovalLog(oldProperty.value);
      Outcome(Ok(()), Registry(RemoveAt(ps, i)),
              SuccessLog(PropertyCategory, Removed, PropertySubject(oldProperty.value),
                         Deleted, PropertyObject, PropertyText(oldProperty.value)))
  }

  /** The log of a removal pairs a `Removed` notification with a `Deleted` audit record. */
  lemma RemovalLog(p: Property)
    ensures MutationLog(SuccessLog(PropertyCategory, Removed, PropertySubject(p), Deleted, PropertyObject, PropertyText(p)))
  {
  }

  /** `properties()`: the registered properties sorted by address; the registry is not changed. */
  function PropertiesOf(reg: Registry): (r: seq<Property>)
    ensures multiset(r) == multiset(reg.properties)
    ensures Sorting.Sorted(r, PropertyLeq)
  {
    SortProperties(reg.properties)
  }

  /** Replace the property at index `i`, leaving every other entry as it was. */
  function UpdateAt(ps: seq<Property>, i: nat, p: Property): (r: seq<Property>)
    requires i < |ps|
    ensures |r| == |ps| && r[i] == p
    ensures forall j :: 0 <= j < |ps| && j != i ==> r[j] == ps[j]
  {
    ps[i := p]
  }

  /** Replacing an entry by one with the same address keeps the registry free of duplicates. */
  lemma UpdateSameAddressUnique(ps: seq<Property>, i: nat, p: Property)
    requires i < |ps| && SameProperty(ps[i], p)
    ensures Unique(ps) ==> Unique(UpdateAt(ps, i, p))
  {
  }

  /**
   * `addItem(MonitoredItem)`: refuse `null`, an item without an owner and an owner that is not
   * registered; otherwise add the item to the owner's registered property, which refuses an
   * item equal to one it already holds.
   */
  function AddMonitoredItem(reg: Registry, item: Option<MI.MonitoredItem>): (o: Outcome)
    ensures item.None? ==> Refused(o, reg, "PropertyMonitor: monitoredItem was null")
    ensures item.Some? && item.value.owner.None? ==> Refused(o, reg, "PropertyMonitor: property was null")
    ensures item.Some? && item.value.owner.Some? && FindAddress(reg.properties, item.value.owner.value).None? ==>
              Refused(o, reg, "PropertyMonitor: property " + item.value.owner.value.text + " was not known")
    ensures o.result.Err? ==> o.after == reg && o.log == []
    ensures o.result.Ok? ==>
              && item.Some? && item.value.owner.Some?
              && var i := FindAddress(reg.properties, item.value.owner.value);
              && i.Some?
              && !HasMonitoredItem(reg.properties[i.value], item.value)
              && o.after.properties == UpdateAt(reg.properties, i.value, reg.properties[i.value].(monitoredItems := reg.properties[i.value].monitoredItems + [item.value]))
              && o.log == SuccessLog(MonitoredItemCategory, Add, MonitoredItemSubject(item.value),
                                     Added, MonitoredItemObject, MI.ItemText(item.value))
    ensures item.Some? && item.value.owner.Some? && FindAddress(reg.properties, item.value.owner.value).Some? ==>
              (o.result.Ok? <==> !HasMonitoredItem(reg.properties[FindAddress(reg.properties, item.value.owner.value).value], item.value))
    ensures item.Some? && item.value.owner.Some? && FindAddress(reg.properties, item.value.owner.value).Some?
            && HasMonitoredItem(reg.properties[FindAddress(reg.properties, item.value.owner.value).value], item.value) ==>
              o.result == Err(IllegalArgument("Property: item " + MI.ItemText(item.value) + " already exists"))
    ensures MutationLog(o.log)
    ensures Unique(reg.properties) ==> Unique(o.after.properties)
  {
    if item.None? then Outcome(Err(IllegalArgument("PropertyMonitor: monitoredItem was null")), reg, [])
    else if item.value.owner.None? then Outcome(Err(IllegalArgument("PropertyMonitor: property was null")), reg, [])
    else
      var owner := item.value.owner.value;
      match FindAddress(reg.properties, owner)
      case None => Outcome(Err(IllegalArgument("PropertyMonitor: property " + owner.text + " was not known")), reg, [])
      case Some(i) =>
        match Properties.AddMonitoredItem(reg.properties[i], item.value)
        case Err(e) => Outcome(Err(e), reg, [])
        case Ok(updated) =>
          UpdateSameAddressUnique(reg.properties, i, updated);
          Outcome(Ok(()), Registry(UpdateAt(reg.properties, i, updated)),
                  SuccessLog(MonitoredItemCategory, Add, MonitoredItemSubject(item.value),
                             Added, MonitoredItemObject, MI.ItemText(item.value)))
  }

  /**
   * `addItem(InventoryItem)`: the same checks and effects as for a monitored item, with the
   * inventory notification and audit object.
   */
  function AddInventoryItem(reg: Registry, item: Option<II.InventoryItem>): (o: Outcome)
    ensures item.None? ==> Refused(o, reg, "PropertyMonitor: inventoryItem was null")
    ensures item.Some? && item.value.owner.None? ==> Refused(o, reg, "PropertyMonitor: property was null")
    ensures item.Some? && item.value.owner.Some? && FindAddress(reg.properties, item.value.owner.value).None? ==>
              Refused(o, reg, "PropertyMonitor: property " + item.value.owner.value.text + " was not known")
    ensures o.result.Err? ==> o.after == reg && o.log == []
    ensures o.result.Ok? ==>
              && item.Some? && item.value.owner.Some?
              && var i := FindAddress(reg.properties, item.value.owner.value);
              && i.Some?
              && !HasInventoryItem(reg.properties[i.value], item.value)
              && o.after.properties == UpdateAt(reg.properties, i.value, reg.properties[i.value].(inventoryItems := reg.properties[i.value].inventoryItems + [item.value]))
              && o.log == SuccessLog(InventoryItemCategory, Add, InventoryItemSubject(item.value),
                                     Added, InventoryItemObject, II.ItemText(item.value))
    ensures item.Some? && item.value.owner.Some? && FindAddress(reg.properties, item.value.owner.value).Some? ==>
              (o.result.Ok? <==> !HasInventoryItem(reg.properties[FindAddress(reg.properties, item.value.owner.value).value], item.value))
    ensures item.Some? && item.value.owner.Some? && FindAddress(reg.properties, item.value.owner.value).Some?
            && HasInventoryItem(reg.properties[FindAddress(reg.properties, item.value.owner.value).value], item.value) ==>
              o.result == Err(IllegalArgument("Property: item " + II.ItemText(item.value) + " already exists"))
    ensures MutationLog(o.log)
    ensures Unique(reg.properties) ==> Unique(o.after.properties)
  {
    if item.None? then Outcome(Err(IllegalArgument("PropertyMonitor: inventoryItem was null")), reg, [])
    else if item.value.owner.None? then Outcome(Err(IllegalArgument("PropertyMonitor: property was null")), reg, [])
    else
      var owner := item.value.owner.value;
      match FindAddress(reg.properties, owner)
      case None => Outcome(Err(IllegalArgument("PropertyMonitor: property " + owner.text + " was not known")), reg, [])
      case Some(i) =>
        match Properties.AddInventoryItem(reg.properties[i], item.value)
        case Err(e) => Outcome(Err(e), reg, [])
        case Ok(updated) =>
          UpdateSameAddressUnique(reg.properties, i, updated);
          Outcome(Ok(()), Registry(UpdateAt(reg.properties, i, updated)),
                  SuccessLog(InventoryItemCategory, Add, InventoryItemSubject(item.value),
                             Added, InventoryItemObject, II.ItemText(item.value)))
  }

  // ---------------------------------------------------------------------------
  // Properties of the operations
  // ---------------------------------------------------------------------------

  /** A successful item insertion touches only the owner's property, and only its item list. */
  lemma AddItemTouchesOnlyOwner(reg: Registry, item: MI.MonitoredItem, j: nat)
    requires Unique(reg.properties) && j < |reg.properties|
    requires AddMonitoredItem(reg, Some(item)).result.Ok?
    ensures var after := AddMonitoredItem(reg, Some(item)).after.properties;
            && |after| == |reg.properties|
            && (Some(after[j].address) == item.owner ==>
                  after[j] == reg.properties[j].(monitoredItems := reg.properties[j].monitoredItems + [item]))
            && (Some(after[j].address) != item.owner ==> after[j] == reg.properties[j])
  {
    var i := FindAddress(reg.properties, item.owner.value).value;
    if reg.properties[j].address == item.owner.value {
      FindPropertyUnique(reg.properties, NewProperty(item.owner.value), j);
    }
  }

  /** A registered property stays registered when a different one is added. */
  lemma AddPropertyKeepsOthers(reg: Registry, p: Property, q: Property)
    requires Contains(reg.properties, q)
    ensures Contains(AddProperty(reg, Some(p)).after.properties, q)
  {
    var o := AddProperty(reg, Some(p));
    if o.result.Ok? {
      var k :| 0 <= k < |reg.properties| && SameProperty(reg.properties[k], q);
      assert o.after.properties[k] == reg.properties[k];
    }
  }

  /** Adding then removing a new property gives back a registry with the same properties. */
  lemma AddThenRemove(reg: Registry, p: Property)
    requires Unique(reg.properties) && !Contains(reg.properties, p)
    ensures var added := AddProperty(reg, Some(p)).after;
            RemoveProperty(added, Some(p)).after == reg
  {
    var added := AddProperty(reg, Some(p)).after;
    var ps := added.properties;
    FindPropertyUnique(ps, p, |reg.properties|);
    assert ps[..|reg.properties|] == reg.properties;
  }
}
