/**
 * The notification and audit enums that label the registry's log entries.
 * `PropertyNotificationType`, `MonitoredItemNotificationType` and
 * `InventoryItemNotificationType` share their constants and type strings and differ
 * only in their category, so they are one `NotificationType` paired with a `Category`.
 */
module Events {

  datatype NotificationType = Add | Changed | Removed | Failed

  /** The `type()` string of each notification constant. */
  function TypeName(t: NotificationType): string {
    match t
    case Add => "add"
    case Changed => "changed"
    case Removed => "removed"
    case Failed => "failed"
  }

  /** Which of the three notification enums a notification comes from. */
  datatype Category = PropertyCategory | MonitoredItemCategory | InventoryItemCategory

  /** `category()`: the model constants `PROPERTY_CATEGORY`, `MONITORED_ITEM_CATEGORY`, `INVENTORY_ITEM_CATEGORY`. */
  function CategoryName(c: Category): string {
    match c
    case PropertyCategory => "property"
    case MonitoredItemCategory => "monitoreditem"
    case InventoryItemCategory => "inventoryitem"
  }

  /**
   * `PropertyType`: the kind of change an audit record reports. `Modified` is the Java constant
   * `PropertyType.Changed`, renamed so it does not clash with `NotificationType.Changed`.
   */
  datatype AuditType = Added | Modified | Deleted

  function AuditTypeName(t: AuditType): string {
    match t
    case Added => "added"
    case Modified => "changed"
    case Deleted => "deleted"
  }

  /** `PropertyObject`: the kind of entity an audit record is about. */
  datatype AuditObject = PropertyObject | MonitoredItemObject | InventoryItemObject

  function AuditObjectName(o: AuditObject): string {
    match o
    case PropertyObject => "property"
    case MonitoredItemObject => "event"
    case InventoryItemObject => "item"
  }

  /** The strings each enum reports tell its constants apart. */
  lemma NamesDistinguish(t1: NotificationType, t2: NotificationType, c1: Category, c2: Category,
                         a1: AuditType, a2: AuditType, o1: AuditObject, o2: AuditObject)
    ensures TypeName(t1) == TypeName(t2) ==> t1 == t2
    ensures CategoryName(c1) == CategoryName(c2) ==> c1 == c2
    ensures AuditTypeName(a1) == AuditTypeName(a2) ==> a1 == a2
    ensures AuditObjectName(o1) == AuditObjectName(o2) ==> o1 == o2
  {
  }
}
