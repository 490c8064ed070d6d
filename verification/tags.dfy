/**
 * The field tags of the persisted item records. The tag constants live in classes that
 * are not part of this model; only their distinctness matters here, so the strings
 * below stand in for them.
 */
module Tags {
  const DESCRIPTION: string := "description"

  // MonitoredItem
  const PERIOD_FOR_NEXT_ACTION: string := "periodForNextAction"
  const NOTICE_EVERY: string := "noticeEvery"
  const LAST_ACTIONED: string := "lastActioned"
  const ADVANCE_NOTICE: string := "advanceNotice"
  const PERIOD_FOR_NEXT_NOTICE: string := "periodForNextNotice"
  const EMAIL_SENT_ON: string := "emailSentOn"

  // InventoryItem
  const MANUFACTURER: string := "manufacturer"
  const MODEL: string := "model"
  const SERIAL_NUMBER: string := "serialNumber"
  const SUPPLIER: string := "supplier"
  const PURCHASE_DATE: string := "purchaseDate"
}
