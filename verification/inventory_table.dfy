/**
 * The inventory table (src/components/inventory-table.tsx): the row
 * highlight, the low-stock badge and the expiry column.
 */
module InventoryTable {
  import opened Wrappers
  import opened Types
  import Alerts

  /** Rows within this many days of expiry are highlighted. */
  const NEAR_EXPIRY_DAYS: int := 3

  /** The row highlight: destructive for expired, accent for low or near expiry, none otherwise. */
  datatype RowStyle = Destructive | Accent | Plain

  /** The row highlight: expiry in the past wins over everything; then low stock or expiry within three days. */
  function RowStyleOf(item: InventoryItem, now: int): (style: RowStyle)
    ensures style == Destructive <==> item.data.expiryDate.Some? && IsPast(item.data.expiryDate.value, now)
    ensures style == Accent <==>
      && !(item.data.expiryDate.Some? && IsPast(item.data.expiryDate.value, now))
      && (Alerts.IsLowStock(item) || Alerts.ExpiresBefore(item, now + NEAR_EXPIRY_DAYS * DAY_MS))
    ensures item.data.expiryDate.None? && item.data.quantity > item.data.lowStockThreshold ==> style == Plain
  {
    if item.data.expiryDate.Some? && IsPast(item.data.expiryDate.value, now) then Destructive
    else if Alerts.IsLowStock(item) || Alerts.ExpiresBefore(item, now + NEAR_EXPIRY_DAYS * DAY_MS) then Accent
    else Plain
  }

  /** The Low Stock badge is shown for this item. */
  predicate ShowsLowStockBadge(item: InventoryItem) {
    item.data.quantity <= item.data.lowStockThreshold
  }

  /** The expiry column; `InvalidTimeValue` is the RangeError relative formatting raises on an Invalid Date. */
  datatype ExpiryText = NotAvailable | Expired | Relative(distanceMs: int) | InvalidTimeValue

  /** The text of the expiry column at the clock reading `now`. */
  function RenderExpiry(date: Option<Date>, now: int): (t: ExpiryText)
    ensures t == NotAvailable <==> date.None?
    ensures t == Expired <==> date.Some? && IsPast(date.value, now)
    ensures t == InvalidTimeValue <==> date == Some(InvalidDate)
    ensures t.Relative? ==> t.distanceMs >= 0 && date == Some(At(now + t.distanceMs))
  {
    match date
    case None => NotAvailable
    case Some(d) =>
      if IsPast(d, now) then Expired
      else if d.InvalidDate? then InvalidTimeValue
      else Relative(d.ms - now)
  }

  /** The badge shows exactly for the items the dashboard lists as low stock. */
  lemma BadgeMatchesDashboard(inventory: seq<InventoryItem>, now: int, item: InventoryItem)
    requires item in inventory
    ensures ShowsLowStockBadge(item) <==> item in Alerts.DeriveAlerts(true, inventory, now).lowStock
  {
  }

  /** A highlighted row belongs to an item the dashboard also alerts on. */
  lemma HighlightedRowsAreAlerts(inventory: seq<InventoryItem>, now: int, item: InventoryItem)
    requires item in inventory && RowStyleOf(item, now) != Plain
    ensures var a := Alerts.DeriveAlerts(true, inventory, now);
      item in a.lowStock || item in a.expiringSoon
    ensures RowStyleOf(item, now) == Destructive ==> item in Alerts.DeriveAlerts(true, inventory, now).expiringSoon
  {
  }

  /** The destructive highlight and the "Expired" label agree. */
  lemma ExpiredRowShowsExpired(item: InventoryItem, now: int)
    ensures RowStyleOf(item, now) == Destructive <==> RenderExpiry(item.data.expiryDate, now) == Expired
  {
  }
}
