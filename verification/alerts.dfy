/**
 * The dashboard alerts (src/components/homestock-layout.tsx): the low-stock
 * and expiring-soon lists derived from the published inventory, and the
 * alert count shown on the dashboard tab.
 */
module Alerts {
  import opened Types
  import Seqs

  /** The expiring-soon window: expiry strictly before now plus this many days. */
  const EXPIRING_SOON_DAYS: int := 7

  /** Stock is low when the quantity is at most the item's threshold; the dashboard list and the table badge share this predicate. */
  predicate IsLowStock(item: InventoryItem) {
    item.data.quantity <= item.data.lowStockThreshold
  }

  /** The item has an expiry date and it is before the instant `t`. */
  predicate ExpiresBefore(item: InventoryItem, t: int) {
    item.data.expiryDate.Some? && IsBefore(item.data.expiryDate.value, t)
  }

  predicate IsExpiringSoon(item: InventoryItem, now: int) {
    ExpiresBefore(item, now + EXPIRING_SOON_DAYS * DAY_MS)
  }

  /** `IsExpiringSoon` at the clock reading `now`, as a filter predicate. */
  function ExpiringSoonAt(now: int): InventoryItem -> bool {
    (x: InventoryItem) => IsExpiringSoon(x, now)
  }

  datatype AlertLists = AlertLists(lowStock: seq<InventoryItem>, expiringSoon: seq<InventoryItem>)

  /** The memoised derivation: empty lists until the inventory has loaded, then two order-preserving filters. */
  function DeriveAlerts(loaded: bool, inventory: seq<InventoryItem>, now: int): (r: AlertLists)
    ensures !loaded ==> r.lowStock == [] && r.expiringSoon == []
    ensures loaded ==> forall x :: x in r.lowStock <==> x in inventory && x.data.quantity <= x.data.lowStockThreshold
    ensures loaded ==> forall x :: x in r.expiringSoon <==>
      && x in inventory && x.data.expiryDate.Some? && x.data.expiryDate.value.At?
      && x.data.expiryDate.value.ms < now + 7 * DAY_MS
    ensures loaded ==> forall x :: multiset(r.lowStock)[x] == if IsLowStock(x) then multiset(inventory)[x] else 0
    ensures loaded ==> forall x :: multiset(r.expiringSoon)[x] == if IsExpiringSoon(x, now) then multiset(inventory)[x] else 0
    ensures Seqs.IsSubsequence(r.lowStock, inventory) && Seqs.IsSubsequence(r.expiringSoon, inventory)
  {
    if !loaded then AlertLists([], [])
    else AlertLists(Seqs.Filter(inventory, IsLowStock), Seqs.Filter(inventory, ExpiringSoonAt(now)))
  }

  /** The number on the dashboard tab. */
  function TotalAlerts(a: AlertLists): nat {
    |a.lowStock| + |a.expiringSoon|
  }

  /** How many alerts one item raises: one per list it is in. */
  function AlertWeight(item: InventoryItem, now: int): nat {
    (if IsLowStock(item) then 1 else 0) + (if IsExpiringSoon(item, now) then 1 else 0)
  }

  function WeightSum(inventory: seq<InventoryItem>, now: int): nat {
    if |inventory| == 0 then 0 else AlertWeight(inventory[0], now) + WeightSum(inventory[1..], now)
  }

  /** The alert count adds each item once per list it is in, so an item both low and expiring counts twice. */
  lemma {:induction false} TotalAlertsIsWeightSum(inventory: seq<InventoryItem>, now: int)
    ensures TotalAlerts(DeriveAlerts(true, inventory, now)) == WeightSum(inventory, now)
  {
    if |inventory| > 0 {
      TotalAlertsIsWeightSum(inventory[1..], now);
    }
  }
}
