/**
 * The sample inventory of src/lib/data.ts run through the dashboard and the
 * table: Milk and Bread are low and expiring soon, Eggs is neither.
 */
module SampleInventory {
  import opened Types
  import Catalog
  import Alerts
  import InventoryTable
  import Seqs

  /** Filtering three items of which the first and last qualify. */
  lemma FilterKeepsFirstAndLast(a: InventoryItem, b: InventoryItem, c: InventoryItem, p: InventoryItem -> bool)
    requires p(a) && !p(b) && p(c)
    ensures Seqs.Filter([a, b, c], p) == [a, c]
  {
    var s := [a, b, c];
    assert Seqs.Filter(s[2..], p) == [c] by {
      Seqs.FilterCons(s[2..], p);
      assert s[2..][1..] == [];
    }
    assert Seqs.Filter(s[1..], p) == [c] by {
      Seqs.FilterCons(s[1..], p);
      assert s[1..][1..] == s[2..];
    }
    Seqs.FilterCons(s, p);
  }

  lemma SampleLowStock(now: int)
    ensures var inv := Catalog.DefaultInventory(now);
      Seqs.Filter(inv, Alerts.IsLowStock) == [inv[0], inv[2]]
  {
    var inv := Catalog.DefaultInventory(now);
    FilterKeepsFirstAndLast(inv[0], inv[1], inv[2], Alerts.IsLowStock);
    assert inv == [inv[0], inv[1], inv[2]];
  }

  lemma SampleExpiringSoon(now: int)
    ensures var inv := Catalog.DefaultInventory(now);
      Seqs.Filter(inv, Alerts.ExpiringSoonAt(now)) == [inv[0], inv[2]]
  {
    var inv := Catalog.DefaultInventory(now);
    FilterKeepsFirstAndLast(inv[0], inv[1], inv[2], Alerts.ExpiringSoonAt(now));
    assert inv == [inv[0], inv[1], inv[2]];
  }

  /** Milk (1 <= 2) and Bread (1 <= 1) are low stock and Eggs (12 > 6) is not; Milk (+2 days) and Bread (-1 day) expire within the week and Eggs (+14 days) does not. */
  lemma SampleAlerts(now: int)
    ensures var inv := Catalog.DefaultInventory(now);
      Alerts.DeriveAlerts(true, inv, now) == Alerts.AlertLists([inv[0], inv[2]], [inv[0], inv[2]])
    ensures Alerts.TotalAlerts(Alerts.DeriveAlerts(true, Catalog.DefaultInventory(now), now)) == 4
  {
    SampleLowStock(now);
    SampleExpiringSoon(now);
  }

  lemma SampleRowStyles(now: int)
    ensures var inv := Catalog.DefaultInventory(now);
      && InventoryTable.RowStyleOf(inv[0], now) == InventoryTable.Accent
      && InventoryTable.RowStyleOf(inv[1], now) == InventoryTable.Plain
      && InventoryTable.RowStyleOf(inv[2], now) == InventoryTable.Destructive
  {
  }
}
