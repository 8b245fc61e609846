/**
 * The predefined catalog and the sample inventory (src/lib/data.ts).
 */
module Catalog {
  import opened Wrappers
  import opened Types
  import Seqs

  /** A catalog entry: selection value, display label (`label` in the source), optional barcode and threshold. */
  datatype Entry = Entry(value: string, labelText: string, barcode: Option<string>, lowStockThreshold: Option<int>)

  /** The selection value that asks for a free-text name. */
  const OTHER: string := "other"

  /** The label of the `OTHER` entry. */
  const OTHER_LABEL: string := "Other..."

  /** The threshold a form falls back to. */
  const DEFAULT_THRESHOLD: int := 5

  const PREDEFINED_ITEMS: seq<Entry> := [
    Entry("milk", "Milk", Some("101"), Some(2)),
    Entry("eggs", "Eggs", Some("102"), Some(6)),
    Entry("bread", "Bread", Some("103"), Some(1)),
    Entry("butter", "Butter", Some("104"), Some(1)),
    Entry("cheese", "Cheese", Some("105"), None),
    Entry("sugar", "Sugar", Some("201"), None),
    Entry("flour", "Flour", Some("202"), None),
    Entry("coffee", "Coffee", Some("203"), None),
    Entry("tea", "Tea", Some("204"), None),
    Entry("toothpaste", "Toothpaste", Some("301"), Some(1)),
    Entry("soap", "Soap", Some("302"), Some(1)),
    Entry("shampoo", "Shampoo", Some("303"), Some(1)),
    Entry(OTHER, OTHER_LABEL, None, None)
  ]

  /** The first entry whose selection value is `v`. */
  function FindByValue(v: string): Option<Entry> {
    Seqs.Find(PREDEFINED_ITEMS, (e: Entry) => e.value == v)
  }

  /** The first entry whose display label is `l`. */
  function FindByLabel(l: string): Option<Entry> {
    Seqs.Find(PREDEFINED_ITEMS, (e: Entry) => e.labelText == l)
  }

  /** The first entry carrying the barcode `b`; an entry without a barcode never matches. */
  function FindByBarcode(b: string): Option<Entry> {
    Seqs.Find(PREDEFINED_ITEMS, (e: Entry) => e.barcode == Some(b))
  }

  /** The threshold with the default of 5 filled in; as with JavaScript's falsy values, an absent threshold and a zero one both fall back. */
  function ThresholdOrDefault(t: Option<int>): int {
    if t.None? || t.value == 0 then DEFAULT_THRESHOLD else t.value
  }

  lemma ValuesDistinct()
    ensures forall i, j :: 0 <= i < j < |PREDEFINED_ITEMS| ==> PREDEFINED_ITEMS[i].value != PREDEFINED_ITEMS[j].value
  {
  }

  lemma LabelsDistinct()
    ensures forall i, j :: 0 <= i < j < |PREDEFINED_ITEMS| ==> PREDEFINED_ITEMS[i].labelText != PREDEFINED_ITEMS[j].labelText
  {
  }

  lemma BarcodesDistinct()
    ensures forall i, j :: 0 <= i < j < |PREDEFINED_ITEMS| && PREDEFINED_ITEMS[i].barcode.Some? ==>
      PREDEFINED_ITEMS[i].barcode != PREDEFINED_ITEMS[j].barcode
  {
  }

  /** Exactly one entry has the value `OTHER`; it is the last one and has no barcode and no threshold. */
  lemma OtherEntryUnique()
    ensures forall i :: 0 <= i < |PREDEFINED_ITEMS| ==>
      (PREDEFINED_ITEMS[i].value == OTHER <==> i == |PREDEFINED_ITEMS| - 1)
    ensures FindByValue(OTHER) == Some(Entry(OTHER, OTHER_LABEL, None, None))
  {
    ValuesDistinct();
    FindByValueExact(OTHER, Entry(OTHER, OTHER_LABEL, None, None));
  }

  /** Only the `OTHER` entry carries the `OTHER` label, and no entry has an empty value. */
  lemma OtherLabelOnlyOnOther()
    ensures forall e :: e in PREDEFINED_ITEMS ==> (e.value == OTHER <==> e.labelText == OTHER_LABEL)
    ensures forall e :: e in PREDEFINED_ITEMS ==> e.value != ""
  {
  }

  /** Every threshold the catalog defines is at least 1. */
  lemma ThresholdsPositive()
    ensures forall e :: e in PREDEFINED_ITEMS && e.lowStockThreshold.Some? ==> e.lowStockThreshold.value >= 1
  {
  }

  /** For catalog entries the fallback to 5 fires only when the threshold is absent. */
  lemma ThresholdFallbackOnlyWhenAbsent(e: Entry)
    requires e in PREDEFINED_ITEMS
    ensures ThresholdOrDefault(e.lowStockThreshold) == e.lowStockThreshold.GetOr(DEFAULT_THRESHOLD)
  {
    ThresholdsPositive();
  }

  /** Looking an entry up by value finds exactly the entry with that value. */
  lemma FindByValueExact(v: string, e: Entry)
    ensures FindByValue(v) == Some(e) <==> e in PREDEFINED_ITEMS && e.value == v
  {
    ValuesDistinct();
    var r := FindByValue(v);
    if e in PREDEFINED_ITEMS && e.value == v {
      var i :| 0 <= i < |PREDEFINED_ITEMS| && PREDEFINED_ITEMS[i] == e;
      var j :| 0 <= j < |PREDEFINED_ITEMS| && PREDEFINED_ITEMS[j] == r.value;
      assert i == j;
    }
  }

  /** Looking an entry up by label finds exactly the entry with that label. */
  lemma FindByLabelExact(l: string, e: Entry)
    ensures FindByLabel(l) == Some(e) <==> e in PREDEFINED_ITEMS && e.labelText == l
  {
    LabelsDistinct();
    var r := FindByLabel(l);
    if e in PREDEFINED_ITEMS && e.labelText == l {
      var i :| 0 <= i < |PREDEFINED_ITEMS| && PREDEFINED_ITEMS[i] == e;
      var j :| 0 <= j < |PREDEFINED_ITEMS| && PREDEFINED_ITEMS[j] == r.value;
      assert i == j;
    }
  }

  /** Looking an entry up by barcode finds exactly the one entry carrying that barcode. */
  lemma FindByBarcodeExact(b: string, e: Entry)
    ensures FindByBarcode(b) == Some(e) <==> e in PREDEFINED_ITEMS && e.barcode == Some(b)
  {
    BarcodesDistinct();
    var r := FindByBarcode(b);
    if e in PREDEFINED_ITEMS && e.barcode == Some(b) {
      var i :| 0 <= i < |PREDEFINED_ITEMS| && PREDEFINED_ITEMS[i] == e;
      var j :| 0 <= j < |PREDEFINED_ITEMS| && PREDEFINED_ITEMS[j] == r.value;
      assert i == j;
    }
  }

  /** The sample inventory relative to the clock reading `now`. */
  function DefaultInventory(now: int): seq<InventoryItem> {
    [
      InventoryItem("1", Record("Milk", None, 1, Some(At(now + 2 * DAY_MS)), 2, true, Some(Weekly), Some("101"))),
      InventoryItem("2", Record("Eggs", None, 12, Some(At(now + 14 * DAY_MS)), 6, false, None, Some("102"))),
      InventoryItem("3", Record("Bread", None, 1, Some(At(now - DAY_MS)), 1, true, Some(Weekly), Some("103")))
    ]
  }

  /** The sample items carry distinct ids. */
  lemma DefaultInventoryIdsDistinct(now: int)
    ensures forall i, j :: 0 <= i < j < |DefaultInventory(now)| ==> DefaultInventory(now)[i].id != DefaultInventory(now)[j].id
  {
  }
}
