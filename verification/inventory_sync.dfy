/**
 * The inventory hook (src/hooks/use-inventory.ts): turning collection
 * snapshots into the published, name-sorted item list, and shaping the
 * document each add, edit or delete would write. The store calls themselves
 * are not modelled; `Outcome` records which call would be issued and with
 * what payload.
 */
module InventorySync {
  import opened Wrappers
  import opened Types
  import InstantText
  import NameSort
  import Seqs

  /** What the hook sees of its collaborators: whether a store client exists, and the signed-in user's id. */
  datatype Session = Session(hasStore: bool, userId: Option<string>)

  /**
   * The handlers may touch the store: a store client and a non-empty user
   * id are both present. The collection reference exists exactly when this
   * holds, so the add guard (no reference) and the edit and delete
   * guard (no store or no user id) coincide. An empty user id is falsy.
   */
  predicate Ready(s: Session) {
    s.hasStore && s.userId.Some? && s.userId.value != ""
  }

  /** The list before any snapshot has arrived. */
  const INITIAL_INVENTORY: seq<InventoryItem> := []

  /** Reading a stored expiry: absent or empty text gives no date; text no instant was written as reads as the Invalid Date. */
  function ParseExpiry(stored: Option<string>): (d: Option<Date>)
    ensures d.None? <==> stored.None? || stored.value == ""
    ensures forall t :: stored == Some(InstantText.Encode(t)) ==> d == Some(At(t))
  {
    assert forall t :: stored == Some(InstantText.Encode(t)) ==> InstantText.Decode(stored.value) == Some(t) by {
      forall t | stored == Some(InstantText.Encode(t))
        ensures InstantText.Decode(stored.value) == Some(t)
      {
        InstantText.DecodeEncode(t);
      }
    }
    if stored.None? || stored.value == "" then None
    else
      match InstantText.Decode(stored.value)
      case Some(t) => Some(At(t))
      case None => Some(InvalidDate)
  }

  /** A stored document as an item: the document id, the stored fields, and the expiry read back as a date. */
  function ParseDoc(doc: StoredDoc): InventoryItem {
    InventoryItem(doc.id, WithExpiry(doc.data, ParseExpiry(doc.data.expiryDate)))
  }

  function ParseAll(docs: seq<StoredDoc>): (items: seq<InventoryItem>)
    ensures |items| == |docs|
    ensures forall i :: 0 <= i < |docs| ==> items[i] == ParseDoc(docs[i])
  {
    if |docs| == 0 then [] else [ParseDoc(docs[0])] + ParseAll(docs[1..])
  }

  function Ids(items: seq<InventoryItem>): (ids: seq<string>)
    ensures |ids| == |items|
    ensures forall i :: 0 <= i < |items| ==> ids[i] == items[i].id
  {
    if |items| == 0 then [] else [items[0].id] + Ids(items[1..])
  }

  /** The ids of stored documents, in snapshot order. */
  function DocIds(docs: seq<StoredDoc>): seq<string>
  {
    seq(|docs|, i requires 0 <= i < |docs| => docs[i].id)
  }

  lemma IdsAppend(a: seq<InventoryItem>, b: seq<InventoryItem>)
    ensures Ids(a + b) == Ids(a) + Ids(b)
  {
  }

  /** Reordering items reorders their ids the same way. */
  lemma {:induction false} IdsOfPermutation(a: seq<InventoryItem>, b: seq<InventoryItem>)
    requires multiset(a) == multiset(b)
    ensures multiset(Ids(a)) == multiset(Ids(b))
  {
    if |a| == 0 {
      assert |multiset(b)| == 0;
      assert b == [];
    } else {
      var x := a[0];
      assert x in multiset(b);
      var k :| 0 <= k < |b| && b[k] == x;
      var rest := b[..k] + b[k + 1..];
      assert multiset(rest) == multiset(a[1..]) by {
        RemoveAt(b, k);
        assert a == [x] + a[1..];
      }
      IdsOfPermutation(a[1..], rest);
      IdsRemoveAt(b, k);
      IdsAppend([x], a[1..]);
      assert a == [x] + a[1..];
    }
  }

  /** Removing the element at `k` removes one occurrence of it. */
  lemma RemoveAt(s: seq<InventoryItem>, k: int)
    requires 0 <= k < |s|
    ensures multiset(s[..k] + s[k + 1..]) == multiset(s) - multiset{s[k]}
  {
    assert s == s[..k] + [s[k]] + s[k + 1..];
  }

  /** The ids of a list are the id at `k` together with the ids of the list without it. */
  lemma IdsRemoveAt(s: seq<InventoryItem>, k: int)
    requires 0 <= k < |s|
    ensures multiset(Ids(s)) == multiset{s[k].id} + multiset(Ids(s[..k] + s[k + 1..]))
  {
    assert s[..k] + s[k..] == s;
    IdsAppend(s[..k], s[k..]);
    assert Ids(s[k..]) == [s[k].id] + Ids(s[k + 1..]) by {
      assert s[k..][1..] == s[k + 1..];
    }
    IdsAppend(s[..k], s[k + 1..]);
  }

  /**
   * The snapshot effect. With no snapshot data the list is left alone; with a
   * snapshot (even an empty one) the list is replaced by the parsed documents
   * sorted by name, whatever it held before.
   */
  function OnSnapshot(current: seq<InventoryItem>, snapshot: Option<seq<StoredDoc>>): (published: seq<InventoryItem>)
    ensures snapshot.None? ==> published == current
    ensures snapshot.Some? ==> NameSort.SortedByName(published)
    ensures snapshot.Some? ==> multiset(published) == multiset(ParseAll(snapshot.value))
    ensures snapshot.Some? ==> multiset(Ids(published)) == multiset(DocIds(snapshot.value))
  {
    match snapshot
    case None => current
    case Some(docs) =>
      var parsed := ParseAll(docs);
      var sorted := NameSort.SortByName(parsed);
      IdsOfPermutation(sorted, parsed);
      assert Ids(parsed) == DocIds(docs);
      sorted
  }

  /** Before any snapshot the list is empty; the first snapshot fills it with exactly the parsed documents, sorted by name. */
  lemma FirstSnapshotFromInitial(docs: seq<StoredDoc>)
    ensures OnSnapshot(INITIAL_INVENTORY, None) == []
    ensures |OnSnapshot(INITIAL_INVENTORY, Some(docs))| == |docs|
    ensures forall item :: item in OnSnapshot(INITIAL_INVENTORY, Some(docs)) <==> item in ParseAll(docs)
  {
    var published := OnSnapshot(INITIAL_INVENTORY, Some(docs));
    var parsed := ParseAll(docs);
    assert multiset(published) == multiset(parsed);
    assert |published| == |parsed| by {
      assert |multiset(published)| == |multiset(parsed)|;
    }
    forall item
      ensures item in published <==> item in parsed
    {
      assert item in published <==> item in multiset(published);
      assert item in parsed <==> item in multiset(parsed);
    }
  }

  /** Publishing the same snapshot again leaves the list as it was, and the list needs no further sorting. */
  lemma SnapshotIdempotent(current: seq<InventoryItem>, docs: seq<StoredDoc>)
    ensures OnSnapshot(OnSnapshot(current, Some(docs)), Some(docs)) == OnSnapshot(current, Some(docs))
    ensures NameSort.SortByName(OnSnapshot(current, Some(docs))) == OnSnapshot(current, Some(docs))
  {
    NameSort.SortSortedIsIdentity(OnSnapshot(current, Some(docs)));
  }

  /** The payload written to the store: every field but the expiry is carried over and the expiry is written as text; `None` is the RangeError writing an Invalid Date raises. */
  function ToStored(d: ItemData): (r: Option<StoredData>)
    ensures r.None? <==> d.expiryDate == Some(InvalidDate)
    ensures r.Some? ==> WithExpiry(r.value, d.expiryDate) == d
    ensures r.Some? ==> (r.value.expiryDate.None? <==> d.expiryDate.None?)
    ensures r.Some? && d.expiryDate.Some? ==> r.value.expiryDate == Some(InstantText.Encode(d.expiryDate.value.ms))
  {
    match d.expiryDate
    case None => Some(WithExpiry(d, None))
    case Some(At(t)) => Some(WithExpiry(d, Some(InstantText.Encode(t))))
    case Some(InvalidDate) => None
  }

  /** The store call a handler would issue. */
  datatype Write = AddDoc(data: StoredData) | UpdateDoc(id: string, data: StoredData) | DeleteDoc(id: string)

  /** What a handler does: nothing (its guard failed), one store call, or it throws before the call. */
  datatype Outcome = Skipped | Issued(write: Write) | Threw

  /** Adding an item: skipped without a session, otherwise one add of the item's payload. */
  function HandleAdd(s: Session, item: ItemData): (o: Outcome)
    ensures o.Skipped? <==> !Ready(s)
    ensures o.Threw? <==> Ready(s) && item.expiryDate == Some(InvalidDate)
    ensures o.Issued? ==> o.write.AddDoc? && ToStored(item) == Some(o.write.data)
  {
    if !Ready(s) then Skipped
    else
      match ToStored(item)
      case None => Threw
      case Some(data) => Issued(AddDoc(data))
  }

  /** Editing an item: the payload is the item without its `id`; the id only names the document. */
  function HandleEdit(s: Session, item: InventoryItem): (o: Outcome)
    ensures o.Skipped? <==> !Ready(s)
    ensures o.Threw? <==> Ready(s) && item.data.expiryDate == Some(InvalidDate)
    ensures o.Issued? ==> o.write.UpdateDoc? && o.write.id == item.id && WithExpiry(o.write.data, item.data.expiryDate) == item.data
    ensures o.Issued? ==> ToStored(item.data) == Some(o.write.data)
  {
    if !Ready(s) then Skipped
    else
      match ToStored(item.data)
      case None => Threw
      case Some(data) => Issued(UpdateDoc(item.id, data))
  }

  /** Deleting an item: the delete is issued whether or not the id is in the list. */
  function HandleDelete(s: Session, itemId: string): (o: Outcome)
    ensures Ready(s) ==> o == Issued(DeleteDoc(itemId))
    ensures !Ready(s) ==> o.Skipped?
  {
    if !Ready(s) then Skipped else Issued(DeleteDoc(itemId))
  }

  /** The name shown for a deleted item: the name of the first listed item with that id, or "Item" when there is none or its name is empty. */
  function DeleteDisplayName(inventory: seq<InventoryItem>, itemId: string): (name: string)
    ensures (forall i :: 0 <= i < |inventory| ==> inventory[i].id != itemId) ==> name == "Item"
    ensures name == "Item" || exists item :: item in inventory && item.id == itemId && item.data.name == name
  {
    match Seqs.Find(inventory, (i: InventoryItem) => i.id == itemId)
    case Some(found) => if found.data.name == "" then "Item" else found.data.name
    case None => "Item"
  }

  /** With distinct ids, the name shown is the matching item's name, or "Item" if that name is empty. */
  lemma DeleteDisplayNameOfListed(inventory: seq<InventoryItem>, k: int)
    requires 0 <= k < |inventory|
    requires forall i, j :: 0 <= i < j < |inventory| ==> inventory[i].id != inventory[j].id
    ensures DeleteDisplayName(inventory, inventory[k].id) == if inventory[k].data.name == "" then "Item" else inventory[k].data.name
  {
    var found := Seqs.Find(inventory, (i: InventoryItem) => i.id == inventory[k].id);
    var j :| 0 <= j < |inventory| && inventory[j] == found.value;
    assert j == k;
  }

  /** An added item read back from a later snapshot has the id the store assigned and exactly the fields that were added. */
  lemma AddThenReadBack(s: Session, item: ItemData, id: string)
    requires Ready(s) && item.expiryDate != Some(InvalidDate)
    ensures HandleAdd(s, item).Issued?
    ensures ParseDoc(StoredDoc(id, HandleAdd(s, item).write.data)) == InventoryItem(id, item)
  {
    var data := HandleAdd(s, item).write.data;
    if item.expiryDate.Some? {
      assert data.expiryDate == Some(InstantText.Encode(item.expiryDate.value.ms));
    }
  }

  /** An edited item read back from a later snapshot is the edited item itself. */
  lemma EditThenReadBack(s: Session, item: InventoryItem)
    requires Ready(s) && item.data.expiryDate != Some(InvalidDate)
    ensures HandleEdit(s, item).Issued?
    ensures ParseDoc(StoredDoc(item.id, HandleEdit(s, item).write.data)) == item
  {
    AddThenReadBack(s, item.data, item.id);
  }
}
