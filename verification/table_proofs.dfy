/** What the table operations promise about the key/value view, under the invariant `Valid`. */
module TableProofs {
  import opened Outcomes
  import opened Slots
  import opened Reachability
  import opened HashTable

  lemma MapRemoveSize(m: map<string, string>, k: string)
    ensures |m - {k}| == if k in m then |m| - 1 else |m|
  {
    if k in m {
      var m' := m - {k};
      assert m == m'[k := m[k]];
    } else {
      assert m - {k} == m;
    }
  }

  /** The probing part of insert keeps the invariant and stores v under k in the view; it counts
      one more entry exactly when k was new. */
  lemma PlaceCorrect(t: Table, k: string, v: string)
    requires Valid(t)
    ensures Place(t, k, v).Done? ==>
      var r := Place(t, k, v).value;
      && Valid(r)
      && View(r.slots) == View(t.slots)[k := v]
      && r.count - |View(r.slots)| == t.count - |View(t.slots)|
      && (NoTombstones(t.slots) ==> NoTombstones(r.slots))
  {
    match Locate(t.slots, k)
    case AtKey(j) =>
      AfterUpdate(t.slots, k, v);
    case AtEmpty(e) =>
      AfterFill(t.slots, k, v);
    case Cycles =>
  }

  /** Insert keeps the invariant and stores v under k in the view, leaving every other key's entry
      as it was; a growth on the way makes `count` exact. */
  lemma InsertCorrect(t: Table, k: string, v: string)
    requires Valid(t)
    ensures Insert(t, k, v).Done? ==>
      var r := Insert(t, k, v).value;
      && Valid(r)
      && View(r.slots) == View(t.slots)[k := v]
      && (t.count == |View(t.slots)| ==> r.count == |View(r.slots)|)
      && (NoTombstones(t.slots) ==> NoTombstones(r.slots))
    decreases OccupiedCount(t.slots), 3, 0
  {
    if NeedsGrow(t) {
      ResizeCorrect(t, 2 * t.baseSize);
      match SizeUp(t)
      case Done(t1) => PlaceCorrect(t1, k, v);
      case Diverges =>
    } else {
      PlaceCorrect(t, k, v);
    }
  }

  /** A resize to a base not below the current one keeps the view, drops every tombstone and sets
      `count` to the exact number of entries; a smaller base leaves the table as it is. */
  lemma ResizeCorrect(t: Table, b: int)
    requires Valid(t)
    ensures Resize(t, b).Done? ==>
      var r := Resize(t, b).value;
      && Valid(r)
      && View(r.slots) == View(t.slots)
      && (b >= t.baseSize ==> r.count == |View(r.slots)| && NoTombstones(r.slots))
    decreases OccupiedCount(t.slots), 1, 0
  {
    if b >= t.baseSize {
      var empty := NewSized(b);
      EmptyFindable(empty.size);
      assert t.slots[0..] == t.slots;
      ReinsertCorrect(t.slots, 0, empty);
    }
  }

  /** The copy loop of resize adds the entries of the old slots to the view of acc, in slot order. */
  lemma ReinsertCorrect(src: seq<Slot>, i: nat, acc: Table)
    requires i <= |src| && Valid(acc)
    requires OccupiedCount(acc.slots) + OccupiedCount(src[i..]) <= OccupiedCount(src)
    requires acc.count == |View(acc.slots)| && NoTombstones(acc.slots)
    ensures Reinsert(src, i, acc).Done? ==>
      var r := Reinsert(src, i, acc).value;
      && Valid(r)
      && View(r.slots) == Absorb(View(acc.slots), src[i..])
      && r.count == |View(r.slots)|
      && NoTombstones(r.slots)
    decreases OccupiedCount(src), 0, |src| - i
  {
    if i < |src| {
      OccupiedCountSuffix(src, i);
      assert src[i..][1..] == src[i + 1..];
      match src[i]
      case Occupied(k, v) =>
        InsertCorrect(acc, k, v);
        match Insert(acc, k, v) {
          case Done(acc') => ReinsertCorrect(src, i + 1, acc');
          case Diverges =>
        }
      case _ =>
        ReinsertCorrect(src, i + 1, acc);
    }
  }

  /** Under the invariant, search answers according to the view: the stored value for a stored
      key, and for any other key absence or a loop that never returns. */
  lemma SearchCorrect(t: Table, k: string)
    requires Valid(t)
    ensures k in View(t.slots) ==> Search(t, k) == Done(Some(View(t.slots)[k]))
    ensures k !in View(t.slots) ==> Search(t, k) == Done(None) || Search(t, k) == Diverges
  {
    LocateMatchesView(t.slots, k);
  }

  /** After an insert of (k, v), search for k gives v and search for every other stored key gives
      what it gave before. */
  lemma InsertThenSearch(t: Table, k: string, v: string, k2: string)
    requires Valid(t) && Insert(t, k, v).Done?
    ensures Search(Insert(t, k, v).value, k) == Done(Some(v))
    ensures k2 != k && k2 in View(t.slots) ==> Search(Insert(t, k, v).value, k2) == Search(t, k2)
  {
    var r := Insert(t, k, v).value;
    InsertCorrect(t, k, v);
    SearchCorrect(t, k2);
    SearchCorrect(r, k2);
  }

  /** Delete keeps the invariant and removes k from the view; `count` drops by one either way. */
  lemma DeleteCorrect(t: Table, k: string)
    requires Valid(t)
    ensures Delete(t, k).Done? ==>
      var r := Delete(t, k).value;
      && Valid(r)
      && View(r.slots) == View(t.slots) - {k}
      && r.count == t.count - 1
  {
    if Delete(t, k).Done? {
      var r := Delete(t, k).value;
      AfterTombstones(t.slots, r.slots, k);
      MapRemoveSize(View(t.slots), k);
    }
  }

  /** Deleting an absent key still decrements `count`, so an exact count becomes an undercount:
      only `count <= entries` survives delete. */
  lemma DeleteAbsentUndercounts(t: Table, k: string)
    requires Valid(t) && k !in View(t.slots) && t.count == |View(t.slots)|
    ensures Delete(t, k).Done? ==>
      var r := Delete(t, k).value;
      View(r.slots) == View(t.slots) && r.count == |View(r.slots)| - 1
  {
    DeleteCorrect(t, k);
    assert View(t.slots) - {k} == View(t.slots);
  }

  /** A new key goes into the first Empty slot of its probe path: every earlier attempt lands on a
      tombstone or on another key, and tombstones are stepped over rather than reused. */
  lemma PlaceFillsFirstEmpty(t: Table, k: string, v: string) returns (b: nat)
    requires Shaped(t) && Locate(t.slots, k).AtEmpty?
    ensures b < t.size && t.slots[Probe(t.slots, k, b)] == Empty
    ensures forall c :: 0 <= c < b ==> t.slots[Probe(t.slots, k, c)].Deleted? || (t.slots[Probe(t.slots, k, c)].Occupied? && t.slots[Probe(t.slots, k, c)].key != k)
    ensures Place(t, k, v) == Done(t.(slots := t.slots[Probe(t.slots, k, b) := Occupied(k, v)], count := t.count + 1))
  {
    b := LocateAttempt(t.slots, k, 0);
  }

  /** Under the invariant `count` is at most the number of Occupied slots. */
  lemma CountAtMostOccupied(t: Table)
    requires Valid(t)
    ensures t.count <= OccupiedCount(t.slots)
  {
    FindableNoDuplicates(t.slots);
    ViewSizeIsOccupiedCount(t.slots);
  }
}
