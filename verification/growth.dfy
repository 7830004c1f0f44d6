/** The resize policy: the reinsertion inside a growing resize never triggers a growth of its own
    once the base size is at least 3, so a growth is a plain rehash into the larger table. */
module Growth {
  import opened Outcomes
  import Arith
  import Prime
  import opened Slots
  import opened Reachability
  import opened HashTable
  import TableProofs

  /** Reference for the copy loop of resize: every entry of the old slots placed in slot order,
      with no growth check. */
  function Rehash(src: seq<Slot>, i: nat, acc: Table): (r: Outcome<Table>)
    requires i <= |src| && Shaped(acc)
    ensures r.Done? ==> Shaped(r.value) && r.value.baseSize == acc.baseSize && r.value.size == acc.size
    ensures r.Done? ==> acc.count <= r.value.count <= acc.count + OccupiedCount(src[i..])
    decreases |src| - i
  {
    if i == |src| then Done(acc)
    else
      OccupiedCountSuffix(src, i);
      match src[i]
      case Occupied(k, v) =>
        (match Place(acc, k, v)
         case Diverges => Diverges
         case Done(acc') => Rehash(src, i + 1, acc'))
      case _ => Rehash(src, i + 1, acc)
  }

  lemma DivBelow(x: int, c: int, d: int)
    requires 0 <= x < c * d && d > 0
    ensures x / d < c
  {
    assert x == (x / d) * d + x % d;
    if x / d >= c {
      Arith.MulMonoLeft(c, x / d, d);
    }
  }

  /** While fewer entries than the old table held have been copied and those fit under 71 percent
      of the new size, the growth check inside each re-insert stays false. */
  lemma {:induction false} ReinsertNeverGrows(src: seq<Slot>, i: nat, acc: Table)
    requires i <= |src| && Shaped(acc) && acc.count >= 0
    requires OccupiedCount(acc.slots) + OccupiedCount(src[i..]) <= OccupiedCount(src)
    requires acc.count + OccupiedCount(src[i..]) <= OccupiedCount(src)
    requires 100 * (OccupiedCount(src) - 1) < 71 * acc.size
    ensures Reinsert(src, i, acc) == Rehash(src, i, acc)
    decreases |src| - i
  {
    if i < |src| {
      OccupiedCountSuffix(src, i);
      match src[i]
      case Occupied(k, v) =>
        assert 0 <= acc.count * 100 < 71 * acc.size;
        DivBelow(acc.count * 100, 71, acc.size);
        assert !NeedsGrow(acc);
        assert Insert(acc, k, v) == Place(acc, k, v);
        match Place(acc, k, v) {
          case Done(acc') => ReinsertNeverGrows(src, i + 1, acc');
          case Diverges =>
        }
      case _ =>
        ReinsertNeverGrows(src, i + 1, acc);
    }
  }

  /** Growing a table whose base size is at least 3 and whose size is `next_prime` of it is a
      rehash of its entries into an empty table for twice the base: no nested growth happens. */
  lemma GrowthIsRehash(t: Table)
    requires Shaped(t) && t.baseSize >= 3 && t.size == Prime.NextPrime(t.baseSize)
    ensures SizeUp(t) == Rehash(t.slots, 0, NewSized(2 * t.baseSize))
  {
    var b := t.baseSize;
    var empty := NewSized(2 * b);
    OccupiedCountBound(t.slots);
    assert t.slots[0..] == t.slots;
    assert 100 * (OccupiedCount(t.slots) - 1) <= 100 * (b + 1) < 142 * b <= 71 * empty.size;
    ReinsertNeverGrows(t.slots, 0, empty);
  }

  /** Insert grows exactly when the load exceeds 70 percent: it then doubles the base size, takes
      `next_prime` of it as the new size and counts the entries exactly; otherwise base size and
      size stay as they are. */
  lemma InsertGrowthPolicy(t: Table, k: string, v: string)
    requires Valid(t) && t.baseSize >= 3
    ensures Insert(t, k, v).Done? ==>
      var r := Insert(t, k, v).value;
      && (NeedsGrow(t) ==>
            && r.baseSize == 2 * t.baseSize
            && r.size == Prime.NextPrime(2 * t.baseSize)
            && r.count == |View(t.slots)| + (if k in View(t.slots) then 0 else 1))
      && (!NeedsGrow(t) ==> r.baseSize == t.baseSize && r.size == t.size)
  {
    TableProofs.InsertCorrect(t, k, v);
    if NeedsGrow(t) {
      GrowthIsRehash(t);
      TableProofs.ResizeCorrect(t, 2 * t.baseSize);
      match SizeUp(t) {
        case Done(t1) =>
          TableProofs.PlaceCorrect(t1, k, v);
        case Diverges =>
      }
    }
  }
}
