/** The table itself: `ht_new_sized`/`ht_new`, `ht_resize`, `ht_size_up`/`ht_size_down`,
    `ht_insert`, `ht_search` and `ht_delete`, each returning a new table value. */
module HashTable {
  import opened Outcomes
  import Prime
  import opened Slots
  import opened Reachability

  /** `INIT_SIZE`: the base size of a new table. */
  const INIT_SIZE: int := 53

  /** `ht_hash_table`: the requested base size, the bucket count, the entry counter, the buckets. */
  datatype Table = Table(baseSize: int, size: int, count: int, slots: seq<Slot>)

  /** What every operation relies on: a positive base size and a bucket array of length `size`. */
  predicate Shaped(t: Table) {
    t.baseSize >= 1 && t.size >= 1 && |t.slots| == t.size
  }

  /** The invariant the operations keep: the size is `next_prime(base_size)`, every key is
      findable by its own probe walk, and `count` never exceeds the number of entries. */
  ghost predicate Valid(t: Table) {
    && Shaped(t)
    && t.size == Prime.NextPrime(t.baseSize)
    && Findable(t.slots)
    && t.count <= |View(t.slots)|
  }

  /** C's `/` on `int`, which truncates toward zero. */
  function CDiv(a: int, b: int): int
    requires b > 0
  {
    if a >= 0 then a / b else -((-a) / b)
  }

  /** The load percentage `count * 100 / size`. */
  function Load(t: Table): int
    requires t.size > 0
  {
    CDiv(t.count * 100, t.size)
  }

  predicate NeedsGrow(t: Table)
    requires t.size > 0
  {
    Load(t) > 70
  }

  predicate NeedsShrink(t: Table)
    requires t.size > 0
  {
    Load(t) < 10
  }

  /** `ht_new_sized`: an empty table whose bucket count is `next_prime(b)`. */
  function NewSized(b: int): (t: Table)
    requires b >= 1
    ensures Shaped(t) && t.baseSize == b && t.count == 0
    ensures t.size == Prime.NextPrime(b) && t.size >= b && Prime.IsPrime(t.size) != 1
    ensures forall i :: 0 <= i < t.size ==> t.slots[i] == Empty
    ensures OccupiedCount(t.slots) == 0 && View(t.slots) == map[]
  {
    var n := Prime.NextPrime(b);
    OccupiedCountOfEmpty(n);
    ViewOfEmpty(n);
    Table(b, n, 0, seq(n, _ => Empty))
  }

  /** `ht_new`: base size 53, which `next_prime` turns into 54 buckets. */
  function New(): (t: Table)
    ensures Valid(t) && t.baseSize == 53 && t.size == 54 && t.count == 0
    ensures View(t.slots) == map[]
  {
    Prime.NextPrimeOfInitSize();
    EmptyFindable(54);
    NewSized(INIT_SIZE)
  }

  /** `ht_search`: walk the probe sequence; an entry for k gives its value, an Empty slot gives
      absence. A `Diverges` answer stands for a loop that never returns. */
  function Search(t: Table, k: string): (r: Outcome<Option<string>>)
    requires Shaped(t)
    ensures r.Done? && r.value.Some? ==> exists j :: 0 <= j < t.size && t.slots[j] == Occupied(k, r.value.value)
    ensures r == Diverges ==> forall b: nat :: Passes(t.slots[Probe(t.slots, k, b)], k)
  {
    match Locate(t.slots, k)
    case AtKey(j) => Done(Some(t.slots[j].value))
    case AtEmpty(_) => Done(None)
    case Cycles =>
      NeverExits(t.slots, k);
      Diverges
  }

  /** The probing part of `ht_insert`, after the growth check: rewrite the entry for k in place,
      or fill the Empty slot where the walk stopped and count one more entry. Tombstones are
      stepped over and never reused. */
  function Place(t: Table, k: string, v: string): (r: Outcome<Table>)
    requires Shaped(t)
    ensures r == Diverges ==> forall b: nat :: Passes(t.slots[Probe(t.slots, k, b)], k)
    ensures r.Done? ==> Shaped(r.value) && r.value.baseSize == t.baseSize && r.value.size == t.size
    ensures r.Done? ==> exists j :: 0 <= j < t.size && r.value.slots == t.slots[j := Occupied(k, v)] &&
                         ((t.slots[j] == Empty && r.value.count == t.count + 1) ||
                          (HoldsKey(t.slots[j], k) && r.value.count == t.count))
    ensures r.Done? ==> Search(r.value, k) == Done(Some(v))
    ensures r.Done? ==> OccupiedCount(r.value.slots) <= OccupiedCount(t.slots) + 1
  {
    match Locate(t.slots, k)
    case AtKey(j) =>
      var s' := t.slots[j := Occupied(k, v)];
      LocateSameRoles(t.slots, s', k, 0);
      OccupiedCountUpdate(t.slots, j, Occupied(k, v));
      Done(t.(slots := s'))
    case AtEmpty(e) =>
      var s' := t.slots[e := Occupied(k, v)];
      LocateAfterFill(t.slots, k, v, e, 0);
      OccupiedCountUpdate(t.slots, e, Occupied(k, v));
      Done(t.(slots := s', count := t.count + 1))
    case Cycles =>
      NeverExits(t.slots, k);
      Diverges
  }

  /** `ht_insert`: grow first when the load exceeds 70 percent, then place the entry. */
  function Insert(t: Table, k: string, v: string): (r: Outcome<Table>)
    requires Shaped(t)
    ensures r.Done? ==> Shaped(r.value) && r.value.baseSize >= t.baseSize
    ensures r.Done? ==> Search(r.value, k) == Done(Some(v))
    ensures r.Done? ==> OccupiedCount(r.value.slots) <= OccupiedCount(t.slots) + 1
    decreases OccupiedCount(t.slots), 3, 0
  {
    var grown := if NeedsGrow(t) then SizeUp(t) else Done(t);
    match grown
    case Diverges => Diverges
    case Done(t1) => Place(t1, k, v)
  }

  /** `ht_size_up`: resize to twice the base size. */
  function SizeUp(t: Table): (r: Outcome<Table>)
    requires Shaped(t)
    ensures r.Done? ==> Shaped(r.value) && r.value.baseSize >= 2 * t.baseSize
    ensures r.Done? ==> OccupiedCount(r.value.slots) <= OccupiedCount(t.slots)
    decreases OccupiedCount(t.slots), 2, 0
  {
    Resize(t, 2 * t.baseSize)
  }

  /** `ht_resize`: refuse a base size below the current one; otherwise build a table sized for
      base b and re-insert every entry of the old one through `ht_insert`. */
  function Resize(t: Table, b: int): (r: Outcome<Table>)
    requires Shaped(t)
    ensures b < t.baseSize ==> r == Done(t)
    ensures r.Done? ==> Shaped(r.value) && r.value.baseSize >= t.baseSize
    ensures b >= t.baseSize && r.Done? ==> r.value.baseSize >= b
    ensures r.Done? ==> OccupiedCount(r.value.slots) <= OccupiedCount(t.slots)
    decreases OccupiedCount(t.slots), 1, 0
  {
    if b < t.baseSize then Done(t)
    else
      assert t.slots[0..] == t.slots;
      Reinsert(t.slots, 0, NewSized(b))
  }

  /** The copy loop of `ht_resize` from slot i of the old bucket array into acc. */
  function Reinsert(src: seq<Slot>, i: nat, acc: Table): (r: Outcome<Table>)
    requires i <= |src| && Shaped(acc)
    requires OccupiedCount(acc.slots) + OccupiedCount(src[i..]) <= OccupiedCount(src)
    ensures r.Done? ==> Shaped(r.value) && r.value.baseSize >= acc.baseSize
    ensures r.Done? ==> OccupiedCount(r.value.slots) <= OccupiedCount(acc.slots) + OccupiedCount(src[i..])
    decreases OccupiedCount(src), 0, |src| - i
  {
    if i == |src| then Done(acc)
    else
      OccupiedCountSuffix(src, i);
      match src[i]
      case Occupied(k, v) =>
        (match Insert(acc, k, v)
         case Diverges => Diverges
         case Done(acc') => Reinsert(src, i + 1, acc'))
      case _ => Reinsert(src, i + 1, acc)
  }

  /** `ht_size_down`: asks for half the base size, which `ht_resize` always refuses. */
  function SizeDown(t: Table): (r: Outcome<Table>)
    requires Shaped(t)
    ensures r == Done(t)
  {
    Resize(t, CDiv(t.baseSize, 2))
  }

  /** `ht_delete`: the shrink check (a no-op), then the delete walk, then an unconditional
      decrement of `count`. */
  function Delete(t: Table, k: string): (r: Outcome<Table>)
    requires Shaped(t)
    ensures r.Done? ==> Shaped(r.value) && r.value.baseSize == t.baseSize && r.value.size == t.size
    ensures r.Done? ==> r.value.count == t.count - 1
    ensures r.Done? ==> TombstonesOnly(t.slots, r.value.slots, k)
    ensures r.Done? ==> Search(r.value, k) == Done(None)
    ensures r == Diverges ==> forall b: nat :: t.slots[Probe(t.slots, k, b)] != Empty
  {
    var shrunk := if NeedsShrink(t) then SizeDown(t) else Done(t);
    match shrunk
    case Diverges => Diverges
    case Done(t1) =>
      match DeleteFrom(t1.slots, k, 0)
      case Diverges =>
        DeleteNeverExits(t1.slots, k);
        Diverges
      case Done(s') => Done(t1.(slots := s', count := t1.count - 1))
  }
}
