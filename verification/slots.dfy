/** The slot array of the table and the probe walks over it: the loop shared by `ht_insert`
    and `ht_search`, the loop of `ht_delete`, and the count of Occupied slots. */
module Slots {
  import opened Outcomes
  import Hash

  /** One bucket. `Deleted` stands for the shared `HT_DELETED_ITEM` sentinel. */
  datatype Slot = Empty | Deleted | Occupied(key: string, value: string)

  /** Where a probe walk for a key stops: on a slot holding the key, on an Empty slot,
      or nowhere within the first |s| attempts (the C loop then never exits). */
  datatype Stop = AtKey(index: nat) | AtEmpty(index: nat) | Cycles

  predicate HoldsKey(x: Slot, k: string) {
    x.Occupied? && x.key == k
  }

  /** A slot the walk for k steps over: a tombstone, or an entry for another key. */
  predicate Passes(x: Slot, k: string) {
    x != Empty && !HoldsKey(x, k)
  }

  /** Slot index of attempt a for key k. */
  function Probe(s: seq<Slot>, k: string, a: nat): (j: nat)
    requires |s| > 0
    ensures j < |s|
  {
    Hash.GetHash(k, |s|, a)
  }

  // ---------------------------------------------------------------------------------------
  // The lookup walk

  /** The loop of `ht_search` (and of `ht_insert`, which walks the same way) from attempt a:
      stop on an Empty slot or on an entry for k, step over everything else. */
  function LocateFrom(s: seq<Slot>, k: string, a: nat): (r: Stop)
    requires |s| > 0
    ensures r.AtKey? ==> r.index < |s| && HoldsKey(s[r.index], k)
    ensures r.AtEmpty? ==> r.index < |s| && s[r.index] == Empty
    ensures r == Cycles <==> forall b :: a <= b < |s| ==> Passes(s[Probe(s, k, b)], k)
    decreases |s| - a
  {
    if a >= |s| then Cycles
    else
      var j := Probe(s, k, a);
      if s[j] == Empty then AtEmpty(j)
      else if HoldsKey(s[j], k) then AtKey(j)
      else LocateFrom(s, k, a + 1)
  }

  function Locate(s: seq<Slot>, k: string): Stop
    requires |s| > 0
  {
    LocateFrom(s, k, 0)
  }

  /** The walk stops at the first attempt that does not pass. */
  lemma {:induction false} LocateAttempt(s: seq<Slot>, k: string, a: nat) returns (b: nat)
    requires |s| > 0 && !LocateFrom(s, k, a).Cycles?
    ensures a <= b < |s| && Probe(s, k, b) == LocateFrom(s, k, a).index
    ensures forall c :: a <= c < b ==> Passes(s[Probe(s, k, c)], k)
    decreases |s| - a
  {
    if s[Probe(s, k, a)] == Empty || HoldsKey(s[Probe(s, k, a)], k) {
      b := a;
    } else {
      b := LocateAttempt(s, k, a + 1);
    }
  }

  /** When the bounded walk reports `Cycles`, no attempt number at all stops the walk, so the
      unbounded C loop never exits. */
  lemma NeverExits(s: seq<Slot>, k: string)
    requires |s| > 0 && Locate(s, k) == Cycles
    ensures forall b: nat :: Passes(s[Probe(s, k, b)], k)
  {
    forall b: nat
      ensures Passes(s[Probe(s, k, b)], k)
    {
      Hash.ProbePeriodic(k, |s|, b);
      assert Probe(s, k, b) == Probe(s, k, b % |s|);
    }
  }

  /** Slot arrays that agree, slot by slot, on being Empty and on holding k give the same walk for k. */
  lemma {:induction false} LocateSameRoles(s: seq<Slot>, s': seq<Slot>, k: string, a: nat)
    requires |s| == |s'| > 0
    requires forall i :: 0 <= i < |s| ==> (s[i] == Empty <==> s'[i] == Empty) && (HoldsKey(s[i], k) <==> HoldsKey(s'[i], k))
    ensures LocateFrom(s, k, a) == LocateFrom(s', k, a)
    decreases |s| - a
  {
    if a < |s| {
      LocateSameRoles(s, s', k, a + 1);
    }
  }

  /** Filling the Empty slot where the walk for k stopped makes the walk stop there on k. */
  lemma {:induction false} LocateAfterFill(s: seq<Slot>, k: string, v: string, e: nat, a: nat)
    requires |s| > 0 && LocateFrom(s, k, a) == AtEmpty(e)
    ensures LocateFrom(s[e := Occupied(k, v)], k, a) == AtKey(e)
    decreases |s| - a
  {
    var j := Probe(s, k, a);
    assert Probe(s[e := Occupied(k, v)], k, a) == j;
    if j != e {
      LocateAfterFill(s, k, v, e, a + 1);
    }
  }

  /** A walk that stops on its key never reaches an Empty slot, so filling one changes nothing for it. */
  lemma {:induction false} LocateAfterFillElsewhere(s: seq<Slot>, k: string, j: nat, e: nat, x: Slot, a: nat)
    requires |s| > 0 && e < |s| && s[e] == Empty && LocateFrom(s, k, a) == AtKey(j)
    ensures LocateFrom(s[e := x], k, a) == AtKey(j)
    decreases |s| - a
  {
    var i := Probe(s, k, a);
    assert Probe(s[e := x], k, a) == i;
    if i != j {
      LocateAfterFillElsewhere(s, k, j, e, x, a + 1);
    }
  }

  /** A walk that stops on an entry still stops on some entry for its key when that entry is kept
      and no Empty slot appears or disappears. */
  lemma {:induction false} LocateStillFinds(s: seq<Slot>, s': seq<Slot>, k: string, j: nat, a: nat)
    requires |s| == |s'| > 0 && LocateFrom(s, k, a) == AtKey(j) && s'[j] == s[j]
    requires forall i :: 0 <= i < |s| ==> (s[i] == Empty <==> s'[i] == Empty)
    ensures LocateFrom(s', k, a).AtKey?
    decreases |s| - a
  {
    var i := Probe(s, k, a);
    assert Probe(s', k, a) == i;
    if i != j && !HoldsKey(s'[i], k) {
      LocateStillFinds(s, s', k, j, a + 1);
    }
  }

  // ---------------------------------------------------------------------------------------
  // The delete walk

  /** s' arises from s by turning some entries for k into tombstones. */
  ghost predicate TombstonesOnly(s: seq<Slot>, s': seq<Slot>, k: string) {
    |s'| == |s| && forall i :: 0 <= i < |s| ==> s'[i] == s[i] || (HoldsKey(s[i], k) && s'[i] == Deleted)
  }

  /** The loop of `ht_delete` from attempt a: it does not stop on a match, it turns every entry
      for k it meets into a tombstone and walks on until an Empty slot. */
  function DeleteFrom(s: seq<Slot>, k: string, a: nat): (r: Outcome<seq<Slot>>)
    requires |s| > 0
    ensures r.Done? ==> TombstonesOnly(s, r.value, k) && LocateFrom(r.value, k, a).AtEmpty?
    ensures r == Diverges <==> forall b :: a <= b < |s| ==> s[Probe(s, k, b)] != Empty
    decreases |s| - a
  {
    if a >= |s| then Diverges
    else
      var j := Probe(s, k, a);
      if s[j] == Empty then Done(s)
      else
        var s1 := if HoldsKey(s[j], k) then s[j := Deleted] else s;
        var r := DeleteFrom(s1, k, a + 1);
        DeleteStep(s, s1, k, a, r);
        r
  }

  /** One step of the delete walk keeps the contract of `DeleteFrom`. */
  lemma DeleteStep(s: seq<Slot>, s1: seq<Slot>, k: string, a: nat, r: Outcome<seq<Slot>>)
    requires |s| > 0 && a < |s| && s[Probe(s, k, a)] != Empty
    requires s1 == if HoldsKey(s[Probe(s, k, a)], k) then s[Probe(s, k, a) := Deleted] else s
    requires r.Done? ==> TombstonesOnly(s1, r.value, k) && LocateFrom(r.value, k, a + 1).AtEmpty?
    requires r == Diverges <==> forall b :: a + 1 <= b < |s1| ==> s1[Probe(s1, k, b)] != Empty
    ensures r.Done? ==> TombstonesOnly(s, r.value, k) && LocateFrom(r.value, k, a).AtEmpty?
    ensures r == Diverges <==> forall b :: a <= b < |s| ==> s[Probe(s, k, b)] != Empty
  {
    var j := Probe(s, k, a);
    assert TombstonesOnly(s, s1, k);
    assert forall i :: 0 <= i < |s| ==> (s1[i] == Empty <==> s[i] == Empty);
    assert forall b :: 0 <= b ==> Probe(s1, k, b) == Probe(s, k, b);
    if r.Done? {
      var s' := r.value;
      assert Probe(s', k, a) == j;
      assert !HoldsKey(s1[j], k);
      assert s'[j] == s1[j];
      assert LocateFrom(s', k, a) == LocateFrom(s', k, a + 1);
    }
  }

  /** When the bounded delete walk diverges, no attempt number reaches an Empty slot; tombstoning
      never creates one, so the unbounded C loop never exits. */
  lemma DeleteNeverExits(s: seq<Slot>, k: string)
    requires |s| > 0 && DeleteFrom(s, k, 0) == Diverges
    ensures forall b: nat :: s[Probe(s, k, b)] != Empty
  {
    forall b: nat
      ensures s[Probe(s, k, b)] != Empty
    {
      Hash.ProbePeriodic(k, |s|, b);
      assert Probe(s, k, b) == Probe(s, k, b % |s|);
    }
  }

  // ---------------------------------------------------------------------------------------
  // Counting

  function OccupiedCount(s: seq<Slot>): nat
    decreases |s|
  {
    if |s| == 0 then 0 else (if s[0].Occupied? then 1 else 0) + OccupiedCount(s[1..])
  }

  lemma {:induction false} OccupiedCountUpdate(s: seq<Slot>, j: nat, x: Slot)
    requires j < |s|
    ensures OccupiedCount(s[j := x]) == OccupiedCount(s) - (if s[j].Occupied? then 1 else 0) + (if x.Occupied? then 1 else 0)
    decreases |s|
  {
    if j > 0 {
      assert s[j := x][1..] == s[1..][j - 1 := x];
      OccupiedCountUpdate(s[1..], j - 1, x);
    } else {
      assert s[j := x][1..] == s[1..];
    }
  }

  lemma {:induction false} OccupiedCountSuffix(s: seq<Slot>, i: nat)
    requires i < |s|
    ensures OccupiedCount(s[i..]) == (if s[i].Occupied? then 1 else 0) + OccupiedCount(s[i + 1..])
  {
    assert s[i..][1..] == s[i + 1..];
  }

  lemma {:induction false} OccupiedCountBound(s: seq<Slot>)
    ensures OccupiedCount(s) <= |s|
    decreases |s|
  {
    if |s| > 0 {
      OccupiedCountBound(s[1..]);
    }
  }

  lemma {:induction false} OccupiedCountOfEmpty(n: nat)
    ensures OccupiedCount(seq(n, _ => Empty)) == 0
    decreases n
  {
    if n > 0 {
      assert seq(n, _ => Empty)[1..] == seq(n - 1, _ => Empty);
      OccupiedCountOfEmpty(n - 1);
    }
  }

  ghost predicate NoTombstones(s: seq<Slot>) {
    forall i :: 0 <= i < |s| ==> s[i] != Deleted
  }
}
