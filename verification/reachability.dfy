/** The abstract key/value view of a slot array and the reachability invariant under which
    the probe walks answer according to that view. */
module Reachability {
  import opened Slots

  // ---------------------------------------------------------------------------------------
  // The abstract view

  /** Some slot of s holds an entry for k. */
  ghost predicate KeyIn(s: seq<Slot>, k: string) {
    exists i :: 0 <= i < |s| && HoldsKey(s[i], k)
  }

  /** The entries of s's Occupied slots applied to m from left to right. */
  function Absorb(m: map<string, string>, s: seq<Slot>): map<string, string>
    decreases |s|
  {
    if |s| == 0 then m
    else Absorb(if s[0].Occupied? then m[s[0].key := s[0].value] else m, s[1..])
  }

  /** The key/value map the table stands for. */
  function View(s: seq<Slot>): map<string, string> {
    Absorb(map[], s)
  }

  /** m lists exactly the entries of s. */
  ghost predicate Describes(s: seq<Slot>, m: map<string, string>) {
    && (forall k :: k in m <==> KeyIn(s, k))
    && (forall i :: 0 <= i < |s| && s[i].Occupied? ==> s[i].key in m && m[s[i].key] == s[i].value)
  }

  ghost predicate NoDuplicateKeys(s: seq<Slot>) {
    forall i, j :: 0 <= i < |s| && 0 <= j < |s| && s[i].Occupied? && HoldsKey(s[j], s[i].key) ==> i == j
  }

  lemma {:induction false} AbsorbKeys(m: map<string, string>, s: seq<Slot>, k: string)
    ensures k in Absorb(m, s) <==> k in m || KeyIn(s, k)
    decreases |s|
  {
    if |s| > 0 {
      var m1 := if s[0].Occupied? then m[s[0].key := s[0].value] else m;
      AbsorbKeys(m1, s[1..], k);
      if KeyIn(s[1..], k) {
        var i :| 0 <= i < |s[1..]| && HoldsKey(s[1..][i], k);
        assert HoldsKey(s[i + 1], k);
      }
      if KeyIn(s, k) && !HoldsKey(s[0], k) {
        var i :| 0 <= i < |s| && HoldsKey(s[i], k);
        assert HoldsKey(s[1..][i - 1], k);
      }
    }
  }

  /** An entry that no later slot overrides is what the view holds for its key. */
  lemma {:induction false} AbsorbLast(m: map<string, string>, s: seq<Slot>, i: nat)
    requires i < |s| && s[i].Occupied?
    requires forall j :: i < j < |s| ==> !HoldsKey(s[j], s[i].key)
    ensures s[i].key in Absorb(m, s) && Absorb(m, s)[s[i].key] == s[i].value
    decreases |s|
  {
    var m1 := if s[0].Occupied? then m[s[0].key := s[0].value] else m;
    if i == 0 {
      AbsorbUntouched(m1, s[1..], s[0].key);
    } else {
      AbsorbLast(m1, s[1..], i - 1);
    }
  }

  /** Slots that never hold k leave the view's entry for k as it was. */
  lemma {:induction false} AbsorbUntouched(m: map<string, string>, s: seq<Slot>, k: string)
    requires forall j :: 0 <= j < |s| ==> !HoldsKey(s[j], k)
    ensures k in Absorb(m, s) <==> k in m
    ensures k in m ==> Absorb(m, s)[k] == m[k]
    decreases |s|
  {
    if |s| > 0 {
      assert !HoldsKey(s[0], k);
      var m1 := if s[0].Occupied? then m[s[0].key := s[0].value] else m;
      AbsorbUntouched(m1, s[1..], k);
    }
  }

  /** Without duplicate keys the view lists exactly the entries of the slots. */
  lemma ViewDescribes(s: seq<Slot>)
    requires NoDuplicateKeys(s)
    ensures Describes(s, View(s))
  {
    forall k
      ensures k in View(s) <==> KeyIn(s, k)
    {
      AbsorbKeys(map[], s, k);
    }
    forall i | 0 <= i < |s| && s[i].Occupied?
      ensures s[i].key in View(s) && View(s)[s[i].key] == s[i].value
    {
      AbsorbLast(map[], s, i);
    }
  }

  lemma DescribesUnique(s: seq<Slot>, m1: map<string, string>, m2: map<string, string>)
    requires Describes(s, m1) && Describes(s, m2)
    ensures m1 == m2
  {
    forall k | k in m1
      ensures m1[k] == m2[k]
    {
      var i :| 0 <= i < |s| && HoldsKey(s[i], k);
    }
  }

  /** The view of a slot array without duplicate keys is the one map that describes it. */
  lemma ViewIs(s: seq<Slot>, m: map<string, string>)
    requires NoDuplicateKeys(s) && Describes(s, m)
    ensures View(s) == m
  {
    ViewDescribes(s);
    DescribesUnique(s, View(s), m);
  }

  lemma ViewOfEmpty(n: nat)
    ensures View(seq(n, _ => Empty)) == map[]
  {
    var s := seq(n, _ => Empty);
    assert NoDuplicateKeys(s);
    ViewIs(s, map[]);
  }

  // ---------------------------------------------------------------------------------------
  // The invariant

  /** No attempt of k before attempt a lands on an Empty slot. */
  ghost predicate ClearBefore(s: seq<Slot>, k: string, a: nat)
    requires |s| > 0
  {
    forall b :: 0 <= b < a ==> s[Probe(s, k, b)] != Empty
  }

  /** Reachability: every entry sits at some attempt a of its key, and every earlier attempt
      of that key lands on a slot that is not Empty. */
  ghost predicate Reachable(s: seq<Slot>)
    requires |s| > 0
  {
    forall j :: 0 <= j < |s| && s[j].Occupied? ==>
      exists a :: 0 <= a < |s| && Probe(s, s[j].key, a) == j && ClearBefore(s, s[j].key, a)
  }

  /** The working form of the invariant: the lookup walk for every stored key stops on its slot. */
  ghost predicate Findable(s: seq<Slot>)
    requires |s| > 0
  {
    forall j :: 0 <= j < |s| && s[j].Occupied? ==> Locate(s, s[j].key) == AtKey(j)
  }

  lemma {:induction false} WalkReaches(s: seq<Slot>, k: string, j: nat, a: nat, b: nat)
    requires |s| > 0 && j < |s| && HoldsKey(s[j], k) && NoDuplicateKeys(s)
    requires b <= a < |s| && Probe(s, k, a) == j && ClearBefore(s, k, a)
    ensures LocateFrom(s, k, b) == AtKey(j)
    decreases a - b
  {
    var i := Probe(s, k, b);
    if b < a && !HoldsKey(s[i], k) {
      WalkReaches(s, k, j, a, b + 1);
    }
  }

  /** Findability is exactly reachability together with unique keys. */
  lemma ReachableIffFindable(s: seq<Slot>)
    requires |s| > 0
    ensures Findable(s) <==> Reachable(s) && NoDuplicateKeys(s)
  {
    if Findable(s) {
      FindableNoDuplicates(s);
      forall j | 0 <= j < |s| && s[j].Occupied?
        ensures exists a :: 0 <= a < |s| && Probe(s, s[j].key, a) == j && ClearBefore(s, s[j].key, a)
      {
        var a := LocateAttempt(s, s[j].key, 0);
        assert ClearBefore(s, s[j].key, a);
      }
    }
    if Reachable(s) && NoDuplicateKeys(s) {
      forall j | 0 <= j < |s| && s[j].Occupied?
        ensures Locate(s, s[j].key) == AtKey(j)
      {
        var a :| 0 <= a < |s| && Probe(s, s[j].key, a) == j && ClearBefore(s, s[j].key, a);
        WalkReaches(s, s[j].key, j, a, 0);
      }
    }
  }

  lemma FindableNoDuplicates(s: seq<Slot>)
    requires |s| > 0 && Findable(s)
    ensures NoDuplicateKeys(s)
  {
  }

  /** Under the invariant the lookup walk answers according to the view: it stops on k's entry
      when k is stored, and otherwise stops on an Empty slot or never stops. */
  lemma LocateMatchesView(s: seq<Slot>, k: string)
    requires |s| > 0 && Findable(s)
    ensures k in View(s) <==> Locate(s, k).AtKey?
    ensures Locate(s, k).AtKey? ==> View(s)[k] == s[Locate(s, k).index].value
  {
    FindableNoDuplicates(s);
    ViewDescribes(s);
    if k in View(s) {
      var i :| 0 <= i < |s| && HoldsKey(s[i], k);
    }
  }

  // ---------------------------------------------------------------------------------------
  // What the three kinds of change do to the invariant and the view

  /** Filling the Empty slot where the walk for a new key stopped keeps every key findable and
      adds the entry to the view. */
  lemma AfterFill(s: seq<Slot>, k: string, v: string)
    requires |s| > 0 && Findable(s) && Locate(s, k).AtEmpty?
    ensures k !in View(s)
    ensures Findable(s[Locate(s, k).index := Occupied(k, v)])
    ensures View(s[Locate(s, k).index := Occupied(k, v)]) == View(s)[k := v]
  {
    var e := Locate(s, k).index;
    var s' := s[e := Occupied(k, v)];
    LocateMatchesView(s, k);
    forall j | 0 <= j < |s'| && s'[j].Occupied?
      ensures Locate(s', s'[j].key) == AtKey(j)
    {
      if j == e {
        LocateAfterFill(s, k, v, e, 0);
      } else {
        LocateAfterFillElsewhere(s, s[j].key, j, e, Occupied(k, v), 0);
      }
    }
    FindableNoDuplicates(s);
    FindableNoDuplicates(s');
    ViewDescribes(s);
    var m := View(s)[k := v];
    forall k2
      ensures k2 in m <==> KeyIn(s', k2)
    {
      if k2 in m && k2 != k {
        var i :| 0 <= i < |s| && HoldsKey(s[i], k2);
        assert HoldsKey(s'[i], k2);
      }
      if KeyIn(s', k2) && k2 != k {
        var i :| 0 <= i < |s'| && HoldsKey(s'[i], k2);
        assert HoldsKey(s[i], k2);
      }
      if k2 == k {
        assert HoldsKey(s'[e], k);
      }
    }
    ViewIs(s', m);
  }

  /** Rewriting the entry where the walk for k stopped keeps every key findable and updates
      only k in the view. */
  lemma AfterUpdate(s: seq<Slot>, k: string, v: string)
    requires |s| > 0 && Findable(s) && Locate(s, k).AtKey?
    ensures k in View(s)
    ensures Findable(s[Locate(s, k).index := Occupied(k, v)])
    ensures View(s[Locate(s, k).index := Occupied(k, v)]) == View(s)[k := v]
  {
    var j := Locate(s, k).index;
    var s' := s[j := Occupied(k, v)];
    LocateMatchesView(s, k);
    forall i | 0 <= i < |s'| && s'[i].Occupied?
      ensures Locate(s', s'[i].key) == AtKey(i)
    {
      LocateSameRoles(s, s', s'[i].key, 0);
    }
    FindableNoDuplicates(s);
    FindableNoDuplicates(s');
    ViewDescribes(s);
    var m := View(s)[k := v];
    forall k2
      ensures k2 in m <==> KeyIn(s', k2)
    {
      if k2 in m && k2 != k {
        var i :| 0 <= i < |s| && HoldsKey(s[i], k2);
        assert HoldsKey(s'[i], k2);
      }
      if KeyIn(s', k2) && k2 != k {
        var i :| 0 <= i < |s'| && HoldsKey(s'[i], k2);
        assert HoldsKey(s[i], k2);
      }
      if k2 == k {
        assert HoldsKey(s'[j], k);
      }
    }
    ViewIs(s', m);
  }

  /** Tombstoning entries for k until the walk for k meets an Empty slot keeps every other key
      findable, leaves no entry for k anywhere, and removes k from the view. */
  lemma AfterTombstones(s: seq<Slot>, s': seq<Slot>, k: string)
    requires |s| > 0 && Findable(s) && TombstonesOnly(s, s', k) && Locate(s', k).AtEmpty?
    ensures !KeyIn(s', k)
    ensures Findable(s')
    ensures View(s') == View(s) - {k}
  {
    assert forall i :: 0 <= i < |s| ==> (s[i] == Empty <==> s'[i] == Empty);
    if KeyIn(s', k) {
      var j :| 0 <= j < |s'| && HoldsKey(s'[j], k);
      assert s[j] == s'[j];
      LocateStillFinds(s, s', k, j, 0);
      assert false;
    }
    forall j | 0 <= j < |s'| && s'[j].Occupied?
      ensures Locate(s', s'[j].key) == AtKey(j)
    {
      assert s[j] == s'[j] && s[j].key != k;
      LocateSameRoles(s, s', s'[j].key, 0);
    }
    FindableNoDuplicates(s);
    FindableNoDuplicates(s');
    ViewDescribes(s);
    var m := View(s) - {k};
    forall k2
      ensures k2 in m <==> KeyIn(s', k2)
    {
      if k2 in m {
        var i :| 0 <= i < |s| && HoldsKey(s[i], k2);
        assert HoldsKey(s'[i], k2);
      }
      if KeyIn(s', k2) {
        var i :| 0 <= i < |s'| && HoldsKey(s'[i], k2);
        assert HoldsKey(s[i], k2);
      }
    }
    ViewIs(s', m);
  }

  lemma EmptyFindable(n: nat)
    requires n > 0
    ensures Findable(seq(n, _ => Empty))
  {
  }

  /** Without duplicate keys the view has one entry per Occupied slot. */
  lemma ViewSizeIsOccupiedCount(s: seq<Slot>)
    requires NoDuplicateKeys(s)
    ensures |View(s)| == OccupiedCount(s)
  {
    AbsorbSize(map[], s);
  }

  lemma {:induction false} AbsorbSize(m: map<string, string>, s: seq<Slot>)
    requires NoDuplicateKeys(s)
    requires forall i :: 0 <= i < |s| && s[i].Occupied? ==> s[i].key !in m
    ensures |Absorb(m, s)| == |m| + OccupiedCount(s)
    decreases |s|
  {
    if |s| > 0 {
      var m1 := if s[0].Occupied? then m[s[0].key := s[0].value] else m;
      var t := s[1..];
      assert NoDuplicateKeys(t) by {
        forall i, j | 0 <= i < |t| && 0 <= j < |t| && t[i].Occupied? && HoldsKey(t[j], t[i].key)
          ensures i == j
        {
          assert s[i + 1] == t[i] && s[j + 1] == t[j];
        }
      }
      forall i | 0 <= i < |t| && t[i].Occupied?
        ensures t[i].key !in m1
      {
        assert s[i + 1] == t[i];
      }
      AbsorbSize(m1, t);
    }
  }
}
