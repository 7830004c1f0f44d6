/** The scenario of the repository's demo program, replayed on the model. */
module Demo {
  import opened Outcomes
  import Arith
  import Hash
  import opened Slots
  import opened HashTable

  lemma HashJust()
    ensures Hash.StrHash("just", Hash.HT_PRIME_1, 54) == 16
  {
    var s := "just";
    assert Hash.Pow(157, 3) == 3869893;
    assert Hash.HashFrom(s, 157, 54, 4, 16) == 16;
    assert Hash.HashFrom(s, 157, 54, 3, 8) == 16;
    assert Hash.HashFrom(s, 157, 54, 2, 43) == 16;
    assert Hash.HashFrom(s, 157, 54, 1, 34) == 16;
  }

  lemma HashTwelve()
    ensures Hash.StrHash("12", Hash.HT_PRIME_1, 54) == 21
  {
    var s := "12";
    assert Hash.HashFrom(s, 157, 54, 2, 21) == 21;
    assert Hash.HashFrom(s, 157, 54, 1, 25) == 21;
  }

  lemma HashDs()
    ensures Hash.StrHash("ds", Hash.HT_PRIME_1, 54) == 47
  {
    var s := "ds";
    assert Hash.HashFrom(s, 157, 54, 2, 47) == 47;
    assert Hash.HashFrom(s, 157, 54, 1, 40) == 47;
  }

  /** Where the three demo keys start probing in the 54 buckets of a new table, and the step
      of "12" (its second hash is the same as its first at this size). */
  lemma DemoHashes()
    ensures Hash.StrHash("just", Hash.HT_PRIME_1, 54) == 16
    ensures Hash.StrHash("12", Hash.HT_PRIME_1, 54) == 21
    ensures Hash.StrHash("12", Hash.HT_PRIME_2, 54) == 21
    ensures Hash.StrHash("ds", Hash.HT_PRIME_1, 54) == 47
  {
    HashJust();
    HashTwelve();
    HashDs();
    Hash.InitialHashesCoincide("12");
  }

  function Buckets(): seq<Slot> {
    seq(54, _ => Empty)
  }

  lemma Step1()
    ensures Insert(New(), "just", "1") == Done(Table(53, 54, 1, Buckets()[16 := Occupied("just", "1")]))
  {
    DemoHashes();
    var t := New();
    assert Load(t) == 0;
    assert Probe(t.slots, "just", 0) == 16;
    assert Locate(t.slots, "just") == AtEmpty(16);
  }

  lemma Step2()
    ensures
      var t := Table(53, 54, 1, Buckets()[16 := Occupied("just", "1")]);
      Insert(t, "12", "123") == Done(t.(count := 2, slots := t.slots[21 := Occupied("12", "123")]))
  {
    DemoHashes();
    var t := Table(53, 54, 1, Buckets()[16 := Occupied("just", "1")]);
    assert Load(t) == 1;
    assert Probe(t.slots, "12", 0) == 21;
    assert Locate(t.slots, "12") == AtEmpty(21);
  }

  lemma Step3()
    ensures
      var t := Table(53, 54, 2, Buckets()[16 := Occupied("just", "1")][21 := Occupied("12", "123")]);
      Insert(t, "ds", "test") == Done(t.(count := 3, slots := t.slots[47 := Occupied("ds", "test")]))
  {
    DemoHashes();
    var t := Table(53, 54, 2, Buckets()[16 := Occupied("just", "1")][21 := Occupied("12", "123")]);
    assert Load(t) == 3;
    assert Probe(t.slots, "ds", 0) == 47;
    assert Locate(t.slots, "ds") == AtEmpty(47);
  }

  function Filled(): seq<Slot> {
    Buckets()[16 := Occupied("just", "1")][21 := Occupied("12", "123")][47 := Occupied("ds", "test")]
  }

  lemma Step3Search()
    ensures Search(Table(53, 54, 3, Filled()), "just") == Done(Some("1"))
    ensures Search(Table(53, 54, 3, Filled()), "12") == Done(Some("123"))
    ensures Search(Table(53, 54, 3, Filled()), "ds") == Done(Some("test"))
  {
    DemoHashes();
    var s := Filled();
    assert Probe(s, "just", 0) == 16 && Locate(s, "just") == AtKey(16);
    assert Probe(s, "12", 0) == 21 && Locate(s, "12") == AtKey(21);
    assert Probe(s, "ds", 0) == 47 && Locate(s, "ds") == AtKey(47);
  }

  lemma Step4()
    ensures
      Insert(Table(53, 54, 3, Filled()), "just", "wooo")
        == Done(Table(53, 54, 3, Filled()[16 := Occupied("just", "wooo")]))
  {
    DemoHashes();
    var t := Table(53, 54, 3, Filled());
    assert Load(t) == 5;
    assert Probe(t.slots, "just", 0) == 16;
    assert Locate(t.slots, "just") == AtKey(16);
  }

  function Updated(): seq<Slot> {
    Filled()[16 := Occupied("just", "wooo")]
  }

  lemma Step5()
    ensures Delete(Table(53, 54, 3, Updated()), "12") == Done(Table(53, 54, 2, Updated()[21 := Deleted]))
  {
    DemoHashes();
    var t := Table(53, 54, 3, Updated());
    var s := t.slots;
    assert NeedsShrink(t);
    assert Probe(s, "12", 0) == 21;
    assert Probe(s, "12", 1) == 43;
    assert DeleteFrom(s[21 := Deleted], "12", 1) == Done(s[21 := Deleted]);
    assert DeleteFrom(s, "12", 0) == Done(s[21 := Deleted]);
  }

  lemma Step5Search()
    ensures Search(Table(53, 54, 2, Updated()[21 := Deleted]), "12") == Done(None)
    ensures Search(Table(53, 54, 2, Updated()[21 := Deleted]), "just") == Done(Some("wooo"))
    ensures Search(Table(53, 54, 2, Updated()[21 := Deleted]), "ds") == Done(Some("test"))
  {
    DemoHashes();
    var s := Updated()[21 := Deleted];
    assert Probe(s, "12", 0) == 21 && Probe(s, "12", 1) == 43;
    assert LocateFrom(s, "12", 1) == AtEmpty(43);
    assert Locate(s, "12") == AtEmpty(43);
    assert Probe(s, "just", 0) == 16 && Locate(s, "just") == AtKey(16);
    assert Probe(s, "ds", 0) == 47 && Locate(s, "ds") == AtKey(47);
  }

  /** Insert "just" -> "1", "12" -> "123", "ds" -> "test"; update "just" -> "wooo"; delete "12".
      Every step terminates, no resize happens (the shrink check fires on delete but is refused),
      "12" is then absent and the other two keys keep their latest values. */
  lemma DemoScenario()
    ensures
      var t0 := New();
      && Insert(t0, "just", "1").Done?
      && var t1 := Insert(t0, "just", "1").value;
      && Insert(t1, "12", "123").Done?
      && var t2 := Insert(t1, "12", "123").value;
      && Insert(t2, "ds", "test").Done?
      && var t3 := Insert(t2, "ds", "test").value;
      && Search(t3, "just") == Done(Some("1"))
      && Search(t3, "12") == Done(Some("123"))
      && Search(t3, "ds") == Done(Some("test"))
      && Insert(t3, "just", "wooo").Done?
      && var t4 := Insert(t3, "just", "wooo").value;
      && Delete(t4, "12").Done?
      && var t5 := Delete(t4, "12").value;
      && t5.baseSize == 53 && t5.size == 54 && t5.count == 2
      && Search(t5, "12") == Done(None)
      && Search(t5, "just") == Done(Some("wooo"))
      && Search(t5, "ds") == Done(Some("test"))
  {
    Step1();
    Step2();
    Step3();
    Step3Search();
    Step4();
    Step5();
    Step5Search();
  }

  // ---------------------------------------------------------------------------------------
  // A probe loop that never exits, two inserts after `ht_new`

  /** "aj" and "bo" both hash to 53 under either prime at 54 buckets, so their probe step is
      53 + 1 = 54, a multiple of the table size. */
  lemma HashAjBo()
    ensures Hash.StrHash("aj", Hash.HT_PRIME_1, 54) == 53 && Hash.StrHash("aj", Hash.HT_PRIME_2, 54) == 53
    ensures Hash.StrHash("bo", Hash.HT_PRIME_1, 54) == 53 && Hash.StrHash("bo", Hash.HT_PRIME_2, 54) == 53
  {
    assert Hash.HashFrom("aj", 157, 54, 2, 53) == 53;
    assert Hash.HashFrom("bo", 157, 54, 2, 53) == 53;
    Hash.InitialHashesCoincide("aj");
    Hash.InitialHashesCoincide("bo");
  }

  /** Every attempt for "aj" or "bo" in a 54-bucket table lands on slot 53. */
  lemma StuckAt53(s: seq<Slot>, k: string)
    requires |s| == 54 && (k == "aj" || k == "bo")
    ensures forall b: nat :: Probe(s, k, b) == 53
  {
    HashAjBo();
    forall b: nat
      ensures Probe(s, k, b) == 53
    {
      assert Hash.GetHash(k, 54, b) == (53 + b * 54) % 54;
      Arith.ModShift(53, b, 54);
    }
  }

  /** Inserting "aj" into a new table fills slot 53. Inserting "bo" next never returns: each
      attempt lands on the slot "aj" holds, so the loop of `ht_insert` never meets an Empty slot. */
  lemma InsertCanHang()
    ensures Insert(New(), "aj", "x") == Done(Table(53, 54, 1, Buckets()[53 := Occupied("aj", "x")]))
    ensures Insert(Insert(New(), "aj", "x").value, "bo", "y") == Diverges
  {
    var t0 := New();
    StuckAt53(t0.slots, "aj");
    assert Load(t0) == 0;
    assert Locate(t0.slots, "aj") == AtEmpty(53);
    var t1 := Table(53, 54, 1, Buckets()[53 := Occupied("aj", "x")]);
    assert Insert(t0, "aj", "x") == Done(t1);
    StuckAt53(t1.slots, "bo");
    assert Load(t1) == 1;
    assert forall b :: 0 <= b < 54 ==> Passes(t1.slots[Probe(t1.slots, "bo", b)], "bo");
    assert Locate(t1.slots, "bo") == Cycles;
  }

  /** An absent key's search can turn from "absent" into a loop that never returns: "bo" is
      absent from a new table, but after "aj" is inserted the search for "bo" never exits. */
  lemma SearchTurnsIntoHang()
    ensures Search(New(), "bo") == Done(None)
    ensures Insert(New(), "aj", "x").Done?
    ensures Search(Insert(New(), "aj", "x").value, "bo") == Diverges
  {
    var t0 := New();
    StuckAt53(t0.slots, "bo");
    assert Locate(t0.slots, "bo") == AtEmpty(53);
    InsertCanHang();
    var t1 := Insert(t0, "aj", "x").value;
    StuckAt53(t1.slots, "bo");
    assert forall b :: 0 <= b < 54 ==> Passes(t1.slots[Probe(t1.slots, "bo", b)], "bo");
    assert Locate(t1.slots, "bo") == Cycles;
  }
}
