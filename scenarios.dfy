/** The programs built by the test harness of the type checker, each run through
    `Typecheck`, with exactly the facts the rules derive for them. Each scenario
    is a method that builds the arena with `ExprMap.New` and `NameMap.New` in the
    harness's order, and a lemma that pins down the least model of that arena. */
module Scenarios {
  import opened TypeCheck

  const N0 := Name(0)
  const E0 := Expr(0)
  const E1 := Expr(1)
  const E2 := Expr(2)
  const E3 := Expr(3)
  const E4 := Expr(4)
  const E5 := Expr(5)
  const E6 := Expr(6)

  // ---------------------------------------------------------------------------
  // test1: `let x = 50 in x`.

  const Test1Arena: seq<ExprKind> := [ExprKind.I32(50), ExprKind.Var(N0), ExprKind.Let(N0, E0, E1)]

  const Test1Facts: Db :=
    Db({(N0, E0)}, {(E0, TypeKind.I32), (E1, TypeKind.I32), (E2, TypeKind.I32)})

  lemma Test1Edb()
    ensures var vec := Test1Arena; ExprOfFacts(vec) == {(E0, vec[0]), (E1, vec[1]), (E2, vec[2])}
  {
    var vec := Test1Arena;
    var edb := ExprOfFacts(vec);
    forall f | f in edb ensures f in {(E0, vec[0]), (E1, vec[1]), (E2, vec[2])} {
      var i :| 0 <= i < |vec| && f == (Expr(i), vec[i]);
    }
    ExprOfExactly(vec, E0, vec[0]);
    ExprOfExactly(vec, E1, vec[1]);
    ExprOfExactly(vec, E2, vec[2]);
  }

  lemma Test1Closed()
    ensures Closed(ExprOfFacts(Test1Arena), Test1Facts)
  {
    Test1Edb();
  }

  /** The least model of the arena is exactly the listed facts. */
  lemma Test1Model(m: Db)
    requires IsLeastModel(ExprOfFacts(Test1Arena), m)
    ensures m == Test1Facts
  {
    var vec := Test1Arena;
    var edb := ExprOfFacts(vec);
    Test1Edb();
    Test1Closed();
    LeastBelow(edb, m, Test1Facts);
    ClosedHasJustified(edb, m, E0, vec[0], TypeKind.I32);
    ClosedHasJustified(edb, m, E1, vec[1], TypeKind.I32);
    ClosedHasJustified(edb, m, E2, vec[2], TypeKind.I32);
    SubAntisymmetric(m, Test1Facts);
  }

  method Test1() returns (m: Db)
    ensures m == Test1Facts
  {
    var exprs := new ExprMap();
    var names := new NameMap();
    var e0 := exprs.New(ExprKind.I32(50));
    var n0 := names.New();
    var e1 := exprs.New(ExprKind.Var(n0));
    var e2 := exprs.New(ExprKind.Let(n0, e0, e1));
    m := Typecheck(exprs);
    assert exprs.vec == Test1Arena;
    Test1Model(m);
  }

  // ---------------------------------------------------------------------------
  // test2: `let x = 50 + 100 in x`.

  const Test2Arena: seq<ExprKind> :=
    [ExprKind.I32(50), ExprKind.I32(100), ExprKind.Add(E0, E1), ExprKind.Var(N0), ExprKind.Let(N0, E2, E3)]

  const Test2Facts: Db :=
    Db({(N0, E2)},
       {(E0, TypeKind.I32), (E1, TypeKind.I32), (E2, TypeKind.I32), (E3, TypeKind.I32), (E4, TypeKind.I32)})

  lemma Test2Edb()
    ensures var vec := Test2Arena; ExprOfFacts(vec) == {(E0, vec[0]), (E1, vec[1]), (E2, vec[2]), (E3, vec[3]), (E4, vec[4])}
  {
    var vec := Test2Arena;
    var edb := ExprOfFacts(vec);
    forall f | f in edb ensures f in {(E0, vec[0]), (E1, vec[1]), (E2, vec[2]), (E3, vec[3]), (E4, vec[4])} {
      var i :| 0 <= i < |vec| && f == (Expr(i), vec[i]);
    }
    ExprOfExactly(vec, E0, vec[0]);
    ExprOfExactly(vec, E1, vec[1]);
    ExprOfExactly(vec, E2, vec[2]);
    ExprOfExactly(vec, E3, vec[3]);
    ExprOfExactly(vec, E4, vec[4]);
  }

  lemma Test2Closed()
    ensures Closed(ExprOfFacts(Test2Arena), Test2Facts)
  {
    Test2Edb();
  }

  /** The least model of the arena is exactly the listed facts. */
  lemma Test2Model(m: Db)
    requires IsLeastModel(ExprOfFacts(Test2Arena), m)
    ensures m == Test2Facts
  {
    var vec := Test2Arena;
    var edb := ExprOfFacts(vec);
    Test2Edb();
    Test2Closed();
    LeastBelow(edb, m, Test2Facts);
    ClosedHasJustified(edb, m, E0, vec[0], TypeKind.I32);
    ClosedHasJustified(edb, m, E1, vec[1], TypeKind.I32);
    ClosedHasJustified(edb, m, E2, vec[2], TypeKind.I32);
    ClosedHasJustified(edb, m, E3, vec[3], TypeKind.I32);
    ClosedHasJustified(edb, m, E4, vec[4], TypeKind.I32);
    SubAntisymmetric(m, Test2Facts);
  }

  method Test2() returns (m: Db)
    ensures m == Test2Facts
  {
    var exprs := new ExprMap();
    var names := new NameMap();
    var e0 := exprs.New(ExprKind.I32(50));
    var e1 := exprs.New(ExprKind.I32(100));
    var e2 := exprs.New(ExprKind.Add(e0, e1));
    var n0 := names.New();
    var e3 := exprs.New(ExprKind.Var(n0));
    var e4 := exprs.New(ExprKind.Let(n0, e2, e3));
    m := Typecheck(exprs);
    assert exprs.vec == Test2Arena;
    Test2Model(m);
  }

  // ---------------------------------------------------------------------------
  // test3: `let x = 50 in 150 == x`.

  const Test3Arena: seq<ExprKind> :=
    [ExprKind.I32(50), ExprKind.I32(150), ExprKind.Var(N0), ExprKind.Equ(E1, E2), ExprKind.Let(N0, E0, E3)]

  const Test3Facts: Db :=
    Db({(N0, E0)},
       {(E0, TypeKind.I32), (E1, TypeKind.I32), (E2, TypeKind.I32), (E3, TypeKind.Bool), (E4, TypeKind.Bool)})

  lemma Test3Edb()
    ensures var vec := Test3Arena; ExprOfFacts(vec) == {(E0, vec[0]), (E1, vec[1]), (E2, vec[2]), (E3, vec[3]), (E4, vec[4])}
  {
    var vec := Test3Arena;
    var edb := ExprOfFacts(vec);
    forall f | f in edb ensures f in {(E0, vec[0]), (E1, vec[1]), (E2, vec[2]), (E3, vec[3]), (E4, vec[4])} {
      var i :| 0 <= i < |vec| && f == (Expr(i), vec[i]);
    }
    ExprOfExactly(vec, E0, vec[0]);
    ExprOfExactly(vec, E1, vec[1]);
    ExprOfExactly(vec, E2, vec[2]);
    ExprOfExactly(vec, E3, vec[3]);
    ExprOfExactly(vec, E4, vec[4]);
  }

  lemma Test3Closed()
    ensures Closed(ExprOfFacts(Test3Arena), Test3Facts)
  {
    Test3Edb();
  }

  /** The least model of the arena is exactly the listed facts. */
  lemma Test3Model(m: Db)
    requires IsLeastModel(ExprOfFacts(Test3Arena), m)
    ensures m == Test3Facts
  {
    var vec := Test3Arena;
    var edb := ExprOfFacts(vec);
    Test3Edb();
    Test3Closed();
    LeastBelow(edb, m, Test3Facts);
    ClosedHasJustified(edb, m, E0, vec[0], TypeKind.I32);
    ClosedHasJustified(edb, m, E1, vec[1], TypeKind.I32);
    ClosedHasJustified(edb, m, E2, vec[2], TypeKind.I32);
    ClosedHasJustified(edb, m, E3, vec[3], TypeKind.Bool);
    ClosedHasJustified(edb, m, E4, vec[4], TypeKind.Bool);
    SubAntisymmetric(m, Test3Facts);
  }

  method Test3() returns (m: Db)
    ensures m == Test3Facts
  {
    var exprs := new ExprMap();
    var names := new NameMap();
    var e0 := exprs.New(ExprKind.I32(50));
    var n0 := names.New();
    var e1 := exprs.New(ExprKind.I32(150));
    var e2 := exprs.New(ExprKind.Var(n0));
    var e3 := exprs.New(ExprKind.Equ(e1, e2));
    var e4 := exprs.New(ExprKind.Let(n0, e0, e3));
    m := Typecheck(exprs);
    assert exprs.vec == Test3Arena;
    Test3Model(m);
  }

  // ---------------------------------------------------------------------------
  // test4: `let x = 50 + 100 in 150 == x`.

  const Test4Arena: seq<ExprKind> :=
    [ExprKind.I32(50), ExprKind.I32(100), ExprKind.Add(E0, E1), ExprKind.I32(150), ExprKind.Var(N0),
     ExprKind.Equ(E3, E4), ExprKind.Let(N0, E2, E5)]

  const Test4Facts: Db :=
    Db({(N0, E2)},
       {(E0, TypeKind.I32), (E1, TypeKind.I32), (E2, TypeKind.I32), (E3, TypeKind.I32), (E4, TypeKind.I32),
        (E5, TypeKind.Bool), (E6, TypeKind.Bool)})

  lemma Test4Edb()
    ensures var vec := Test4Arena; ExprOfFacts(vec) == {(E0, vec[0]), (E1, vec[1]), (E2, vec[2]), (E3, vec[3]), (E4, vec[4]), (E5, vec[5]), (E6, vec[6])}
  {
    var vec := Test4Arena;
    var edb := ExprOfFacts(vec);
    forall f | f in edb
      ensures f in {(E0, vec[0]), (E1, vec[1]), (E2, vec[2]), (E3, vec[3]), (E4, vec[4]), (E5, vec[5]), (E6, vec[6])}
    {
      var i :| 0 <= i < |vec| && f == (Expr(i), vec[i]);
    }
    ExprOfExactly(vec, E0, vec[0]);
    ExprOfExactly(vec, E1, vec[1]);
    ExprOfExactly(vec, E2, vec[2]);
    ExprOfExactly(vec, E3, vec[3]);
    ExprOfExactly(vec, E4, vec[4]);
    ExprOfExactly(vec, E5, vec[5]);
    ExprOfExactly(vec, E6, vec[6]);
  }

  lemma Test4Closed()
    ensures Closed(ExprOfFacts(Test4Arena), Test4Facts)
  {
    Test4Edb();
  }

  /** The least model of the arena is exactly the listed facts. */
  lemma Test4Model(m: Db)
    requires IsLeastModel(ExprOfFacts(Test4Arena), m)
    ensures m == Test4Facts
  {
    var vec := Test4Arena;
    var edb := ExprOfFacts(vec);
    Test4Edb();
    Test4Closed();
    LeastBelow(edb, m, Test4Facts);
    ClosedHasJustified(edb, m, E0, vec[0], TypeKind.I32);
    ClosedHasJustified(edb, m, E1, vec[1], TypeKind.I32);
    ClosedHasJustified(edb, m, E2, vec[2], TypeKind.I32);
    ClosedHasJustified(edb, m, E3, vec[3], TypeKind.I32);
    ClosedHasJustified(edb, m, E4, vec[4], TypeKind.I32);
    ClosedHasJustified(edb, m, E5, vec[5], TypeKind.Bool);
    ClosedHasJustified(edb, m, E6, vec[6], TypeKind.Bool);
    SubAntisymmetric(m, Test4Facts);
  }

  method Test4() returns (m: Db)
    ensures m == Test4Facts
  {
    var exprs := new ExprMap();
    var names := new NameMap();
    var e0 := exprs.New(ExprKind.I32(50));
    var e1 := exprs.New(ExprKind.I32(100));
    var e2 := exprs.New(ExprKind.Add(e0, e1));
    var n0 := names.New();
    var e3 := exprs.New(ExprKind.I32(150));
    assert exprs.vec == Test4Arena[..4];
    var e4 := exprs.New(ExprKind.Var(n0));
    var e5 := exprs.New(ExprKind.Equ(e3, e4));
    var e6 := exprs.New(ExprKind.Let(n0, e2, e5));
    assert exprs.vec == Test4Arena;
    m := Typecheck(exprs);
    Test4Model(m);
  }

  // ---------------------------------------------------------------------------
  // test5: `let x = 50i32 in 150u32`: the let takes its body's type, and the
  // unused binding of a different type is no error.

  const Test5Arena: seq<ExprKind> := [ExprKind.I32(50), ExprKind.U32(150), ExprKind.Let(N0, E0, E1)]

  const Test5Facts: Db :=
    Db({(N0, E0)}, {(E0, TypeKind.I32), (E1, TypeKind.U32), (E2, TypeKind.U32)})

  lemma Test5Edb()
    ensures var vec := Test5Arena; ExprOfFacts(vec) == {(E0, vec[0]), (E1, vec[1]), (E2, vec[2])}
  {
    var vec := Test5Arena;
    var edb := ExprOfFacts(vec);
    forall f | f in edb ensures f in {(E0, vec[0]), (E1, vec[1]), (E2, vec[2])} {
      var i :| 0 <= i < |vec| && f == (Expr(i), vec[i]);
    }
    ExprOfExactly(vec, E0, vec[0]);
    ExprOfExactly(vec, E1, vec[1]);
    ExprOfExactly(vec, E2, vec[2]);
  }

  lemma Test5Closed()
    ensures Closed(ExprOfFacts(Test5Arena), Test5Facts)
  {
    Test5Edb();
  }

  /** The least model of the arena is exactly the listed facts. */
  lemma Test5Model(m: Db)
    requires IsLeastModel(ExprOfFacts(Test5Arena), m)
    ensures m == Test5Facts
  {
    var vec := Test5Arena;
    var edb := ExprOfFacts(vec);
    Test5Edb();
    Test5Closed();
    LeastBelow(edb, m, Test5Facts);
    ClosedHasJustified(edb, m, E0, vec[0], TypeKind.I32);
    ClosedHasJustified(edb, m, E1, vec[1], TypeKind.U32);
    ClosedHasJustified(edb, m, E2, vec[2], TypeKind.U32);
    SubAntisymmetric(m, Test5Facts);
  }

  method Test5() returns (m: Db)
    ensures m == Test5Facts
  {
    var exprs := new ExprMap();
    var names := new NameMap();
    var n0 := names.New();
    var e0 := exprs.New(ExprKind.I32(50));
    var e1 := exprs.New(ExprKind.U32(150));
    var e6 := exprs.New(ExprKind.Let(n0, e0, e1));
    m := Typecheck(exprs);
    assert exprs.vec == Test5Arena;
    Test5Model(m);
  }

  // ---------------------------------------------------------------------------
  // Mixed numeric kinds: `50i32 + 150u32` and `50i32 == 150u32` get no type at
  // all, since no rule combines an I32 with a U32 operand.

  const MixedArena: seq<ExprKind> := [ExprKind.I32(50), ExprKind.U32(150), ExprKind.Add(E0, E1), ExprKind.Equ(E0, E1)]

  const MixedFacts: Db := Db({}, {(E0, TypeKind.I32), (E1, TypeKind.U32)})

  lemma MixedEdb()
    ensures var vec := MixedArena; ExprOfFacts(vec) == {(E0, vec[0]), (E1, vec[1]), (E2, vec[2]), (E3, vec[3])}
  {
    var vec := MixedArena;
    var edb := ExprOfFacts(vec);
    forall f | f in edb ensures f in {(E0, vec[0]), (E1, vec[1]), (E2, vec[2]), (E3, vec[3])} {
      var i :| 0 <= i < |vec| && f == (Expr(i), vec[i]);
    }
    ExprOfExactly(vec, E0, vec[0]);
    ExprOfExactly(vec, E1, vec[1]);
    ExprOfExactly(vec, E2, vec[2]);
    ExprOfExactly(vec, E3, vec[3]);
  }

  lemma MixedClosed()
    ensures Closed(ExprOfFacts(MixedArena), MixedFacts)
  {
    MixedEdb();
  }

  /** The least model types the two literals and nothing else. */
  lemma MixedModel(m: Db)
    requires IsLeastModel(ExprOfFacts(MixedArena), m)
    ensures m == MixedFacts
    ensures forall t :: (E2, t) !in m.typeOf && (E3, t) !in m.typeOf
  {
    var vec := MixedArena;
    var edb := ExprOfFacts(vec);
    MixedEdb();
    MixedClosed();
    LeastBelow(edb, m, MixedFacts);
    ClosedHasJustified(edb, m, E0, vec[0], TypeKind.I32);
    ClosedHasJustified(edb, m, E1, vec[1], TypeKind.U32);
    SubAntisymmetric(m, MixedFacts);
  }
}
