/** The type-inference rule set: a positive Datalog program over the input
    relation `ExprOf(Expr, ExprKind)` deriving `Bind(Name, Expr)` and
    `TypeOf(Expr, TypeKind)`, evaluated bottom-up to its least fixpoint, together
    with the arena that numbers the expressions it reads. */
module TypeCheck {

  /** A binder. */
  datatype Name = Name(n: nat)

  /** An expression id: a position in the expression arena. */
  datatype Expr = Expr(n: nat)

  /** The kind of an expression node; children are expression ids. Literal
      payloads are carried but never inspected by the rules. */
  datatype ExprKind =
    | Let(x: Name, value: Expr, body: Expr)
    | Var(x: Name)
    | Add(lhs: Expr, rhs: Expr)
    | Equ(lhs: Expr, rhs: Expr)
    | I32(i: int)
    | U32(u: nat)

  datatype TypeKind = I32 | U32 | Bool

  // ---------------------------------------------------------------------------
  // The arenas.

  /** The expression arena: an id is the position in `vec`. */
  class ExprMap {
    var vec: seq<ExprKind>

    constructor ()
      ensures vec == []
    {
      vec := [];
    }

    method New(expr: ExprKind) returns (id: Expr)
      modifies this
      ensures id == Expr(|old(vec)|)
      ensures vec == old(vec) + [expr]
      ensures id.n < |vec| && Get(id) == expr
    {
      id := Expr(|vec|);
      vec := vec + [expr];
    }

    /** The kind stored under `id`; an unknown id makes the source panic. */
    function Get(id: Expr): (k: ExprKind)
      reads this
      requires id.n < |vec|
      ensures k in vec
    {
      vec[id.n]
    }
  }

  /** Hands out fresh binders from a counter. */
  class NameMap {
    var counter: nat

    constructor ()
      ensures counter == 0
    {
      counter := 0;
    }

    method New() returns (x: Name)
      modifies this
      ensures x == Name(old(counter))
      ensures counter == old(counter) + 1
    {
      x := Name(counter);
      counter := counter + 1;
    }
  }

  // ---------------------------------------------------------------------------
  // Relations and rules.

  /** The input relation `ExprOf` loaded from an arena: one fact per position. */
  function ExprOfFacts(vec: seq<ExprKind>): set<(Expr, ExprKind)> {
    set i | 0 <= i < |vec| :: (Expr(i), vec[i])
  }

  /** The two derived relations. */
  datatype Db = Db(bind: set<(Name, Expr)>, typeOf: set<(Expr, TypeKind)>)

  const EmptyDb := Db({}, {})

  predicate Sub(a: Db, b: Db) {
    a.bind <= b.bind && a.typeOf <= b.typeOf
  }

  const AllTypes: set<TypeKind> := {TypeKind.I32, TypeKind.U32, TypeKind.Bool}

  lemma AnyType(t: TypeKind)
    ensures t in AllTypes
  {
    match t
    case I32 =>
    case U32 =>
    case Bool =>
  }

  // Each rule of the program appears twice: as a clause that a set of facts
  // satisfies (what the rule declares), and as the set of head facts one
  // application of the rule derives from the current facts (what evaluation
  // does). Two `TypeOf` atoms sharing the variable `t` are written as one type
  // `t` joined with both expressions.

  /** Bind(x0, e0) <- ExprOf(_, Let(x0, e0, _)) */
  ghost predicate BindSatisfied(edb: set<(Expr, ExprKind)>, db: Db) {
    forall f :: f in edb && f.1.Let? ==> (f.1.x, f.1.value) in db.bind
  }

  function BindRule(edb: set<(Expr, ExprKind)>): set<(Name, Expr)> {
    set f | f in edb && f.1.Let? :: (f.1.x, f.1.value)
  }

  /** TypeOf(e0, t) <- ExprOf(e0, Let(_, _, e1)), TypeOf(e1, t) */
  ghost predicate LetSatisfied(edb: set<(Expr, ExprKind)>, db: Db) {
    forall f, t :: f in edb && f.1.Let? && (f.1.body, t) in db.typeOf ==> (f.0, t) in db.typeOf
  }

  function LetRule(edb: set<(Expr, ExprKind)>, typeOf: set<(Expr, TypeKind)>): set<(Expr, TypeKind)> {
    set f, t | f in edb && t in AllTypes && f.1.Let? && (f.1.body, t) in typeOf :: (f.0, t)
  }

  /** TypeOf(e0, t) <- ExprOf(e0, Var(x0)), Bind(x0, e1), TypeOf(e1, t) */
  ghost predicate VarSatisfied(edb: set<(Expr, ExprKind)>, db: Db) {
    forall f, e1, t {:trigger (f.1.x, e1) in db.bind, (e1, t) in db.typeOf}
      :: f in edb && f.1.Var? && (f.1.x, e1) in db.bind && (e1, t) in db.typeOf ==> (f.0, t) in db.typeOf
  }

  function VarRule(edb: set<(Expr, ExprKind)>, bind: set<(Name, Expr)>, typeOf: set<(Expr, TypeKind)>): set<(Expr, TypeKind)> {
    set f, b, t | f in edb && b in bind && t in AllTypes && f.1.Var? && b.0 == f.1.x && (b.1, t) in typeOf :: (f.0, t)
  }

  /** TypeOf(e0, Bool) <- ExprOf(e0, Equ(e1, e2)), TypeOf(e1, t), TypeOf(e2, t) */
  ghost predicate EquSatisfied(edb: set<(Expr, ExprKind)>, db: Db) {
    forall f, t :: f in edb && f.1.Equ? && (f.1.lhs, t) in db.typeOf && (f.1.rhs, t) in db.typeOf
      ==> (f.0, TypeKind.Bool) in db.typeOf
  }

  function EquRule(edb: set<(Expr, ExprKind)>, typeOf: set<(Expr, TypeKind)>): set<(Expr, TypeKind)> {
    set f, t | f in edb && t in AllTypes && f.1.Equ? && (f.1.lhs, t) in typeOf && (f.1.rhs, t) in typeOf :: (f.0, TypeKind.Bool)
  }

  /** TypeOf(e0, t) <- ExprOf(e0, Add(e1, e2)), TypeOf(e1, t), TypeOf(e2, t) */
  ghost predicate AddSatisfied(edb: set<(Expr, ExprKind)>, db: Db) {
    forall f, t :: f in edb && f.1.Add? && (f.1.lhs, t) in db.typeOf && (f.1.rhs, t) in db.typeOf
      ==> (f.0, t) in db.typeOf
  }

  function AddRule(edb: set<(Expr, ExprKind)>, typeOf: set<(Expr, TypeKind)>): set<(Expr, TypeKind)> {
    set f, t | f in edb && t in AllTypes && f.1.Add? && (f.1.lhs, t) in typeOf && (f.1.rhs, t) in typeOf :: (f.0, t)
  }

  /** TypeOf(e0, I32) <- ExprOf(e0, I32(_))  and  TypeOf(e0, U32) <- ExprOf(e0, U32(_)) */
  ghost predicate LiteralsSatisfied(edb: set<(Expr, ExprKind)>, db: Db) {
    && (forall f :: f in edb && f.1.I32? ==> (f.0, TypeKind.I32) in db.typeOf)
    && (forall f :: f in edb && f.1.U32? ==> (f.0, TypeKind.U32) in db.typeOf)
  }

  function LiteralRules(edb: set<(Expr, ExprKind)>): set<(Expr, TypeKind)> {
    (set f | f in edb && f.1.I32? :: (f.0, TypeKind.I32)) + (set f | f in edb && f.1.U32? :: (f.0, TypeKind.U32))
  }

  /** One application of every rule to the current facts. */
  function Derive(edb: set<(Expr, ExprKind)>, db: Db): Db {
    Db(BindRule(edb),
       LetRule(edb, db.typeOf) + VarRule(edb, db.bind, db.typeOf) + EquRule(edb, db.typeOf)
       + AddRule(edb, db.typeOf) + LiteralRules(edb))
  }

  /** `db` satisfies every rule: whenever a rule's body holds, its head is present. */
  ghost predicate Closed(edb: set<(Expr, ExprKind)>, db: Db) {
    && BindSatisfied(edb, db) && LetSatisfied(edb, db) && VarSatisfied(edb, db)
    && EquSatisfied(edb, db) && AddSatisfied(edb, db) && LiteralsSatisfied(edb, db)
  }

  /** `m` is the least set of facts satisfying every rule. */
  ghost predicate IsLeastModel(edb: set<(Expr, ExprKind)>, m: Db) {
    Closed(edb, m) && forall d :: Closed(edb, d) ==> Sub(m, d)
  }

  /** The finite universe of derivable facts: the binders of the lets, and every
      expression with an `ExprOf` fact paired with every type. */
  function Universe(edb: set<(Expr, ExprKind)>): Db {
    Db(BindRule(edb), set f, t | f in edb && t in AllTypes :: (f.0, t))
  }

  function Size(d: Db): nat {
    |d.bind| + |d.typeOf|
  }

  // ---------------------------------------------------------------------------
  // One round of evaluation.

  lemma LetRuleMonotone(edb1: set<(Expr, ExprKind)>, edb2: set<(Expr, ExprKind)>, t1: set<(Expr, TypeKind)>, t2: set<(Expr, TypeKind)>)
    requires edb1 <= edb2 && t1 <= t2
    ensures LetRule(edb1, t1) <= LetRule(edb2, t2)
  {
  }

  lemma VarRuleMonotone(edb1: set<(Expr, ExprKind)>, edb2: set<(Expr, ExprKind)>, b1: set<(Name, Expr)>, b2: set<(Name, Expr)>,
                        t1: set<(Expr, TypeKind)>, t2: set<(Expr, TypeKind)>)
    requires edb1 <= edb2 && b1 <= b2 && t1 <= t2
    ensures VarRule(edb1, b1, t1) <= VarRule(edb2, b2, t2)
  {
  }

  lemma EquRuleMonotone(edb1: set<(Expr, ExprKind)>, edb2: set<(Expr, ExprKind)>, t1: set<(Expr, TypeKind)>, t2: set<(Expr, TypeKind)>)
    requires edb1 <= edb2 && t1 <= t2
    ensures EquRule(edb1, t1) <= EquRule(edb2, t2)
  {
  }

  lemma AddRuleMonotone(edb1: set<(Expr, ExprKind)>, edb2: set<(Expr, ExprKind)>, t1: set<(Expr, TypeKind)>, t2: set<(Expr, TypeKind)>)
    requires edb1 <= edb2 && t1 <= t2
    ensures AddRule(edb1, t1) <= AddRule(edb2, t2)
  {
  }

  /** Applying the rules to more facts, with more input, derives more facts. */
  lemma DeriveMonotone(edb1: set<(Expr, ExprKind)>, edb2: set<(Expr, ExprKind)>, d1: Db, d2: Db)
    requires edb1 <= edb2 && Sub(d1, d2)
    ensures Sub(Derive(edb1, d1), Derive(edb2, d2))
  {
    LetRuleMonotone(edb1, edb2, d1.typeOf, d2.typeOf);
    VarRuleMonotone(edb1, edb2, d1.bind, d2.bind, d1.typeOf, d2.typeOf);
    EquRuleMonotone(edb1, edb2, d1.typeOf, d2.typeOf);
    AddRuleMonotone(edb1, edb2, d1.typeOf, d2.typeOf);
    assert LiteralRules(edb1) <= LiteralRules(edb2);
    assert BindRule(edb1) <= BindRule(edb2);
  }

  lemma UnionBelow<T>(a: set<T>, b: set<T>, c: set<T>, e: set<T>, f: set<T>, s: set<T>)
    ensures a + b + c + e + f <= s <==> a <= s && b <= s && c <= s && e <= s && f <= s
  {
  }

  // Each rule's clause holds exactly when one application of the rule derives
  // nothing new; one lemma per rule and direction.

  lemma BindRuleSound(edb: set<(Expr, ExprKind)>, d: Db)
    requires BindSatisfied(edb, d)
    ensures BindRule(edb) <= d.bind
  {
    forall h | h in BindRule(edb) ensures h in d.bind {
      var f :| f in edb && f.1.Let? && h == (f.1.x, f.1.value);
    }
  }

  lemma BindRuleComplete(edb: set<(Expr, ExprKind)>, d: Db)
    requires BindRule(edb) <= d.bind
    ensures BindSatisfied(edb, d)
  {
    forall f | f in edb && f.1.Let? ensures (f.1.x, f.1.value) in d.bind {
      assert (f.1.x, f.1.value) in BindRule(edb);
    }
  }

  lemma LetRuleSound(edb: set<(Expr, ExprKind)>, d: Db)
    requires LetSatisfied(edb, d)
    ensures LetRule(edb, d.typeOf) <= d.typeOf
  {
    forall h | h in LetRule(edb, d.typeOf) ensures h in d.typeOf {
      var f, t :| f in edb && t in AllTypes && f.1.Let? && (f.1.body, t) in d.typeOf && h == (f.0, t);
    }
  }

  lemma LetRuleComplete(edb: set<(Expr, ExprKind)>, d: Db)
    requires LetRule(edb, d.typeOf) <= d.typeOf
    ensures LetSatisfied(edb, d)
  {
    forall f, t | f in edb && f.1.Let? && (f.1.body, t) in d.typeOf ensures (f.0, t) in d.typeOf {
      AnyType(t);
      assert (f.0, t) in LetRule(edb, d.typeOf);
    }
  }

  lemma VarRuleSound(edb: set<(Expr, ExprKind)>, d: Db)
    requires VarSatisfied(edb, d)
    ensures VarRule(edb, d.bind, d.typeOf) <= d.typeOf
  {
    forall h | h in VarRule(edb, d.bind, d.typeOf) ensures h in d.typeOf {
      var f, b, t :| f in edb && b in d.bind && t in AllTypes && f.1.Var? && b.0 == f.1.x && (b.1, t) in d.typeOf && h == (f.0, t);
      assert (f.1.x, b.1) in d.bind;
    }
  }

  lemma VarRuleComplete(edb: set<(Expr, ExprKind)>, d: Db)
    requires VarRule(edb, d.bind, d.typeOf) <= d.typeOf
    ensures VarSatisfied(edb, d)
  {
    forall f, e1, t {:trigger (f.1.x, e1) in d.bind, (e1, t) in d.typeOf}
      | f in edb && f.1.Var? && (f.1.x, e1) in d.bind && (e1, t) in d.typeOf
      ensures (f.0, t) in d.typeOf
    {
      AnyType(t);
      assert (f.0, t) in VarRule(edb, d.bind, d.typeOf) by {
        var b := (f.1.x, e1);
        assert b in d.bind && b.0 == f.1.x && (b.1, t) in d.typeOf;
      }
    }
  }

  lemma EquRuleSound(edb: set<(Expr, ExprKind)>, d: Db)
    requires EquSatisfied(edb, d)
    ensures EquRule(edb, d.typeOf) <= d.typeOf
  {
    forall h | h in EquRule(edb, d.typeOf) ensures h in d.typeOf {
      var f, t :| f in edb && t in AllTypes && f.1.Equ? && (f.1.lhs, t) in d.typeOf && (f.1.rhs, t) in d.typeOf
                   && h == (f.0, TypeKind.Bool);
    }
  }

  lemma EquRuleComplete(edb: set<(Expr, ExprKind)>, d: Db)
    requires EquRule(edb, d.typeOf) <= d.typeOf
    ensures EquSatisfied(edb, d)
  {
    forall f, t | f in edb && f.1.Equ? && (f.1.lhs, t) in d.typeOf && (f.1.rhs, t) in d.typeOf
      ensures (f.0, TypeKind.Bool) in d.typeOf
    {
      AnyType(t);
      assert (f.0, TypeKind.Bool) in EquRule(edb, d.typeOf);
    }
  }

  lemma AddRuleSound(edb: set<(Expr, ExprKind)>, d: Db)
    requires AddSatisfied(edb, d)
    ensures AddRule(edb, d.typeOf) <= d.typeOf
  {
    forall h | h in AddRule(edb, d.typeOf) ensures h in d.typeOf {
      var f, t :| f in edb && t in AllTypes && f.1.Add? && (f.1.lhs, t) in d.typeOf && (f.1.rhs, t) in d.typeOf && h == (f.0, t);
    }
  }

  lemma AddRuleComplete(edb: set<(Expr, ExprKind)>, d: Db)
    requires AddRule(edb, d.typeOf) <= d.typeOf
    ensures AddSatisfied(edb, d)
  {
    forall f, t | f in edb && f.1.Add? && (f.1.lhs, t) in d.typeOf && (f.1.rhs, t) in d.typeOf
      ensures (f.0, t) in d.typeOf
    {
      AnyType(t);
      assert (f.0, t) in AddRule(edb, d.typeOf);
    }
  }

  lemma LiteralRulesSound(edb: set<(Expr, ExprKind)>, d: Db)
    requires LiteralsSatisfied(edb, d)
    ensures LiteralRules(edb) <= d.typeOf
  {
    forall h | h in LiteralRules(edb) ensures h in d.typeOf {
      var f :| f in edb && ((f.1.I32? && h == (f.0, TypeKind.I32)) || (f.1.U32? && h == (f.0, TypeKind.U32)));
    }
  }

  lemma LiteralRulesComplete(edb: set<(Expr, ExprKind)>, d: Db)
    requires LiteralRules(edb) <= d.typeOf
    ensures LiteralsSatisfied(edb, d)
  {
    forall f | f in edb && f.1.I32? ensures (f.0, TypeKind.I32) in d.typeOf {
      assert (f.0, TypeKind.I32) in LiteralRules(edb);
    }
    forall f | f in edb && f.1.U32? ensures (f.0, TypeKind.U32) in d.typeOf {
      assert (f.0, TypeKind.U32) in LiteralRules(edb);
    }
  }

  /** Satisfying every rule is the same as being a post-fixpoint of one round of
      evaluation: a round derives nothing that is not already there. */
  lemma ClosedIffDerive(edb: set<(Expr, ExprKind)>, d: Db)
    ensures Closed(edb, d) <==> Sub(Derive(edb, d), d)
  {
    UnionBelow(LetRule(edb, d.typeOf), VarRule(edb, d.bind, d.typeOf), EquRule(edb, d.typeOf),
               AddRule(edb, d.typeOf), LiteralRules(edb), d.typeOf);
    if Closed(edb, d) {
      BindRuleSound(edb, d);
      LetRuleSound(edb, d);
      VarRuleSound(edb, d);
      EquRuleSound(edb, d);
      AddRuleSound(edb, d);
      LiteralRulesSound(edb, d);
    }
    if Sub(Derive(edb, d), d) {
      BindRuleComplete(edb, d);
      LetRuleComplete(edb, d);
      VarRuleComplete(edb, d);
      EquRuleComplete(edb, d);
      AddRuleComplete(edb, d);
      LiteralRulesComplete(edb, d);
    }
  }

  lemma InUniverse(edb: set<(Expr, ExprKind)>, f: (Expr, ExprKind), t: TypeKind)
    requires f in edb
    ensures (f.0, t) in Universe(edb).typeOf
  {
    AnyType(t);
  }

  lemma LetRuleInUniverse(edb: set<(Expr, ExprKind)>, d: Db)
    ensures LetRule(edb, d.typeOf) <= Universe(edb).typeOf
  {
    forall h | h in LetRule(edb, d.typeOf) ensures h in Universe(edb).typeOf {
      var f, t :| f in edb && t in AllTypes && f.1.Let? && (f.1.body, t) in d.typeOf && h == (f.0, t);
      InUniverse(edb, f, t);
    }
  }

  lemma VarRuleInUniverse(edb: set<(Expr, ExprKind)>, d: Db)
    ensures VarRule(edb, d.bind, d.typeOf) <= Universe(edb).typeOf
  {
    forall h | h in VarRule(edb, d.bind, d.typeOf) ensures h in Universe(edb).typeOf {
      var f, b, t :| f in edb && b in d.bind && t in AllTypes && f.1.Var? && b.0 == f.1.x && (b.1, t) in d.typeOf && h == (f.0, t);
      InUniverse(edb, f, t);
    }
  }

  lemma EquRuleInUniverse(edb: set<(Expr, ExprKind)>, d: Db)
    ensures EquRule(edb, d.typeOf) <= Universe(edb).typeOf
  {
    forall h | h in EquRule(edb, d.typeOf) ensures h in Universe(edb).typeOf {
      var f, t :| f in edb && t in AllTypes && f.1.Equ? && (f.1.lhs, t) in d.typeOf && (f.1.rhs, t) in d.typeOf
                   && h == (f.0, TypeKind.Bool);
      InUniverse(edb, f, TypeKind.Bool);
    }
  }

  lemma AddRuleInUniverse(edb: set<(Expr, ExprKind)>, d: Db)
    ensures AddRule(edb, d.typeOf) <= Universe(edb).typeOf
  {
    forall h | h in AddRule(edb, d.typeOf) ensures h in Universe(edb).typeOf {
      var f, t :| f in edb && t in AllTypes && f.1.Add? && (f.1.lhs, t) in d.typeOf && (f.1.rhs, t) in d.typeOf && h == (f.0, t);
      InUniverse(edb, f, t);
    }
  }

  lemma LiteralRulesInUniverse(edb: set<(Expr, ExprKind)>)
    ensures LiteralRules(edb) <= Universe(edb).typeOf
  {
    forall h | h in LiteralRules(edb) ensures h in Universe(edb).typeOf {
      var f :| f in edb && ((f.1.I32? && h == (f.0, TypeKind.I32)) || (f.1.U32? && h == (f.0, TypeKind.U32)));
      InUniverse(edb, f, h.1);
    }
  }

  /** Whatever the current facts, a round derives only facts of the universe. */
  lemma DeriveInUniverse(edb: set<(Expr, ExprKind)>, d: Db)
    ensures Sub(Derive(edb, d), Universe(edb))
  {
    LetRuleInUniverse(edb, d);
    VarRuleInUniverse(edb, d);
    EquRuleInUniverse(edb, d);
    AddRuleInUniverse(edb, d);
    LiteralRulesInUniverse(edb);
    UnionBelow(LetRule(edb, d.typeOf), VarRule(edb, d.bind, d.typeOf), EquRule(edb, d.typeOf),
               AddRule(edb, d.typeOf), LiteralRules(edb), Universe(edb).typeOf);
  }

  lemma SizeGrows(a: Db, b: Db)
    requires Sub(a, b) && a != b
    ensures Size(a) < Size(b)
  {
    if a.bind == b.bind {
      assert a.typeOf < b.typeOf;
      assert |b.typeOf| == |a.typeOf| + |b.typeOf - a.typeOf|;
    } else {
      assert a.bind < b.bind;
      assert |b.bind| == |a.bind| + |b.bind - a.bind|;
      assert |a.typeOf| <= |b.typeOf| by {
        assert |b.typeOf| == |a.typeOf| + |b.typeOf - a.typeOf|;
      }
    }
  }

  lemma SizeBounded(a: Db, b: Db)
    requires Sub(a, b)
    ensures Size(a) <= Size(b)
  {
    assert |b.typeOf| == |a.typeOf| + |b.typeOf - a.typeOf|;
    assert |b.bind| == |a.bind| + |b.bind - a.bind|;
  }

  /** Naive bottom-up evaluation: apply every rule to the current facts until a
      round adds nothing. The result is the least model of the rules. */
  method Run(edb: set<(Expr, ExprKind)>) returns (m: Db)
    ensures IsLeastModel(edb, m)
  {
    m := EmptyDb;
    var next := Derive(edb, m);
    DeriveInUniverse(edb, m);
    while next != m
      invariant next == Derive(edb, m)
      invariant Sub(m, next) && Sub(next, Universe(edb))
      invariant forall d :: Closed(edb, d) ==> Sub(m, d)
      decreases Size(Universe(edb)) - Size(m)
    {
      SizeGrows(m, next);
      SizeBounded(next, Universe(edb));
      forall d | Closed(edb, d)
        ensures Sub(next, d)
      {
        DeriveMonotone(edb, edb, m, d);
        ClosedIffDerive(edb, d);
      }
      DeriveMonotone(edb, edb, m, next);
      DeriveInUniverse(edb, next);
      m := next;
      next := Derive(edb, m);
    }
    ClosedIffDerive(edb, m);
  }

  /** `typecheck`: load `ExprOf` from the arena and run the rules. */
  method Typecheck(exprs: ExprMap) returns (m: Db)
    ensures IsLeastModel(ExprOfFacts(exprs.vec), m)
  {
    var edb := ExprOfFacts(exprs.vec);
    m := Run(edb);
  }

  // ---------------------------------------------------------------------------
  // Properties of the least model.

  /** The loaded relation holds exactly the pairs (Expr(i), vec[i]), so each
      expression has exactly one kind. */
  lemma ExprOfExactly(vec: seq<ExprKind>, e: Expr, k: ExprKind)
    ensures (e, k) in ExprOfFacts(vec) <==> e.n < |vec| && vec[e.n] == k
  {
    if e.n < |vec| && vec[e.n] == k {
      assert (Expr(e.n), vec[e.n]) in ExprOfFacts(vec);
    }
  }

  /** Every fact of the least model has a rule that derives it from the model:
      the least model is a fixpoint of the rules, not just closed under them. */
  lemma LeastModelIsFixpoint(edb: set<(Expr, ExprKind)>, m: Db)
    requires IsLeastModel(edb, m)
    ensures Derive(edb, m) == m
  {
    var d := Derive(edb, m);
    ClosedIffDerive(edb, m);
    DeriveMonotone(edb, edb, d, m);
    ClosedIffDerive(edb, d);
    LeastBelow(edb, m, d);
    SubAntisymmetric(m, d);
  }

  lemma LeastBelow(edb: set<(Expr, ExprKind)>, m: Db, d: Db)
    requires IsLeastModel(edb, m) && Closed(edb, d)
    ensures Sub(m, d)
  {
  }

  lemma SubAntisymmetric(a: Db, b: Db)
    requires Sub(a, b) && Sub(b, a)
    ensures a == b
  {
  }

  /** Evaluation is deterministic: there is one least model. */
  lemma LeastModelUnique(edb: set<(Expr, ExprKind)>, m1: Db, m2: Db)
    requires IsLeastModel(edb, m1) && IsLeastModel(edb, m2)
    ensures m1 == m2
  {
    assert Sub(m1, m2) && Sub(m2, m1);
  }

  /** No negation: more input facts never remove a derived fact. */
  lemma LeastModelMonotone(edb1: set<(Expr, ExprKind)>, edb2: set<(Expr, ExprKind)>, m1: Db, m2: Db)
    requires edb1 <= edb2 && IsLeastModel(edb1, m1) && IsLeastModel(edb2, m2)
    ensures Sub(m1, m2)
  {
    DeriveMonotone(edb1, edb2, m2, m2);
    assert Closed(edb1, m2);
  }

  /** Bind(x, e0) holds exactly for the lets `let x = e0 in _` present in ExprOf. */
  lemma BindExactly(edb: set<(Expr, ExprKind)>, m: Db, x: Name, e0: Expr)
    requires IsLeastModel(edb, m)
    ensures (x, e0) in m.bind <==> exists f :: f in edb && f.1.Let? && f.1.x == x && f.1.value == e0
  {
    LeastModelIsFixpoint(edb, m);
    BindRuleMembers(edb, x, e0);
  }

  lemma BindRuleMembers(edb: set<(Expr, ExprKind)>, x: Name, e0: Expr)
    ensures (x, e0) in BindRule(edb) <==> exists f :: f in edb && f.1.Let? && f.1.x == x && f.1.value == e0
  {
    if (x, e0) in BindRule(edb) {
      var f :| f in edb && f.1.Let? && (x, e0) == (f.1.x, f.1.value);
    }
  }

  /** The body of some rule for `TypeOf(e, t)` holds in `m`, given that `e` has kind `k`. */
  ghost predicate Justified(k: ExprKind, t: TypeKind, m: Db) {
    match k
    case Let(_, _, body) => (body, t) in m.typeOf
    case Var(x) => exists e1 :: (x, e1) in m.bind && (e1, t) in m.typeOf
    case Equ(lhs, rhs) => t == TypeKind.Bool && exists t' :: (lhs, t') in m.typeOf && (rhs, t') in m.typeOf
    case Add(lhs, rhs) => (lhs, t) in m.typeOf && (rhs, t) in m.typeOf
    case I32(_) => t == TypeKind.I32
    case U32(_) => t == TypeKind.U32
  }

  /** A model closed under the rules contains every justified type. */
  lemma ClosedHasJustified(edb: set<(Expr, ExprKind)>, m: Db, e: Expr, k: ExprKind, t: TypeKind)
    requires Closed(edb, m) && (e, k) in edb && Justified(k, t, m)
    ensures (e, t) in m.typeOf
  {
    var f := (e, k);
    match k
    case Let(_, _, _) =>
    case Var(x) =>
      var e1 :| (x, e1) in m.bind && (e1, t) in m.typeOf;
    case Equ(_, _) =>
      var t' :| (k.lhs, t') in m.typeOf && (k.rhs, t') in m.typeOf;
    case Add(_, _) =>
    case I32(_) =>
    case U32(_) =>
  }

  /** Every fact a round derives is justified by the facts it started from. */
  lemma DeriveJustified(edb: set<(Expr, ExprKind)>, d: Db, h: (Expr, TypeKind))
    requires h in Derive(edb, d).typeOf
    ensures exists k :: (h.0, k) in edb && Justified(k, h.1, d)
  {
    if h in LetRule(edb, d.typeOf) {
      LetRuleJustified(edb, d, h);
    } else if h in VarRule(edb, d.bind, d.typeOf) {
      VarRuleJustified(edb, d, h);
    } else if h in EquRule(edb, d.typeOf) {
      EquRuleJustified(edb, d, h);
    } else if h in AddRule(edb, d.typeOf) {
      AddRuleJustified(edb, d, h);
    } else {
      LiteralRulesJustified(edb, d, h);
    }
  }

  lemma LetRuleJustified(edb: set<(Expr, ExprKind)>, d: Db, h: (Expr, TypeKind))
    requires h in LetRule(edb, d.typeOf)
    ensures exists k :: (h.0, k) in edb && Justified(k, h.1, d)
  {
    var f, t :| f in edb && t in AllTypes && f.1.Let? && (f.1.body, t) in d.typeOf && h == (f.0, t);
    assert Justified(f.1, h.1, d);
  }

  lemma VarRuleJustified(edb: set<(Expr, ExprKind)>, d: Db, h: (Expr, TypeKind))
    requires h in VarRule(edb, d.bind, d.typeOf)
    ensures exists k :: (h.0, k) in edb && Justified(k, h.1, d)
  {
    var f, b, t :| f in edb && b in d.bind && t in AllTypes && f.1.Var? && b.0 == f.1.x && (b.1, t) in d.typeOf && h == (f.0, t);
    assert (f.1.x, b.1) in d.bind;
    assert Justified(f.1, h.1, d);
  }

  lemma EquRuleJustified(edb: set<(Expr, ExprKind)>, d: Db, h: (Expr, TypeKind))
    requires h in EquRule(edb, d.typeOf)
    ensures exists k :: (h.0, k) in edb && Justified(k, h.1, d)
  {
    var f, t :| f in edb && t in AllTypes && f.1.Equ? && (f.1.lhs, t) in d.typeOf && (f.1.rhs, t) in d.typeOf
                 && h == (f.0, TypeKind.Bool);
    assert Justified(f.1, h.1, d);
  }

  lemma AddRuleJustified(edb: set<(Expr, ExprKind)>, d: Db, h: (Expr, TypeKind))
    requires h in AddRule(edb, d.typeOf)
    ensures exists k :: (h.0, k) in edb && Justified(k, h.1, d)
  {
    var f, t :| f in edb && t in AllTypes && f.1.Add? && (f.1.lhs, t) in d.typeOf && (f.1.rhs, t) in d.typeOf && h == (f.0, t);
    assert Justified(f.1, h.1, d);
  }

  lemma LiteralRulesJustified(edb: set<(Expr, ExprKind)>, d: Db, h: (Expr, TypeKind))
    requires h in LiteralRules(edb)
    ensures exists k :: (h.0, k) in edb && Justified(k, h.1, d)
  {
    var f :| f in edb && ((f.1.I32? && h == (f.0, TypeKind.I32)) || (f.1.U32? && h == (f.0, TypeKind.U32)));
    assert Justified(f.1, h.1, d);
  }

  /** Every type in the least model is justified by one of the expression's
      kinds: nothing is derived without a rule. */
  lemma LeastModelJustified(edb: set<(Expr, ExprKind)>, m: Db, e: Expr, t: TypeKind)
    requires IsLeastModel(edb, m) && (e, t) in m.typeOf
    ensures exists k :: (e, k) in edb && Justified(k, t, m)
  {
    LeastModelIsFixpoint(edb, m);
    DeriveJustified(edb, m, (e, t));
  }

  /** For the relation loaded from an arena, where every expression has exactly
      one kind, the least model types an expression exactly as its kind's rule
      says: a `let` has its body's types, a variable the types of the expressions
      its name is bound to, an addition the types both operands share, an
      equality `Bool` when both operands share some type, and a literal its own
      type. */
  lemma TypeOfExactly(vec: seq<ExprKind>, m: Db, i: nat, t: TypeKind)
    requires IsLeastModel(ExprOfFacts(vec), m) && i < |vec|
    ensures (Expr(i), t) in m.typeOf <==> Justified(vec[i], t, m)
  {
    var edb := ExprOfFacts(vec);
    ExprOfExactly(vec, Expr(i), vec[i]);
    if (Expr(i), t) in m.typeOf {
      LeastModelJustified(edb, m, Expr(i), t);
      var k :| (Expr(i), k) in edb && Justified(k, t, m);
      ExprOfExactly(vec, Expr(i), k);
    } else if Justified(vec[i], t, m) {
      ClosedHasJustified(edb, m, Expr(i), vec[i], t);
    }
  }

  /** Only expressions of the arena get a type. */
  lemma TypedExprsInArena(vec: seq<ExprKind>, m: Db, e: Expr, t: TypeKind)
    requires IsLeastModel(ExprOfFacts(vec), m) && (e, t) in m.typeOf
    ensures e.n < |vec|
  {
    LeastModelJustified(ExprOfFacts(vec), m, e, t);
    var k :| (e, k) in ExprOfFacts(vec) && Justified(k, t, m);
    ExprOfExactly(vec, e, k);
  }
}
