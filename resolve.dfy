/** The path resolver: one recursive descent over an expression tree that decides
    which nodes denote access paths and, as it goes, interns those paths and records
    the Root, Parent and Use facts in a path interner. */
module Resolve {
  import opened Data

  /** Every child of a node was interned strictly before it. The source relies on
      this: a dangling id makes it panic and a cycle makes it recurse forever. */
  predicate ChildrenBelow(e: Expr, n: nat) {
    match e
    case Let(_, e0, e1) => e0.n < n && e1.n < n
    case Var(_) => true
    case Tuple(es) => forall c :: c in es ==> c.n < n
    case Project(e0, _) => e0.n < n
    case I32(_) => true
    case Str(_) => true
  }

  ghost predicate WellFormed(store: seq<Expr>) {
    forall i :: 0 <= i < |store| ==> ChildrenBelow(store[i], i)
  }

  /** Interning a node whose children are already in the arena, as building a
      tree bottom-up with `ExprInterner.Intern` does, keeps the arena well-formed. */
  lemma InternKeepsWellFormed(store: seq<Expr>, e: Expr)
    requires WellFormed(store) && ChildrenBelow(e, |store|)
    ensures WellFormed(store + [e])
  {
  }

  // ---------------------------------------------------------------------------
  // The descent, as a function of the interner's state.

  /** Records a use of the path a sub-expression denotes, if it denotes one. */
  function Consume(rs: (Option<PathId>, PathState), at: ExprId): PathState {
    match rs.0
    case Some(p) => PushUse(rs.1, p, at)
    case None => rs.1
  }

  /** Visits node `e`: the path it denotes, if any, and the interner afterwards. */
  function Walk(store: seq<Expr>, e: ExprId, s: PathState): (Option<PathId>, PathState)
    requires WellFormed(store) && e.n < |store|
    decreases e.n, 1, 0
  {
    match store[e.n]
    case Let(_, e0, e1) =>
      var s1 := Consume(Walk(store, e0, s), e0);
      // the body's use is recorded at the value expression, not at the body
      var s2 := Consume(Walk(store, e1, s1), e0);
      (None, s2)
    case Var(x) =>
      var (id, s1) := InternPath(s, Path.Var(x));
      (Some(id), PushRoot(s1, id, x))
    case Tuple(es) =>
      (None, WalkElems(store, es, e.n, s))
    case Project(e0, i) =>
      var (r0, s1) := Walk(store, e0, s);
      (match r0
       case Some(p0) =>
         var (id, s2) := InternPath(s1, Path.Project(p0, i));
         (Some(id), PushParent(s2, p0, id))
       case None => (None, s1))
    case I32(_) => (None, s)
    case Str(_) => (None, s)
  }

  /** Visits the elements of a tuple left to right, consuming each path-valued one
      at its own id; `bound` is the id of the tuple node. */
  function WalkElems(store: seq<Expr>, es: seq<ExprId>, bound: nat, s: PathState): PathState
    requires WellFormed(store) && bound <= |store|
    requires forall c :: c in es ==> c.n < bound
    decreases bound, 0, |es|
  {
    if es == [] then s
    else
      var last := es[|es| - 1];
      Consume(Walk(store, last, WalkElems(store, es[..|es| - 1], bound, s)), last)
  }

  // ---------------------------------------------------------------------------
  // The descent as the source writes it: a recursive method over a mutable interner.

  /** Visits node `e`, updating `paths` in place. */
  method ResolveNode(exprs: ExprInterner, e: ExprId, paths: PathInterner) returns (res: Option<PathId>)
    requires WellFormed(exprs.vec) && e.n < |exprs.vec|
    modifies paths
    ensures (res, paths.State()) == Walk(exprs.vec, e, old(paths.State()))
    decreases e.n
  {
    match exprs.Resolve(e)
    case Let(_, e0, e1) =>
      var r0 := ResolveNode(exprs, e0, paths);
      if r0.Some? {
        paths.AddUse(r0.value, e0);
      }
      var r1 := ResolveNode(exprs, e1, paths);
      if r1.Some? {
        paths.AddUse(r1.value, e0);
      }
      res := None;
    case Var(x) =>
      var id := paths.Intern(Path.Var(x));
      paths.AddRoot(id, x);
      res := Some(id);
    case Tuple(es) =>
      ghost var s0 := paths.State();
      for j := 0 to |es|
        invariant paths.State() == WalkElems(exprs.vec, es[..j], e.n, s0)
      {
        assert es[..j + 1][..j] == es[..j];
        var r := ResolveNode(exprs, es[j], paths);
        if r.Some? {
          paths.AddUse(r.value, es[j]);
        }
      }
      assert es[..|es|] == es;
      res := None;
    case Project(e0, i) =>
      var r0 := ResolveNode(exprs, e0, paths);
      if r0.Some? {
        var id := paths.Intern(Path.Project(r0.value, i));
        paths.AddParent(r0.value, id);
        res := Some(id);
      } else {
        res := None;
      }
    case I32(_) =>
      res := None;
    case Str(_) =>
      res := None;
  }

  /** Resolves the tree rooted at `id` into a fresh path interner. */
  method ResolvePaths(exprs: ExprInterner, id: ExprId) returns (paths: PathInterner)
    requires WellFormed(exprs.vec) && id.n < |exprs.vec|
    ensures fresh(paths)
    ensures paths.State() == Walk(exprs.vec, id, EmptyPaths).1
    ensures paths.Valid() && FactsResolvable(paths.State()) && ParentsBeforeChildren(paths.State())
  {
    paths := new PathInterner();
    var _ := ResolveNode(exprs, id, paths);
    ResolvePathsFacts(exprs.vec, id);
  }

  // ---------------------------------------------------------------------------
  // Reference semantics: what a node denotes and which facts it gives rise to.

  /** An access path written out: a binder followed by field selections. */
  datatype AccessPath = Named(name: NameId) | Field(base: AccessPath, index: Index)

  /** The access path node `e` denotes: a variable, or a field of something that
      denotes a path. Lets, tuples and literals denote none. */
  function PathOf(store: seq<Expr>, e: ExprId): Option<AccessPath>
    requires WellFormed(store) && e.n < |store|
    decreases e.n
  {
    match store[e.n]
    case Var(x) => Some(Named(x))
    case Project(e0, i) =>
      (match PathOf(store, e0)
       case Some(a) => Some(Field(a, i))
       case None => None)
    case _ => None
  }

  /** The facts a visit records, with every path id read as the access path it stands for. */
  datatype Facts = Facts(roots: seq<NameId>, parents: seq<(AccessPath, AccessPath)>, uses: seq<(AccessPath, ExprId)>)
  {
    function Then(other: Facts): Facts {
      Facts(roots + other.roots, parents + other.parents, uses + other.uses)
    }
  }

  const NoFacts := Facts([], [], [])

  /** A use of whatever `e` denotes, recorded at expression `at`. */
  function UseOf(store: seq<Expr>, e: ExprId, at: ExprId): Facts
    requires WellFormed(store) && e.n < |store|
  {
    match PathOf(store, e)
    case Some(a) => Facts([], [], [(a, at)])
    case None => NoFacts
  }

  /** The facts recorded while visiting node `e`, in order: a root per variable
      occurrence, a parent pair per projection of a path, a use per path-valued
      let value, let body (recorded at the value) and tuple element. */
  function Trace(store: seq<Expr>, e: ExprId): Facts
    requires WellFormed(store) && e.n < |store|
    decreases e.n, 1, 0
  {
    match store[e.n]
    case Let(_, e0, e1) =>
      Trace(store, e0).Then(UseOf(store, e0, e0)).Then(Trace(store, e1)).Then(UseOf(store, e1, e0))
    case Var(x) => Facts([x], [], [])
    case Tuple(es) => TraceElems(store, es, e.n)
    case Project(e0, i) =>
      (match PathOf(store, e0)
       case Some(a) => Trace(store, e0).Then(Facts([], [(a, Field(a, i))], []))
       case None => Trace(store, e0))
    case I32(_) => NoFacts
    case Str(_) => NoFacts
  }

  function TraceElems(store: seq<Expr>, es: seq<ExprId>, bound: nat): Facts
    requires WellFormed(store) && bound <= |store|
    requires forall c :: c in es ==> c.n < bound
    decreases bound, 0, |es|
  {
    if es == [] then NoFacts
    else
      var last := es[|es| - 1];
      TraceElems(store, es[..|es| - 1], bound).Then(Trace(store, last)).Then(UseOf(store, last, last))
  }

  // ---------------------------------------------------------------------------
  // Reading an interner's state through its table.

  /** Every field path's parent is interned, under a smaller id. */
  ghost predicate Grounded(m: map<PathId, Path>) {
    forall id {:trigger m[id]} :: id in m && m[id].Project? ==> m[id].parent in m && m[id].parent.n < id.n
  }

  /** The access path an interned path id stands for. */
  function Unfold(m: map<PathId, Path>, id: PathId): AccessPath
    requires Grounded(m) && id in m
    decreases id.n
  {
    match m[id]
    case Var(x) => Named(x)
    case Project(p, i) => Field(Unfold(m, p), i)
  }

  function ReadParents(m: map<PathId, Path>, ps: seq<(PathId, PathId)>): seq<(AccessPath, AccessPath)>
    requires Grounded(m) && ParentsAgree(m, ps)
  {
    if ps == [] then []
    else ReadParents(m, ps[..|ps| - 1]) + [(Unfold(m, ps[|ps| - 1].0), Unfold(m, ps[|ps| - 1].1))]
  }

  function ReadUses(m: map<PathId, Path>, us: seq<(PathId, ExprId)>): seq<(AccessPath, ExprId)>
    requires Grounded(m) && UsesResolve(m, us)
  {
    if us == [] then []
    else ReadUses(m, us[..|us| - 1]) + [(Unfold(m, us[|us| - 1].0), us[|us| - 1].1)]
  }

  function Binders(rs: seq<(PathId, NameId)>): seq<NameId> {
    if rs == [] then [] else Binders(rs[..|rs| - 1]) + [rs[|rs| - 1].1]
  }

  /** A root's path is the binder's own path. */
  ghost predicate RootsAgree(m: map<PathId, Path>, rs: seq<(PathId, NameId)>) {
    forall k :: 0 <= k < |rs| ==> rs[k].0 in m && m[rs[k].0] == Path.Var(rs[k].1)
  }

  /** A parent pair's child is a field of the parent. */
  ghost predicate ParentsAgree(m: map<PathId, Path>, ps: seq<(PathId, PathId)>) {
    forall k :: 0 <= k < |ps| ==> ps[k].1 in m && m[ps[k].1].Project? && m[ps[k].1].parent == ps[k].0
  }

  /** Every used path is interned. */
  ghost predicate UsesResolve(m: map<PathId, Path>, us: seq<(PathId, ExprId)>) {
    forall k :: 0 <= k < |us| ==> us[k].0 in m
  }

  /** What the resolver keeps true of the interner: the table invariant, grounded
      field paths, and facts that agree with the table. */
  ghost predicate Inv(s: PathState) {
    && ValidPaths(s)
    && Grounded(s.idToPath)
    && RootsAgree(s.idToPath, s.roots)
    && ParentsAgree(s.idToPath, s.parents)
    && UsesResolve(s.idToPath, s.uses)
  }

  function Read(s: PathState): Facts
    requires Inv(s)
  {
    Facts(Binders(s.roots), ReadParents(s.idToPath, s.parents), ReadUses(s.idToPath, s.uses))
  }

  /** `m2` is `m1` with more paths interned. */
  ghost predicate Grows(m1: map<PathId, Path>, m2: map<PathId, Path>) {
    forall id :: id in m1 ==> id in m2 && m2[id] == m1[id]
  }

  /** Every path id in the fact lists resolves. */
  ghost predicate FactsResolvable(s: PathState) {
    && (forall k :: 0 <= k < |s.roots| ==> s.roots[k].0 in s.idToPath)
    && (forall k :: 0 <= k < |s.parents| ==> s.parents[k].0 in s.idToPath && s.parents[k].1 in s.idToPath)
    && (forall k :: 0 <= k < |s.uses| ==> s.uses[k].0 in s.idToPath)
  }

  /** A parent path is interned before its field. */
  ghost predicate ParentsBeforeChildren(s: PathState) {
    forall k :: 0 <= k < |s.parents| ==> s.parents[k].0.n < s.parents[k].1.n
  }

  // ---------------------------------------------------------------------------
  // Lemmas about reading the table.

  lemma ThenAssoc(a: Facts, b: Facts, c: Facts)
    ensures a.Then(b).Then(c) == a.Then(b.Then(c))
  {
  }

  /** Interning more paths does not change what an existing id stands for. */
  lemma {:induction false} UnfoldStable(m1: map<PathId, Path>, m2: map<PathId, Path>, id: PathId)
    requires Grounded(m1) && Grounded(m2) && id in m1
    requires Grows(m1, m2)
    ensures Unfold(m2, id) == Unfold(m1, id)
    decreases id.n
  {
    match m1[id]
    case Var(_) =>
    case Project(p, _) => UnfoldStable(m1, m2, p);
  }

  /** Hash-consing: two ids that stand for the same access path are the same id. */
  lemma {:induction false} UnfoldInjective(s: PathState, a: PathId, b: PathId)
    requires ValidPaths(s) && Grounded(s.idToPath)
    requires a in s.idToPath && b in s.idToPath
    requires Unfold(s.idToPath, a) == Unfold(s.idToPath, b)
    ensures a == b
    decreases a.n
  {
    var m := s.idToPath;
    match m[a]
    case Var(_) =>
    case Project(pa, _) =>
      UnfoldInjective(s, pa, m[b].parent);
    assert m[a] == m[b];
    assert s.pathToId[m[a]] == a && s.pathToId[m[b]] == b;
  }

  lemma {:induction false} ReadParentsStable(m1: map<PathId, Path>, m2: map<PathId, Path>, ps: seq<(PathId, PathId)>)
    requires Grounded(m1) && Grounded(m2)
    requires Grows(m1, m2)
    requires ParentsAgree(m1, ps)
    ensures ReadParents(m2, ps) == ReadParents(m1, ps)
  {
    if ps != [] {
      ReadParentsStable(m1, m2, ps[..|ps| - 1]);
      UnfoldStable(m1, m2, ps[|ps| - 1].0);
      UnfoldStable(m1, m2, ps[|ps| - 1].1);
    }
  }

  lemma {:induction false} ReadUsesStable(m1: map<PathId, Path>, m2: map<PathId, Path>, us: seq<(PathId, ExprId)>)
    requires Grounded(m1) && Grounded(m2)
    requires Grows(m1, m2)
    requires UsesResolve(m1, us)
    ensures ReadUses(m2, us) == ReadUses(m1, us)
  {
    if us != [] {
      ReadUsesStable(m1, m2, us[..|us| - 1]);
      UnfoldStable(m1, m2, us[|us| - 1].0);
    }
  }

  // ---------------------------------------------------------------------------
  // Each primitive step keeps the invariant and records exactly one fact.

  lemma InternStep(s: PathState, p: Path)
    requires Inv(s)
    requires p.Project? ==> p.parent in s.idToPath
    ensures var (id, s') := InternPath(s, p);
      && Inv(s') && Grows(s.idToPath, s'.idToPath) && Read(s') == Read(s)
      && id in s'.idToPath && s'.idToPath[id] == p
  {
    var (id, s') := InternPath(s, p);
    InternPathValid(s, p);
    assert Grounded(s'.idToPath) by {
      forall q | q in s'.idToPath && s'.idToPath[q].Project?
        ensures s'.idToPath[q].parent in s'.idToPath && s'.idToPath[q].parent.n < q.n
      {
        if q !in s.idToPath {
          assert q == id && id.n == s.counter;
        }
      }
    }
    ReadParentsStable(s.idToPath, s'.idToPath, s.parents);
    ReadUsesStable(s.idToPath, s'.idToPath, s.uses);
  }

  lemma PushRootStep(s: PathState, p: PathId, x: NameId)
    requires Inv(s) && p in s.idToPath && s.idToPath[p] == Path.Var(x)
    ensures var s' := PushRoot(s, p, x);
      Inv(s') && s'.idToPath == s.idToPath && Read(s') == Read(s).Then(Facts([x], [], []))
  {
    var s' := PushRoot(s, p, x);
    assert s'.roots[..|s.roots|] == s.roots;
  }

  lemma PushParentStep(s: PathState, p0: PathId, p1: PathId)
    requires Inv(s) && p1 in s.idToPath && s.idToPath[p1].Project? && s.idToPath[p1].parent == p0
    ensures p0 in s.idToPath
    ensures var s' := PushParent(s, p0, p1);
      && Inv(s') && s'.idToPath == s.idToPath
      && Read(s') == Read(s).Then(Facts([], [(Unfold(s.idToPath, p0), Unfold(s.idToPath, p1))], []))
  {
    var s' := PushParent(s, p0, p1);
    assert s'.parents[..|s.parents|] == s.parents;
  }

  lemma PushUseStep(s: PathState, p: PathId, at: ExprId)
    requires Inv(s) && p in s.idToPath
    ensures var s' := PushUse(s, p, at);
      Inv(s') && s'.idToPath == s.idToPath && Read(s') == Read(s).Then(Facts([], [], [(Unfold(s.idToPath, p), at)]))
  {
    var s' := PushUse(s, p, at);
    assert s'.idToPath == s.idToPath && s'.pathToId == s.pathToId && s'.counter == s.counter;
    assert s'.roots == s.roots && s'.parents == s.parents && s'.uses == s.uses + [(p, at)];
    ReadUsesSnoc(s.idToPath, s.uses, (p, at));
  }

  lemma ReadUsesSnoc(m: map<PathId, Path>, us: seq<(PathId, ExprId)>, u: (PathId, ExprId))
    requires Grounded(m) && u.0 in m && UsesResolve(m, us)
    ensures UsesResolve(m, us + [u])
    ensures ReadUses(m, us + [u]) == ReadUses(m, us) + [(Unfold(m, u.0), u.1)]
  {
    assert (us + [u])[..|us|] == us;
  }

  /** The outcome of visiting `e` agrees with what `e` denotes. */
  ghost predicate Denotes(store: seq<Expr>, e: ExprId, r: Option<PathId>, s: PathState)
    requires WellFormed(store) && e.n < |store| && Grounded(s.idToPath)
  {
    match r
    case None => PathOf(store, e) == None
    case Some(id) => id in s.idToPath && PathOf(store, e) == Some(Unfold(s.idToPath, id))
  }

  lemma ConsumeStep(store: seq<Expr>, e: ExprId, at: ExprId, rs: (Option<PathId>, PathState))
    requires WellFormed(store) && e.n < |store| && Inv(rs.1) && Denotes(store, e, rs.0, rs.1)
    ensures var s' := Consume(rs, at);
      Inv(s') && s'.idToPath == rs.1.idToPath && Read(s') == Read(rs.1).Then(UseOf(store, e, at))
  {
    if rs.0.Some? {
      PushUseStep(rs.1, rs.0.value, at);
    }
  }

  // ---------------------------------------------------------------------------
  // The descent is correct.

  /** What visiting `e` from state `s` guarantees: the invariant is kept, the
      state only grows, an id is returned exactly when `e` denotes an access path
      (and then one standing for that path), and exactly the facts of `Trace` are
      appended. */
  ghost predicate WalkPost(store: seq<Expr>, e: ExprId, s: PathState)
    requires WellFormed(store) && e.n < |store| && Inv(s)
  {
    var (r, s') := Walk(store, e, s);
    && Inv(s') && Grows(s.idToPath, s'.idToPath) && Denotes(store, e, r, s')
    && Read(s') == Read(s).Then(Trace(store, e))
  }

  lemma {:induction false} WalkCorrect(store: seq<Expr>, e: ExprId, s: PathState)
    requires WellFormed(store) && e.n < |store| && Inv(s)
    ensures WalkPost(store, e, s)
    decreases e.n, 2, 0
  {
    match store[e.n]
    case Let(_, _, _) => WalkLetCorrect(store, e, s);
    case Var(x) =>
      InternStep(s, Path.Var(x));
      var (id, s1) := InternPath(s, Path.Var(x));
      PushRootStep(s1, id, x);
    case Tuple(es) => WalkElemsCorrect(store, es, e.n, s);
    case Project(_, _) => WalkProjectCorrect(store, e, s);
    case I32(_) =>
    case Str(_) =>
  }

  lemma GrowsTrans(m1: map<PathId, Path>, m2: map<PathId, Path>, m3: map<PathId, Path>)
    requires Grows(m1, m2) && Grows(m2, m3)
    ensures Grows(m1, m3)
  {
  }

  /** Visiting `e` and then consuming its path, if any, at `at`. */
  lemma {:induction false} VisitAndConsume(store: seq<Expr>, e: ExprId, at: ExprId, s: PathState)
    requires WellFormed(store) && e.n < |store| && Inv(s)
    ensures var s' := Consume(Walk(store, e, s), at);
      && Inv(s') && Grows(s.idToPath, s'.idToPath)
      && Read(s') == Read(s).Then(Trace(store, e)).Then(UseOf(store, e, at))
    decreases e.n, 3, 0
  {
    var w := Walk(store, e, s);
    WalkCorrect(store, e, s);
    ConsumeStep(store, e, at, w);
  }

  lemma {:induction false} WalkLetCorrect(store: seq<Expr>, e: ExprId, s: PathState)
    requires WellFormed(store) && e.n < |store| && Inv(s) && store[e.n].Let?
    ensures WalkPost(store, e, s)
    decreases e.n, 1, 0
  {
    var e0, e1 := store[e.n].value, store[e.n].body;
    VisitAndConsume(store, e0, e0, s);
    var s1 := Consume(Walk(store, e0, s), e0);
    VisitAndConsume(store, e1, e0, s1);
    var s2 := Consume(Walk(store, e1, s1), e0);
    assert Walk(store, e, s) == (None, s2);
    GrowsTrans(s.idToPath, s1.idToPath, s2.idToPath);
    var t0, u0, t1, u1 := Trace(store, e0), UseOf(store, e0, e0), Trace(store, e1), UseOf(store, e1, e0);
    assert Trace(store, e) == t0.Then(u0).Then(t1).Then(u1);
    ThenAssoc(Read(s), t0, u0);
    ThenAssoc(Read(s), t0.Then(u0), t1);
    ThenAssoc(Read(s), t0.Then(u0).Then(t1), u1);
  }

  lemma {:induction false} WalkProjectCorrect(store: seq<Expr>, e: ExprId, s: PathState)
    requires WellFormed(store) && e.n < |store| && Inv(s) && store[e.n].Project?
    ensures WalkPost(store, e, s)
    decreases e.n, 1, 0
  {
    var e0, i := store[e.n].inner, store[e.n].index;
    WalkCorrect(store, e0, s);
    var (r0, s1) := Walk(store, e0, s);
    if r0.Some? {
      var p0 := r0.value;
      var a := Unfold(s1.idToPath, p0);
      assert PathOf(store, e0) == Some(a);
      InternStep(s1, Path.Project(p0, i));
      var (id, s2) := InternPath(s1, Path.Project(p0, i));
      PushParentStep(s2, p0, id);
      var s3 := PushParent(s2, p0, id);
      assert Walk(store, e, s) == (Some(id), s3);
      GrowsTrans(s.idToPath, s1.idToPath, s2.idToPath);
      UnfoldStable(s1.idToPath, s2.idToPath, p0);
      assert Unfold(s3.idToPath, id) == Field(a, i);
      assert Denotes(store, e, Some(id), s3);
      assert Trace(store, e) == Trace(store, e0).Then(Facts([], [(a, Field(a, i))], []));
      ThenAssoc(Read(s), Trace(store, e0), Facts([], [(a, Field(a, i))], []));
    } else {
      assert Walk(store, e, s) == (None, s1);
    }
  }

  lemma {:induction false} WalkElemsCorrect(store: seq<Expr>, es: seq<ExprId>, bound: nat, s: PathState)
    requires WellFormed(store) && bound <= |store|
    requires forall c :: c in es ==> c.n < bound
    requires Inv(s)
    ensures var s' := WalkElems(store, es, bound, s);
      Inv(s') && Grows(s.idToPath, s'.idToPath) && Read(s') == Read(s).Then(TraceElems(store, es, bound))
    decreases bound, 0, |es|
  {
    if es != [] {
      var last := es[|es| - 1];
      var front := es[..|es| - 1];
      WalkElemsCorrect(store, front, bound, s);
      var s1 := WalkElems(store, front, bound, s);
      VisitAndConsume(store, last, last, s1);
      GrowsTrans(s.idToPath, s1.idToPath, WalkElems(store, es, bound, s).idToPath);
      ThenAssoc(Read(s), TraceElems(store, front, bound), Trace(store, last));
      ThenAssoc(Read(s), TraceElems(store, front, bound).Then(Trace(store, last)), UseOf(store, last, last));
    }
  }

  /** `resolve_paths` starts from an empty interner, so its result is a valid
      table whose facts all resolve, whose parent pairs are ordered, and whose fact
      lists read back as exactly the trace of the tree. */
  lemma ResolvePathsFacts(store: seq<Expr>, root: ExprId)
    requires WellFormed(store) && root.n < |store|
    ensures var s := Walk(store, root, EmptyPaths).1;
      && Inv(s) && ValidPaths(s) && FactsResolvable(s) && ParentsBeforeChildren(s)
      && Read(s) == Trace(store, root)
  {
    assert Inv(EmptyPaths);
    WalkCorrect(store, root, EmptyPaths);
    var s := Walk(store, root, EmptyPaths).1;
    assert Read(EmptyPaths) == NoFacts;
    assert ParentsBeforeChildren(s) by {
      forall k | 0 <= k < |s.parents|
        ensures s.parents[k].0.n < s.parents[k].1.n
      {
        assert s.parents[k].1 in s.idToPath;
      }
    }
  }

  /** Two occurrences of the same access path get the same path id: the second
      visit may start from any later state, after whatever uses, roots and
      interned paths were recorded in between. */
  lemma SameAccessPathSameId(store: seq<Expr>, e1: ExprId, e2: ExprId, s: PathState, t: PathState)
    requires WellFormed(store) && e1.n < |store| && e2.n < |store| && Inv(s)
    requires PathOf(store, e1).Some? && PathOf(store, e1) == PathOf(store, e2)
    requires Inv(t) && Grows(Walk(store, e1, s).1.idToPath, t.idToPath)
    ensures Walk(store, e1, s).0.Some? && Walk(store, e1, s).0 == Walk(store, e2, t).0
  {
    WalkCorrect(store, e1, s);
    var (r1, s1) := Walk(store, e1, s);
    WalkCorrect(store, e2, t);
    var (r2, s2) := Walk(store, e2, t);
    GrowsTrans(s1.idToPath, t.idToPath, s2.idToPath);
    UnfoldStable(s1.idToPath, s2.idToPath, r1.value);
    UnfoldInjective(s2, r1.value, r2.value);
  }
}
