/** The interners of the linearity checker's front end: an append-only arena of
    expression nodes, a counter of fresh binder names, and a hash-consing table of
    symbolic access paths that also collects the Root, Parent and Use facts. */
module Data {

  datatype Option<T> = None | Some(value: T)

  /** Identity of a binder introduced by a `let`. */
  datatype NameId = NameId(n: nat)

  /** Identity of an interned expression node: its position in the arena. */
  datatype ExprId = ExprId(n: nat)

  /** A zero-based tuple-field selector. */
  datatype Index = Index(n: nat)

  /** Identity of an interned access path. */
  datatype PathId = PathId(n: nat)

  /** An expression node; children are referred to by id.
      The payloads of the literals are kept but never inspected. */
  datatype Expr =
    | Let(name: NameId, value: ExprId, body: ExprId)
    | Var(x: NameId)
    | Tuple(elems: seq<ExprId>)
    | Project(inner: ExprId, index: Index)
    | I32(i: int)      // non-linear literal
    | Str(s: string)   // linear literal

  /** A symbolic access path: a binder, or a field of an already interned path. */
  datatype Path =
    | Var(name: NameId)
    | Project(parent: PathId, index: Index)

  /** The arena of expression nodes. An id is the position in `vec`. */
  class ExprInterner {
    var vec: seq<Expr>

    constructor ()
      ensures vec == []
    {
      vec := [];
    }

    /** Appends `expr` and returns its position. No deduplication. */
    method Intern(expr: Expr) returns (id: ExprId)
      modifies this
      ensures id == ExprId(|old(vec)|)
      ensures vec == old(vec) + [expr]
      ensures id.n < |vec| && Resolve(id) == expr
    {
      id := ExprId(|vec|);
      vec := vec + [expr];
    }

    /** The node stored under `id`; an id that was never issued makes the
        source panic, so it is excluded here. */
    function Resolve(id: ExprId): (e: Expr)
      reads this
      requires id.n < |vec|
      ensures e in vec
    {
      vec[id.n]
    }
  }

  /** Hands out fresh binder names from a monotone counter. */
  class NameInterner {
    var counter: nat

    constructor ()
      ensures counter == 0
    {
      counter := 0;
    }

    /** Returns the current counter and increments it by one. */
    method Fresh() returns (x: NameId)
      modifies this
      ensures x == NameId(old(counter))
      ensures counter == old(counter) + 1
    {
      x := NameId(counter);
      counter := counter + 1;
    }
  }

  /** The whole state of a path interner as a value: the id counter, the two
      directions of the hash-consing table, and the three append-only fact lists. */
  datatype PathState = PathState(
    counter: nat,
    pathToId: map<Path, PathId>,
    idToPath: map<PathId, Path>,
    roots: seq<(PathId, NameId)>,
    parents: seq<(PathId, PathId)>,
    uses: seq<(PathId, ExprId)>)

  /** The state of a default-constructed path interner. */
  const EmptyPaths: PathState := PathState(0, map[], map[], [], [], [])

  /** The table invariant: the two maps are inverse to each other and the
      issued ids are exactly 0 .. counter-1. */
  ghost predicate ValidTable(counter: nat, pathToId: map<Path, PathId>, idToPath: map<PathId, Path>) {
    && (forall p {:trigger pathToId[p]} :: p in pathToId ==> pathToId[p] in idToPath && idToPath[pathToId[p]] == p)
    && (forall id {:trigger idToPath[id]} :: id in idToPath ==> idToPath[id] in pathToId && pathToId[idToPath[id]] == id)
    && (forall id: PathId :: id in idToPath <==> id.n < counter)
  }

  ghost predicate ValidPaths(s: PathState) {
    ValidTable(s.counter, s.pathToId, s.idToPath)
  }

  /** Interning: an equal path already present keeps its id and nothing changes;
      otherwise the path gets `PathId(counter)`, is entered in both maps, and the
      counter moves on. */
  function InternPath(s: PathState, p: Path): (PathId, PathState)
  {
    if p in s.pathToId then (s.pathToId[p], s)
    else
      var id := PathId(s.counter);
      (id, s.(counter := s.counter + 1,
              pathToId := s.pathToId[p := id],
              idToPath := s.idToPath[id := p]))
  }

  function PushUse(s: PathState, p: PathId, e: ExprId): PathState {
    s.(uses := s.uses + [(p, e)])
  }

  function PushRoot(s: PathState, p: PathId, x: NameId): PathState {
    s.(roots := s.roots + [(p, x)])
  }

  function PushParent(s: PathState, p0: PathId, p1: PathId): PathState {
    s.(parents := s.parents + [(p0, p1)])
  }

  /** Interning keeps the table invariant, and the returned id resolves to the
      interned path; a new path gets the old counter. */
  lemma InternPathValid(s: PathState, p: Path)
    requires ValidPaths(s)
    ensures var (id, s') := InternPath(s, p);
      && ValidPaths(s')
      && id in s'.idToPath && s'.idToPath[id] == p
      && id.n < s'.counter
      && (p !in s.pathToId ==> id.n == s.counter && s'.counter == s.counter + 1)
      && s.idToPath.Keys <= s'.idToPath.Keys
      && (forall q :: q in s.idToPath ==> s'.idToPath[q] == s.idToPath[q])
  {
    var (id, s') := InternPath(s, p);
    if p !in s.pathToId {
      forall q | q in s'.pathToId
        ensures s'.pathToId[q] in s'.idToPath && s'.idToPath[s'.pathToId[q]] == q
      {
        if q != p {
          assert s.pathToId[q] in s.idToPath;
        }
      }
      forall q | q in s'.idToPath
        ensures s'.idToPath[q] in s'.pathToId && s'.pathToId[s'.idToPath[q]] == q
      {
        if q != id {
          assert s.idToPath[q] in s.pathToId;
          assert s.idToPath[q] != p;
        }
      }
    }
  }

  /** Interning the same path twice returns the same id and the second call
      changes nothing. */
  lemma InternPathIdempotent(s: PathState, p: Path)
    ensures var (id, s') := InternPath(s, p);
      InternPath(s', p) == (id, s')
  {
  }

  /** The path interner as the source keeps it: counter, both maps, and the three
      fact lists. `State()` is its value; every method is specified by the
      value-level operation above. */
  class PathInterner {
    var counter: nat
    var pathToId: map<Path, PathId>
    var idToPath: map<PathId, Path>
    var roots: seq<(PathId, NameId)>
    var parents: seq<(PathId, PathId)>
    var uses: seq<(PathId, ExprId)>

    function State(): PathState
      reads this
    {
      PathState(counter, pathToId, idToPath, roots, parents, uses)
    }

    ghost predicate Valid()
      reads this
    {
      ValidPaths(State())
    }

    constructor ()
      ensures State() == EmptyPaths
      ensures Valid()
    {
      counter := 0;
      pathToId := map[];
      idToPath := map[];
      roots := [];
      parents := [];
      uses := [];
    }

    method Intern(path: Path) returns (id: PathId)
      modifies this
      ensures (id, State()) == InternPath(old(State()), path)
      ensures old(path in pathToId) ==> id == old(pathToId[path]) && State() == old(State())
      ensures old(Valid()) ==> Valid() && id in idToPath && Resolve(id) == path
    {
      ghost var s := State();
      if path in pathToId {
        id := pathToId[path];
      } else {
        id := PathId(counter);
        pathToId := pathToId[path := id];
        idToPath := idToPath[id := path];
        counter := counter + 1;
      }
      if ValidPaths(s) {
        InternPathValid(s, path);
      }
    }

    /** The path stored under `id`; an unknown id makes the source panic. */
    function Resolve(id: PathId): (p: Path)
      reads this
      requires id in idToPath
      ensures Valid() ==> p in pathToId && pathToId[p] == id
    {
      idToPath[id]
    }

    method AddUse(p0: PathId, e0: ExprId)
      modifies this
      ensures State() == PushUse(old(State()), p0, e0)
    {
      uses := uses + [(p0, e0)];
    }

    method AddRoot(p0: PathId, x0: NameId)
      modifies this
      ensures State() == PushRoot(old(State()), p0, x0)
    {
      roots := roots + [(p0, x0)];
    }

    method AddParent(p0: PathId, p1: PathId)
      modifies this
      ensures State() == PushParent(old(State()), p0, p1)
    {
      parents := parents + [(p0, p1)];
    }
  }
}
