# datalog-tests, modelled in Dafny

This project models the core of `datalog-tests`, a small static-analysis engine for
expression trees. It has three parts.

- **Interners** (`data.dfy`, module `Data`):
  - `ExprInterner` is an append-only arena of expression nodes.
  - `NameInterner` is a counter that hands out fresh binder names.
  - `PathInterner` hash-conses symbolic access paths (`x`, `x.0`, `x.0.1`, …). It keeps both directions of the table, plus three append-only fact lists: `roots`, `parents` and `uses`.
  - Each is a `class` with the source's fields.
  - `ExprInterner.Intern` and `NameInterner.Fresh` state their new `vec` and `counter` directly.
  - Every `PathInterner` method is specified by a value-level function of the interner's `State()`. Lemmas about those functions prove the table invariant is kept: the two maps are mutual inverses, and ids are dense below the counter.
- **Path resolver** (`resolve.dfy`, module `Resolve`):
  - `ResolveNode` is the recursive descent `r`. It updates a `PathInterner` in place, and its `Tuple` case is a `for` loop.
  - It is proved equal to the pure function `Walk`, which threads the interner's state.
  - `Walk` is proved against a reference semantics:
    - `PathOf` gives the access path a node denotes, if any.
    - `Trace` gives the facts a visit must record, in order, with every path id read back as the access path it stands for.
  - The resolver needs a well-formed arena: every child id is below its parent's id. Interning a node whose children are already present keeps an arena well-formed (`InternKeepsWellFormed`), and the descent terminates on such an arena.
- **Type-inference rules** (`typecheck.dfy`, module `TypeCheck`):
  - The crepe program is modelled as a positive Datalog program over `ExprOf(Expr, ExprKind)`. It derives `Bind(Name, Expr)` and `TypeOf(Expr, TypeKind)`.
  - Each rule appears in two forms:
    - as the clause a set of facts satisfies (`LetSatisfied`, …), whose conjunction is `Closed`;
    - as the facts one application derives (`LetRule`, …), whose union is `Derive`.
  - `Run` is naive bottom-up evaluation: it repeats `Derive` until a round adds nothing. It returns the least model (`IsLeastModel`).
  - `Typecheck` loads `ExprOf` from an `ExprMap`, one fact per position, and runs the rules.
  - The least model is characterised exactly: an expression has type `t` if and only if its kind's rule body holds (`TypeOfExactly`).
  - `scenarios.dfy` (module `Scenarios`) replays the five programs of the test harness, plus one with mixed numeric kinds. Each is built with `ExprMap.New` and `NameMap.New` in the harness's order, and the complete set of derived facts is proved.

Three behaviours of the code are worth stating:

- A `Root` pair is appended on **every** `Var` occurrence, not only the first (src/resolve.rs:22-26). Repeated occurrences share one `PathId`.
- A path-valued `let` **body** is also recorded as a `Use`, and it is tagged with the id of the let's **value** expression, not the body's (src/resolve.rs:17-19).
- The type rules have no negation rule. An ill-typed `Add`/`Equ` simply has no `TypeOf` fact (src/main.rs:33-86).

## Model

| member | source | states |
|---|---|---|
| Data.ExprInterner.Intern | src/data.rs:23-27 | returns `ExprId` of the old length and appends exactly `expr`; resolving the returned id gives back `expr` |
| Data.ExprInterner.Resolve | src/data.rs:28-30 | defined only for issued ids (the `unwrap` panics otherwise); the result is an entry of the arena |
| Data.NameInterner.Fresh | src/data.rs:39-43 | returns the old counter as the name and increments the counter by exactly one, so no name is issued twice |
| Data.InternPathValid | src/data.rs:74-85 | interning keeps the two maps mutual inverses with ids exactly `0 .. counter-1`; the returned id resolves to the path; a new path gets the old counter and the counter grows by one; existing entries keep their ids |
| Data.InternPathIdempotent | src/data.rs:75-76 | interning a path a second time returns the same id and changes nothing |
| Data.PathInterner.constructor | src/data.rs:60-68 | a default interner is empty and satisfies the table invariant |
| Data.PathInterner.Intern | src/data.rs:74-85 | the new state is `InternPath` of the old; a present path returns its existing id with the state unchanged; a valid interner stays valid and `Resolve` of the returned id is the path |
| Data.PathInterner.Resolve | src/data.rs:86-88 | defined only for issued ids; in a valid interner the path maps back to the same id |
| Data.PathInterner.AddUse | src/data.rs:89-91 | appends one `(path, expr)` pair to `uses`; counter, maps, `roots` and `parents` unchanged |
| Data.PathInterner.AddRoot | src/data.rs:92-94 | appends one `(path, name)` pair to `roots`; everything else unchanged |
| Data.PathInterner.AddParent | src/data.rs:95-97 | appends one `(parent, child)` pair to `parents`; everything else unchanged |
| Resolve.ResolveNode | src/resolve.rs:11-47 | the result and the interner's new state are exactly `Walk` from the old state: per variant, including the left-to-right loop over tuple elements |
| Resolve.ResolvePaths | src/resolve.rs:5-9 | starts from a fresh empty interner and returns `Walk`'s final state; that state is a valid table, every id in `roots`, `parents` and `uses` resolves, and every parent pair has `p0 < p1` |
| Resolve.WalkCorrect | src/resolve.rs:11-47 | visiting a node keeps the invariant and only adds table entries; it returns an id exactly when the node denotes an access path (a `Var`, or a `Project` of a path), and that id unfolds to that access path; the fact lists grow by exactly `Trace` of the node |
| Resolve.WalkLetCorrect | src/resolve.rs:13-21 | a `let` denotes no path; it records its value's facts, a use of a path-valued value at the value's id, then the body's facts, and a use of a path-valued body also at the value's id |
| Resolve.WalkProjectCorrect | src/resolve.rs:35-43 | a projection of a path interns `Project(p, i)`, records the parent pair `(p, result)` and denotes the field path; a projection of a non-path records nothing more and returns `None` |
| Resolve.WalkElemsCorrect | src/resolve.rs:27-34 | the tuple loop records each element's facts and a use of each path-valued element at its own id, in element order |
| Resolve.ResolvePathsFacts | src/resolve.rs:5-9 | from an empty interner, the recorded roots, parents and uses read back as exactly the trace of the tree; all ids resolve; parents precede their projections |
| Resolve.SameAccessPathSameId | src/resolve.rs:22-26 | two occurrences of the same access path get the same `PathId`, whatever was recorded or interned between the two visits (as in `let y = x in x` or `(x, x)`) |
| Resolve.InternKeepsWellFormed | src/data.rs:23-27 | appending a node whose children are already interned keeps the arena well-formed, so arenas built bottom-up satisfy the resolver's precondition |
| Resolve.UnfoldInjective | src/data.rs:74-85 | hash-consing: in a valid grounded table, distinct ids stand for distinct access paths |
| Resolve.InternStep | src/data.rs:74-85 | interning a variable path, or a field of an interned path, keeps the resolver's invariant and leaves the recorded facts as they were |
| Resolve.PushRootStep | src/data.rs:92-94 | appending a root for a variable path appends exactly that binder to the read-back roots |
| Resolve.PushParentStep | src/data.rs:95-97 | appending the pair of a field path and its parent appends exactly that pair of access paths to the read-back parents |
| Resolve.PushUseStep | src/data.rs:89-91 | appending a use of an interned path appends exactly that access path and site to the read-back uses |
| TypeCheck.ExprMap.New | src/main.rs:94-98 | returns `Expr` of the old length, appends exactly the kind, and `Get` of the returned id is that kind |
| TypeCheck.ExprMap.Get | src/main.rs:99-101 | defined only for issued ids; the result is an entry of the arena |
| TypeCheck.NameMap.New | src/main.rs:110-114 | returns the old counter as the name and increments the counter by one |
| TypeCheck.ExprOfExactly | src/main.rs:121-128 | the loaded `ExprOf` relation holds `(e, k)` if and only if `e` is a position of the arena holding `k` |
| TypeCheck.BindRuleSound | src/main.rs:45-48 | a set of facts satisfying the `Bind` clause contains every `Bind` fact one round derives |
| TypeCheck.BindRuleComplete | src/main.rs:45-48 | if a round derives no new `Bind` fact, the `Bind` clause is satisfied |
| TypeCheck.LetRuleSound | src/main.rs:50-54 | the same for the `let` typing rule |
| TypeCheck.LetRuleComplete | src/main.rs:50-54 | the converse for the `let` typing rule |
| TypeCheck.VarRuleSound | src/main.rs:56-61 | the same for the variable typing rule (through `Bind`) |
| TypeCheck.VarRuleComplete | src/main.rs:56-61 | the converse for the variable typing rule |
| TypeCheck.EquRuleSound | src/main.rs:63-68 | the same for the equality rule (operands share a type, result `Bool`) |
| TypeCheck.EquRuleComplete | src/main.rs:63-68 | the converse for the equality rule |
| TypeCheck.AddRuleSound | src/main.rs:70-75 | the same for the addition rule (operands share a type, result that type) |
| TypeCheck.AddRuleComplete | src/main.rs:70-75 | the converse for the addition rule |
| TypeCheck.LiteralRulesSound | src/main.rs:77-85 | the same for the two literal rules |
| TypeCheck.LiteralRulesComplete | src/main.rs:77-85 | the converse for the two literal rules |
| TypeCheck.ClosedIffDerive | src/main.rs:33-86 | a set of facts satisfies every rule if and only if one round of all rules derives nothing outside it |
| TypeCheck.DeriveMonotone | src/main.rs:33-86 | no rule is negated: more input and more facts never derive fewer facts in a round |
| TypeCheck.DeriveInUniverse | src/main.rs:33-86 | a round only derives the binders of lets present, and types for expressions that have an `ExprOf` fact, so evaluation ranges over a finite universe |
| TypeCheck.Run | src/main.rs:33-86 | naive iteration until a round adds nothing terminates and returns the least set of facts satisfying every rule |
| TypeCheck.Typecheck | src/main.rs:117-130 | loads `ExprOf` from the arena, one fact per position, and returns the least model of the rules over it |
| TypeCheck.LeastModelIsFixpoint | src/main.rs:33-86 | the least model is a fixpoint: one round derives exactly the model |
| TypeCheck.LeastModelUnique | src/main.rs:33-86 | the result of evaluation is unique |
| TypeCheck.LeastModelMonotone | src/main.rs:33-86 | adding `ExprOf` facts never removes a derived fact |
| TypeCheck.BindExactly | src/main.rs:45-48 | `Bind(x, e0)` holds in the least model exactly when some `ExprOf` fact is `Let(x, e0, _)` |
| TypeCheck.ClosedHasJustified | src/main.rs:50-85 | a model satisfying the rules types an expression with every type its kind's rule body justifies |
| TypeCheck.DeriveJustified | src/main.rs:50-85 | every fact a round derives has an `ExprOf` fact whose kind's rule body justifies it |
| TypeCheck.LeastModelJustified | src/main.rs:50-85 | every `TypeOf` fact of the least model has a rule derivation from the model |
| TypeCheck.TypeOfExactly | src/main.rs:50-85 | for an arena, `TypeOf(e, t)` holds if and only if the rule for `e`'s kind justifies `t`: a let has its body's types; a variable has the types of the expressions its name is bound to; an addition has the types both operands share; an equality is `Bool` when the operands share a type; a literal has exactly its own type |
| TypeCheck.TypedExprsInArena | src/main.rs:121-128 | only expressions of the arena get a type |
| Scenarios.Test1Model | src/main.rs:145-159 | `let x = 50 in x`: binds `x` to the literal and types the literal, the variable and the let as `I32`, and nothing else |
| Scenarios.Test1 | src/main.rs:145-159 | building test1's arena and typechecking it yields exactly those facts |
| Scenarios.Test2Model | src/main.rs:161-177 | `let x = 50 + 100 in x`: all five expressions are `I32`, `x` is bound to the addition |
| Scenarios.Test2 | src/main.rs:161-177 | building test2's arena and typechecking it yields exactly those facts |
| Scenarios.Test3Model | src/main.rs:179-195 | `let x = 50 in 150 == x`: the literals and the variable are `I32`; the equality and the let are `Bool` |
| Scenarios.Test3 | src/main.rs:179-195 | building test3's arena and typechecking it yields exactly those facts |
| Scenarios.Test4Model | src/main.rs:197-215 | `let x = 50 + 100 in 150 == x`: five `I32` expressions, the equality and the let are `Bool` |
| Scenarios.Test4 | src/main.rs:197-215 | building test4's arena and typechecking it yields exactly those facts |
| Scenarios.Test5Model | src/main.rs:217-231 | `let x = 50i32 in 150u32`: the literals are `I32` and `U32` and the let takes its body's `U32`; the unused binding of another type is no error |
| Scenarios.Test5 | src/main.rs:217-231 | building test5's arena and typechecking it yields exactly those facts |
| Scenarios.MixedModel | src/main.rs:63-75 | an addition and an equality of an `I32` and a `U32` literal get no type at all; only the literals are typed |

## Left out

- `src/print.rs`, `PathInterner::print` and `ExprMap::print`: console output only.
- The `println!` output of `typecheck` and the harness's `main`. The harness functions are used only as the inputs of the scenarios.
- The crepe runtime itself (hash indexes, semi-naive scheduling, macro expansion). The model evaluates the declared rules naively, and proves that the result is the least model, which is the same set of facts whatever the evaluation order.
- `HashMap`/`Entry` mechanics are modelled as Dafny `map`s. The output relations, which crepe returns as hash sets, are modelled as sets.
- The unused `Type` struct in src/main.rs.
- The code has no negation rule and no rules beyond its seven (`Bind`, four `TypeOf` rules by kind and two for literals, src/main.rs:46-86), so nothing of that kind is modelled.
- Literal payloads (`i32`, `u32`, `String`) are carried as unbounded integers and strings. No rule or resolver step inspects them.
- Data.NameInterner.Fresh: does not model `usize` overflow of the counter, which is unbounded here. The same holds for `PathInterner`'s counter, `NameMap.New` and the arena lengths.
- Resolve.ResolveNode: requires a well-formed arena (children below parents). On a dangling id the source panics, and on a cycle it recurses forever; neither is modelled.
- Data.ExprInterner.Resolve: the `unwrap` panic on an unknown id is a precondition, not a modelled error. The same holds for `PathInterner::resolve` and `ExprMap::get`.
- Data and Resolve are modelled as their own module with their own `Expr` type. src/main.rs never imports them, so they are separate from the typing module.
