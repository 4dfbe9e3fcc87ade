/** Outcomes of the library's routines. Several of its decoders never
    return on some inputs (their loops wait for a character that never comes),
    and one throws; the model makes both cases visible instead of excluding them. */
module Outcomes {

  datatype Outcome<+T> =
    | Returns(value: T)
    | Diverges  // the library never returns on this input
    | Throws    // the library raises a host exception on this input

  datatype Option<+T> = None | Some(value: T)

  /** Keeps only the first component of a returned pair. */
  function First<A, B>(o: Outcome<(A, B)>): (r: Outcome<A>)
    ensures r.Returns? <==> o.Returns?
    ensures r.Returns? ==> r.value == o.value.0
    ensures r.Diverges? <==> o.Diverges?
  {
    match o
    case Returns(p) => Returns(p.0)
    case Diverges => Diverges
    case Throws => Throws
  }
}

/** The term type and the two recursion schemes every printer is built from. */
module Terms {

  /** A lambda term with De Bruijn indices: `Var(0)` names the nearest binder. */
  datatype Term =
    | Var(index: nat)
    | Lam(body: Term)
    | App(func: Term, argm: Term)

  /** `fold`: replaces each constructor by the matching function, bottom up,
      the function before the argument. */
  function Fold<A>(onVar: nat -> A, onLam: A -> A, onApp: (A, A) -> A, t: Term): A
  {
    match t
    case Var(i) => onVar(i)
    case Lam(b) => onLam(Fold(onVar, onLam, onApp, b))
    case App(f, a) => onApp(Fold(onVar, onLam, onApp, f), Fold(onVar, onLam, onApp, a))
  }

  /** Folding with the constructors themselves rebuilds the term. */
  lemma {:induction false} FoldRebuilds(t: Term)
    ensures Fold(i => Var(i), b => Lam(b), (f, a) => App(f, a), t) == t
  {
    match t
    case Var(_) =>
    case Lam(b) => FoldRebuilds(b);
    case App(f, a) => FoldRebuilds(f); FoldRebuilds(a);
  }

  /** The fold `foldScoped` runs: it turns each subterm into a function of the
      depth (number of enclosing binders) at which that subterm sits. */
  function Scoped<A>(onVar: int -> A, onLam: (int, A) -> A, onApp: (A, A) -> A, t: Term): int -> A
  {
    Fold(AtVar(onVar), AtLam(onLam), AtApp(onApp), t)
  }

  /** A variable at depth `d` is reported as the depth of its binder, `d - 1 - idx`. */
  function VarAt<A>(onVar: int -> A, idx: nat): int -> A
  {
    d => onVar(d - 1 - idx)
  }

  /** A binder at depth `d` is reported as `d`; its body sits at `d + 1`. */
  function LamAt<A>(onLam: (int, A) -> A, body: int -> A): int -> A
  {
    d => onLam(d, body(d + 1))
  }

  /** Both sides of an application sit at the application's depth. */
  function AppAt<A>(onApp: (A, A) -> A, fun: int -> A, arg: int -> A): int -> A
  {
    d => onApp(fun(d), arg(d))
  }

  lemma LamAtApplied<A>(onLam: (int, A) -> A, body: int -> A, d: int)
    ensures LamAt(onLam, body)(d) == onLam(d, body(d + 1))
  {
  }

  function AtVar<A>(onVar: int -> A): nat -> int -> A
  {
    idx => VarAt(onVar, idx)
  }

  function AtLam<A>(onLam: (int, A) -> A): (int -> A) -> int -> A
  {
    body => LamAt(onLam, body)
  }

  function AtApp<A>(onApp: (A, A) -> A): (int -> A, int -> A) -> int -> A
  {
    (fun, arg) => AppAt(onApp, fun, arg)
  }

  /** `foldScoped`: the scoped fold started at depth 0. */
  function FoldScoped<A>(onVar: int -> A, onLam: (int, A) -> A, onApp: (A, A) -> A, t: Term): A
  {
    Scoped(onVar, onLam, onApp, t)(0)
  }

  /** One step of the scoped fold: a binder at depth `d` is reported as `d` and
      its body is folded at `d + 1`; a variable is reported as the depth of the
      binder it refers to, `d - 1 - index`; an application folds both sides at `d`. */
  lemma ScopedVar<A>(onVar: int -> A, onLam: (int, A) -> A, onApp: (A, A) -> A, i: nat, d: int)
    ensures Scoped(onVar, onLam, onApp, Var(i))(d) == onVar(d - 1 - i)
  {
  }

  lemma {:induction false} ScopedLam<A>(onVar: int -> A, onLam: (int, A) -> A, onApp: (A, A) -> A, b: Term, d: int)
    ensures Scoped(onVar, onLam, onApp, Lam(b))(d) == onLam(d, Scoped(onVar, onLam, onApp, b)(d + 1))
  {
    var body := Scoped(onVar, onLam, onApp, b);
    assert Scoped(onVar, onLam, onApp, Lam(b)) == LamAt(onLam, body);
    LamAtApplied(onLam, body, d);
  }

  lemma ScopedApp<A>(onVar: int -> A, onLam: (int, A) -> A, onApp: (A, A) -> A, f: Term, a: Term, d: int)
    ensures Scoped(onVar, onLam, onApp, App(f, a))(d)
            == onApp(Scoped(onVar, onLam, onApp, f)(d), Scoped(onVar, onLam, onApp, a)(d))
  {
  }

  /** Every variable of `t` refers to a binder inside `t` or to one of `depth`
      binders around it. */
  predicate ClosedAt(t: Term, depth: nat)
  {
    match t
    case Var(i) => i < depth
    case Lam(b) => ClosedAt(b, depth + 1)
    case App(f, a) => ClosedAt(f, depth) && ClosedAt(a, depth)
  }
}
