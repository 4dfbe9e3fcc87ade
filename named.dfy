/** The named syntax: `x.body` binds `x`, `(f a b ...)` applies left to right,
    `x:t body` makes `x` an alias of `t` inside `body`. */
module Named {
  import opened Outcomes
  import opened Terms
  import opened Names
  import opened Texts

  /** A character of a binder name: a letter, a digit or `_`. */
  predicate IsIdentChar(c: char)
  {
    'a' <= c <= 'z' || 'A' <= c <= 'Z' || '0' <= c <= '9' || c == '_'
  }

  /** The parser skips every character that cannot start a term: all but name
      characters and `(`. Separators, `.`, `:` and `)` are consumed this way. */
  predicate IsSkipped(c: char)
  {
    !IsIdentChar(c) && c != '('
  }

  /** Where the skipping loop at the head of `parse` stops. */
  function SkipFrom(s: string, i: nat): (j: nat)
    requires i <= |s|
    ensures i <= j <= |s|
    ensures forall k :: i <= k < j ==> IsSkipped(s[k])
    ensures j < |s| ==> !IsSkipped(s[j])
    decreases |s| - i
  {
    if i < |s| && IsSkipped(s[i]) then SkipFrom(s, i + 1) else i
  }

  /** Where the loop that reads a binder name stops. */
  function NameEnd(s: string, i: nat): (j: nat)
    requires i <= |s|
    ensures i <= j <= |s|
    ensures forall k :: i <= k < j ==> IsIdentChar(s[k])
    ensures j < |s| ==> !IsIdentChar(s[j])
    decreases |s| - i
  {
    if i < |s| && IsIdentChar(s[i]) then NameEnd(s, i + 1) else i
  }

  /** One entry of the parser's scope: a binder's name, and the term it stands
      for when it was introduced by `name:term` (`null` for a real binder). The
      library keeps the two parts in the parallel lists `binders` and `aliases`,
      and its `depth` is always their length. */
  datatype Binding = Binding(name: string, alias: Option<Term>)

  /** `binders.lastIndexOf(name)`. */
  function LastIndexOf(scope: seq<Binding>, name: string): (r: int)
    ensures -1 <= r < |scope|
    ensures r >= 0 ==> scope[r].name == name
    ensures r >= 0 ==> forall k :: r < k < |scope| ==> scope[k].name != name
    ensures r == -1 ==> forall k :: 0 <= k < |scope| ==> scope[k].name != name
  {
    if |scope| == 0 then -1
    else if scope[|scope| - 1].name == name then |scope| - 1
    else LastIndexOf(scope[..|scope| - 1], name)
  }

  /** `aliases[idx] || Var(depth - idx - 1)`: the innermost entry named `name`
      gives its alias verbatim, or the variable of that binder; a name in no
      entry (`idx == -1`) gives `Var(depth)`. */
  function Resolve(scope: seq<Binding>, name: string): Term
  {
    var idx := LastIndexOf(scope, name);
    if idx >= 0 && scope[idx].alias.Some? then scope[idx].alias.value
    else Var(|scope| - idx - 1)
  }

  /** `parse(depth, binders, aliases)` of `fromString` from cursor `i`: the term
      read and the cursor after it. It first skips every character that cannot
      start a term. */
  function Parse(s: string, i: nat, scope: seq<Binding>): (r: Outcome<(Term, nat)>)
    requires i <= |s|
    ensures !r.Throws?
    ensures r.Returns? ==> i <= r.value.1 <= |s|
    ensures r.Returns? && i < |s| ==> i < r.value.1
    decreases |s| - i, 2
  {
    ParseFrom(s, SkipFrom(s, i), scope)
  }

  /** `parse` once the skipping stopped at `k`: a `(` starts a left-nested
      application read by `Applications`; anything else starts a name. */
  function ParseFrom(s: string, k: nat, scope: seq<Binding>): (r: Outcome<(Term, nat)>)
    requires k <= |s| && (k < |s| ==> !IsSkipped(s[k]))
    ensures !r.Throws?
    ensures r.Returns? ==> k <= r.value.1 <= |s|
    ensures r.Returns? && k < |s| ==> k < r.value.1
    decreases |s| - k, 1
  {
    if k < |s| && s[k] == '(' then
      var first := Parse(s, k + 1, scope);
      if !first.Returns? then Diverges
      else Applications(s, first.value.1, scope, first.value.0)
    else
      ParseNamed(s, k, scope)
  }

  /** `parse` at the start of a (possibly empty) name: the character after the
      name decides, `.` a binder, `:` an alias, anything else a reference. */
  function ParseNamed(s: string, k: nat, scope: seq<Binding>): (r: Outcome<(Term, nat)>)
    requires k <= |s| && (k < |s| ==> IsIdentChar(s[k]))
    ensures !r.Throws?
    ensures r.Returns? ==> k <= r.value.1 <= |s|
    ensures r.Returns? && k < |s| ==> k < r.value.1
    decreases |s| - k, 0
  {
    var e := NameEnd(s, k);
    var name := s[k..e];
    if e < |s| && s[e] == '.' then
      var body := Parse(s, e, scope + [Binding(name, None)]);
      if !body.Returns? then Diverges
      else Returns((Lam(body.value.0), body.value.1))
    else if e < |s| && s[e] == ':' then
      var term := Parse(s, e, scope);
      if !term.Returns? then Diverges
      else Parse(s, term.value.1, scope + [Binding(name, Some(term.value.0))])
    else
      Returns((Resolve(scope, name), e))
  }

  /** The loop that applies `acc` to one more term until it sees `)`, which it
      consumes. At the end of the text the nested `parse` reads nothing and the
      loop never stops. */
  function Applications(s: string, i: nat, scope: seq<Binding>, acc: Term): (r: Outcome<(Term, nat)>)
    requires i <= |s|
    ensures !r.Throws?
    ensures r.Returns? ==> i < r.value.1 <= |s| && s[r.value.1 - 1] == ')'
    decreases |s| - i, 3
  {
    if i == |s| then Diverges
    else if s[i] == ')' then Returns((acc, i + 1))
    else
      var next := Parse(s, i, scope);
      if !next.Returns? then Diverges
      else Applications(s, next.value.1, scope, App(acc, next.value.0))
  }

  /** `parse` of `fromString`, with the cursor passed in and out and the
      library's while loops. */
  method ParseAt(source: string, start: nat, scope: seq<Binding>) returns (r: Outcome<(Term, nat)>)
    requires start <= |source|
    ensures r == Parse(source, start, scope)
    decreases |source| - start
  {
    var index := start;
    while index < |source| && IsSkipped(source[index])
      invariant start <= index <= |source|
      invariant SkipFrom(source, index) == SkipFrom(source, start)
    {
      index := index + 1;
    }
    assert Parse(source, start, scope) == ParseFrom(source, index, scope);
    if index < |source| && source[index] == '(' {
      var first := ParseAt(source, index + 1, scope);
      if !first.Returns? {
        return Diverges;
      }
      var app := first.value.0;
      index := first.value.1;
      while index == |source| || source[index] != ')'
        invariant start < index <= |source|
        invariant Applications(source, index, scope, app) == Parse(source, start, scope)
        decreases |source| - index
      {
        if index == |source| {
          // the library keeps parsing empty terms at the end of the text
          return Diverges;
        }
        var next := ParseAt(source, index, scope);
        if !next.Returns? {
          return Diverges;
        }
        app := App(app, next.value.0);
        index := next.value.1;
      }
      return Returns((app, index + 1));
    }
    var nameStart := index;
    assert Parse(source, start, scope) == ParseNamed(source, nameStart, scope);
    var binder := "";
    while index < |source| && IsIdentChar(source[index])
      invariant nameStart <= index <= |source|
      invariant binder == source[nameStart..index]
      invariant NameEnd(source, index) == NameEnd(source, nameStart)
    {
      binder := binder + [source[index]];
      index := index + 1;
    }
    if index < |source| && source[index] == '.' {
      var body := ParseAt(source, index, scope + [Binding(binder, None)]);
      if !body.Returns? {
        return Diverges;
      }
      return Returns((Lam(body.value.0), body.value.1));
    } else if index < |source| && source[index] == ':' {
      var term := ParseAt(source, index, scope);
      if !term.Returns? {
        return Diverges;
      }
      r := ParseAt(source, term.value.1, scope + [Binding(binder, Some(term.value.0))]);
      return;
    }
    return Returns((Resolve(scope, binder), index));
  }

  /** `fromString`: parses from the start of the text with an empty scope. */
  method FromString(source: string) returns (r: Outcome<Term>)
    ensures r == First(Parse(source, 0, []))
  {
    var p := ParseAt(source, 0, []);
    r := First(p);
  }

  function LamText(arg: string, body: string): string
  {
    arg + "." + body
  }

  function AppText(func: string, argm: string): string
  {
    "(" + func + " " + argm + ")"
  }

  /** `toString`. */
  function ToString(t: Term): string
  {
    Transmogrify(LamText, AppText, t)
  }

  /** The text of a subterm under `depth` binders, written out directly: a
      binder at depth `d` is `toName(d)`, a dot and its body; a variable is the
      name of the binder it refers to; an application is parenthesised with one
      space between its sides. */
  function Printed(t: Term, depth: int): string
  {
    match t
    case Var(i) => VarName(depth - 1 - i)
    case Lam(b) => VarName(depth) + "." + Printed(b, depth + 1)
    case App(f, a) => "(" + Printed(f, depth) + " " + Printed(a, depth) + ")"
  }

  /** The scoped fold of `toString` computes that text at every depth. */
  lemma {:induction false} ScopedPrinted(t: Term, d: int)
    ensures Scoped(VarName, NamedLam(LamText), AppText, t)(d) == Printed(t, d)
    decreases t, 1
  {
    match t
    case Var(i) =>
      ScopedVar(VarName, NamedLam(LamText), AppText, i, d);
    case Lam(b) =>
      ScopedPrintedLam(b, d);
    case App(f, a) =>
      ScopedPrintedApp(f, a, d);
  }

  lemma {:induction false} ScopedPrintedLam(b: Term, d: int)
    ensures Scoped(VarName, NamedLam(LamText), AppText, Lam(b))(d) == Printed(Lam(b), d)
    decreases Lam(b), 0
  {
    var body := Scoped(VarName, NamedLam(LamText), AppText, b);
    ScopedLam(VarName, NamedLam(LamText), AppText, b, d);
    ScopedPrinted(b, d + 1);
    NamedLamText(d, body(d + 1));
  }

  lemma NamedLamText(d: int, body: string)
    ensures NamedLam(LamText)(d, body) == VarName(d) + "." + body
  {
    assert NamedLam(LamText)(d, body) == LamText(VarName(d), body);
  }

  lemma {:induction false} ScopedPrintedApp(f: Term, a: Term, d: int)
    ensures Scoped(VarName, NamedLam(LamText), AppText, App(f, a))(d) == Printed(App(f, a), d)
    decreases App(f, a), 0
  {
    ScopedApp(VarName, NamedLam(LamText), AppText, f, a, d);
    ScopedPrinted(f, d);
    ScopedPrinted(a, d);
  }

  /** `toString` is the direct printer started at depth 0. */
  lemma ToStringPrinted(t: Term)
    ensures ToString(t) == Printed(t, 0)
  {
    ScopedPrinted(t, 0);
  }

  /** The scope the parser has built when it reads a subterm of `toString`'s
      output under `depth` binders: binder `k` is named `toName(k)`. */
  function Binders(depth: nat): (scope: seq<Binding>)
    ensures |scope| == depth
  {
    if depth == 0 then [] else Binders(depth - 1) + [Binding(Name(depth - 1), None)]
  }

  lemma BindersSnoc(depth: nat)
    ensures Binders(depth + 1) == Binders(depth) + [Binding(Name(depth), None)]
  {
  }

  lemma {:induction false} BindersAt(depth: nat, k: nat)
    requires k < depth
    ensures Binders(depth)[k] == Binding(Name(k), None)
  {
    if k < depth - 1 {
      BindersAt(depth - 1, k);
    }
  }

  /** Names are unique in that scope, so the last entry named `toName(j)` is
      entry `j`. */
  lemma LastIndexOfName(depth: nat, j: nat)
    requires j < depth
    ensures LastIndexOf(Binders(depth), Name(j)) == j
  {
    var r := LastIndexOf(Binders(depth), Name(j));
    BindersAt(depth, j);
    assert r >= 0;
    BindersAt(depth, r);
    NameInjective(r, j);
  }

  /** In that scope `toName(j)` refers to binder `j`. */
  lemma ResolveName(depth: nat, idx: nat)
    requires idx < depth
    ensures Resolve(Binders(depth), Name(depth - 1 - idx)) == Var(idx)
  {
    LastIndexOfName(depth, depth - 1 - idx);
    BindersAt(depth, depth - 1 - idx);
  }

  /** A name of `toName` is a run of name characters. */
  lemma NameChars(n: nat)
    ensures |Name(n)| >= 1 && forall k :: 0 <= k < |Name(n)| ==> IsIdentChar(Name(n)[k])
  {
    NameShape(n);
  }

  /** What may follow a printed subterm: the end, the space after a function,
      or the `)` after an argument. */
  predicate Boundary(s: string, j: nat)
  {
    j == |s| || (j < |s| && (s[j] == ' ' || s[j] == ')'))
  }

  /** A skipped character in front of a term changes nothing. */
  lemma ParseSkip(s: string, i: nat, scope: seq<Binding>)
    requires i < |s| && IsSkipped(s[i])
    ensures Parse(s, i, scope) == Parse(s, i + 1, scope)
  {
    assert SkipFrom(s, i) == SkipFrom(s, i + 1);
  }

  lemma {:induction false} NameEndRun(s: string, i: nat, j: nat)
    requires i <= j <= |s| && (j == |s| || !IsIdentChar(s[j]))
    requires forall k :: i <= k < j ==> IsIdentChar(s[k])
    ensures NameEnd(s, i) == j
    decreases j - i
  {
    if i < j {
      NameEndRun(s, i + 1, j);
    }
  }

  /** `parse` reads back what `toString` printed: a closed subterm printed
      under `depth` binders between cursors `i` and `end`, followed by a
      boundary, is read as the same term in the scope of those binders, and the
      cursor stops at `end`. */
  lemma {:induction false} ParseShown(s: string, i: nat, end: nat, t: Term, depth: nat)
    requires ClosedAt(t, depth)
    requires i <= end <= |s| && s[i..end] == Printed(t, depth) && Boundary(s, end)
    ensures Parse(s, i, Binders(depth)) == Returns((t, end))
    decreases t, 1
  {
    match t
    case Var(idx) => ParseShownVar(s, i, end, idx, depth);
    case Lam(b) => ParseShownLam(s, i, end, b, depth);
    case App(f, a) => ParseShownApp(s, i, end, f, a, depth);
  }

  lemma ParseShownVar(s: string, i: nat, end: nat, idx: nat, depth: nat)
    requires idx < depth
    requires i <= end <= |s| && s[i..end] == Name(depth - 1 - idx) && Boundary(s, end)
    ensures Parse(s, i, Binders(depth)) == Returns((Var(idx), end))
  {
    NameChars(depth - 1 - idx);
    ParseReference(s, i, end, Name(depth - 1 - idx), Binders(depth));
    ResolveName(depth, idx);
  }

  lemma {:induction false} ParseShownLam(s: string, i: nat, end: nat, b: Term, depth: nat)
    requires ClosedAt(b, depth + 1)
    requires i <= end <= |s| && s[i..end] == Name(depth) + "." + Printed(b, depth + 1)
    requires Boundary(s, end)
    ensures Parse(s, i, Binders(depth)) == Returns((Lam(b), end))
    decreases Lam(b), 0
  {
    var name := Name(depth);
    var dot := i + |name|;
    LamTextAt(s, i, end, name, Printed(b, depth + 1));
    ParseShown(s, dot + 1, end, b, depth + 1);
    NameChars(depth);
    BindersSnoc(depth);
    ParseBinder(s, i, dot, name, Binders(depth), Binders(depth + 1), b, end);
  }

  lemma {:induction false} ParseShownApp(s: string, i: nat, end: nat, f: Term, a: Term, depth: nat)
    requires ClosedAt(f, depth) && ClosedAt(a, depth)
    requires i <= end <= |s| && s[i..end] == "(" + Printed(f, depth) + " " + Printed(a, depth) + ")"
    requires Boundary(s, end)
    ensures Parse(s, i, Binders(depth)) == Returns((App(f, a), end))
    decreases App(f, a), 0
  {
    var space := i + 1 + |Printed(f, depth)|;
    var close := end - 1;
    PairAt(s, i, space, close, end, Printed(f, depth), Printed(a, depth));
    var scope := Binders(depth);
    assert Parse(s, i + 1, scope) == Returns((f, space)) by {
      ParseShown(s, i + 1, space, f, depth);
    }
    assert Parse(s, space + 1, scope) == Returns((a, close)) by {
      ParseShown(s, space + 1, close, a, depth);
    }
    ParseApplication(s, i, space, close, scope, f, a);
  }

  /** The pieces of a printed binder. */
  lemma LamTextAt(s: string, i: nat, end: nat, name: string, body: string)
    requires i <= end <= |s| && s[i..end] == name + "." + body
    ensures i + |name| + 1 <= end
    ensures s[i..i + |name|] == name && s[i + |name|] == '.'
    ensures s[i + |name| + 1..end] == body
  {
    var text, n := name + "." + body, |name|;
    SliceMatch(s, i, end, text, 0, n);
    assert text[0..n] == name;
    assert s[i + n] == text[n];
    SliceMatch(s, i, end, text, n + 1, |text|);
    assert text[n + 1..|text|] == body;
  }

  /** A name followed by a boundary is read as a reference. */
  lemma ParseReference(s: string, i: nat, end: nat, name: string, scope: seq<Binding>)
    requires |name| >= 1 && forall k :: 0 <= k < |name| ==> IsIdentChar(name[k])
    requires i <= end <= |s| && s[i..end] == name && Boundary(s, end)
    ensures Parse(s, i, scope) == Returns((Resolve(scope, name), end))
  {
    assert forall k :: i <= k < end ==> s[k] == name[k - i];
    assert SkipFrom(s, i) == i;
    assert Parse(s, i, scope) == ParseNamed(s, i, scope);
    NameEndRun(s, i, end);
  }

  /** `name.` in front of a body makes a binder named `name` around it. */
  lemma ParseBinder(s: string, i: nat, dot: nat, name: string, scope: seq<Binding>, inner: seq<Binding>, t: Term, end: nat)
    requires |name| >= 1 && forall k :: 0 <= k < |name| ==> IsIdentChar(name[k])
    requires dot == i + |name| && dot < |s| && s[i..dot] == name && s[dot] == '.'
    requires inner == scope + [Binding(name, None)]
    requires Parse(s, dot + 1, inner) == Returns((t, end))
    ensures Parse(s, i, scope) == Returns((Lam(t), end))
  {
    assert forall k :: i <= k < dot ==> s[k] == name[k - i];
    assert SkipFrom(s, i) == i;
    assert Parse(s, i, scope) == ParseNamed(s, i, scope);
    NameEndRun(s, i, dot);
    ParseSkip(s, dot, scope + [Binding(name, None)]);
  }

  /** `name:` in front of a term reads that term, then reads on with `name`
      standing for it. */
  lemma ParseAlias(s: string, i: nat, colon: nat, name: string, scope: seq<Binding>, t: Term, next: nat)
    requires |name| >= 1 && forall k :: 0 <= k < |name| ==> IsIdentChar(name[k])
    requires colon == i + |name| && colon < |s| && s[i..colon] == name && s[colon] == ':'
    requires Parse(s, colon + 1, scope) == Returns((t, next))
    ensures Parse(s, i, scope) == Parse(s, next, scope + [Binding(name, Some(t))])
  {
    assert forall k :: i <= k < colon ==> s[k] == name[k - i];
    assert SkipFrom(s, i) == i;
    assert Parse(s, i, scope) == ParseNamed(s, i, scope);
    NameEndRun(s, i, colon);
    ParseSkip(s, colon, scope);
  }

  /** `(f a)` is read as the application of `f` to `a`. */
  lemma ParseApplication(s: string, i: nat, space: nat, close: nat, scope: seq<Binding>, f: Term, a: Term)
    requires i < space < close < |s|
    requires s[i] == '(' && s[space] == ' ' && s[close] == ')'
    requires Parse(s, i + 1, scope) == Returns((f, space))
    requires Parse(s, space + 1, scope) == Returns((a, close))
    ensures Parse(s, i, scope) == Returns((App(f, a), close + 1))
  {
    assert SkipFrom(s, i) == i;
    ParseSkip(s, space, scope);
    ApplicationsPair(s, space, close, scope, f, a);
  }

  /** The loop of an application with one argument: the argument, then `)`. */
  lemma ApplicationsPair(s: string, j: nat, close: nat, scope: seq<Binding>, f: Term, a: Term)
    requires j < close < |s| && s[j] != ')' && s[close] == ')'
    requires Parse(s, j, scope) == Returns((a, close))
    ensures Applications(s, j, scope, f) == Returns((App(f, a), close + 1))
  {
  }

  /** `acc` applied to each of `args` in turn: `(acc a0 a1 ...)` nests to the left. */
  function ApplyAll(acc: Term, args: seq<Term>): Term
    decreases |args|
  {
    if |args| == 0 then acc else ApplyAll(App(acc, args[0]), args[1..])
  }

  /** The application loop over the arguments `args`, argument `k` read from
      `pos[k]` to `pos[k + 1]`, none of them starting at a `)`, with a `)` at the
      last position: it applies the arguments left to right and consumes the `)`. */
  lemma {:induction false} ApplicationsArgs(s: string, scope: seq<Binding>, acc: Term, args: seq<Term>, pos: seq<nat>)
    requires |pos| == |args| + 1
    requires pos[|args|] < |s| && s[pos[|args|]] == ')'
    requires forall k :: 0 <= k < |args| ==>
      pos[k] < |s| && s[pos[k]] != ')' && Parse(s, pos[k], scope) == Returns((args[k], pos[k + 1]))
    ensures Applications(s, pos[0], scope, acc) == Returns((ApplyAll(acc, args), pos[|args|] + 1))
    decreases |args|
  {
    if |args| > 0 {
      assert Parse(s, pos[0], scope) == Returns((args[0], pos[1]));
      ApplicationsArgs(s, scope, App(acc, args[0]), args[1..], pos[1..]);
    }
  }

  /** `(f a0 a1 ...)` reads as `f` applied to the arguments left to right, and
      reading stops after the `)`. */
  lemma ParseApplications(s: string, i: nat, scope: seq<Binding>, f: Term, args: seq<Term>, pos: seq<nat>)
    requires i < |s| && s[i] == '('
    requires |pos| == |args| + 1
    requires Parse(s, i + 1, scope) == Returns((f, pos[0]))
    requires pos[|args|] < |s| && s[pos[|args|]] == ')'
    requires forall k :: 0 <= k < |args| ==>
      pos[k] < |s| && s[pos[k]] != ')' && Parse(s, pos[k], scope) == Returns((args[k], pos[k + 1]))
    ensures Parse(s, i, scope) == Returns((ApplyAll(f, args), pos[|args|] + 1))
  {
    assert SkipFrom(s, i) == i;
    ApplicationsArgs(s, scope, f, args, pos);
  }

  /** A single parenthesised term is returned unwrapped. */
  lemma ParseParenthesised(s: string, i: nat, close: nat, scope: seq<Binding>, t: Term)
    requires i < |s| && s[i] == '('
    requires close < |s| && s[close] == ')'
    requires Parse(s, i + 1, scope) == Returns((t, close))
    ensures Parse(s, i, scope) == Returns((t, close + 1))
  {
    ParseApplications(s, i, scope, t, [], [close]);
  }

  /** Three terms in parentheses nest to the left. */
  lemma ThreeTermsExample()
    ensures Parse("x.(x x x)", 0, []) == Returns((Lam(App(App(Var(0), Var(0)), Var(0))), 9))
  {
    var s := "x.(x x x)";
    var inner := [Binding("x", None)];
    assert s[0..1] == "x" && s[1] == '.';
    ThreeTermsBody(s, inner);
    ParseBinder(s, 0, 1, "x", [], inner, App(App(Var(0), Var(0)), Var(0)), 9);
  }

  lemma ThreeTermsBody(s: string, inner: seq<Binding>)
    requires s == "x.(x x x)" && inner == [Binding("x", None)]
    ensures Parse(s, 2, inner) == Returns((App(App(Var(0), Var(0)), Var(0)), 9))
  {
    assert s[2] == '(' && s[8] == ')' && s[4] == ' ' && s[6] == ' ';
    assert Parse(s, 3, inner) == Returns((Var(0), 4)) by {
      ThreeTermsVar(s, 3, inner);
    }
    assert Parse(s, 4, inner) == Returns((Var(0), 6)) by {
      ThreeTermsVar(s, 5, inner);
      ParseSkip(s, 4, inner);
    }
    assert Parse(s, 6, inner) == Returns((Var(0), 8)) by {
      ThreeTermsVar(s, 7, inner);
      ParseSkip(s, 6, inner);
    }
    ParseApplications(s, 2, inner, Var(0), [Var(0), Var(0)], [4, 6, 8]);
    assert ApplyAll(Var(0), [Var(0), Var(0)]) == App(App(Var(0), Var(0)), Var(0));
  }

  /** Each `x` of `x.(x x x)` refers to the binder. */
  lemma ThreeTermsVar(s: string, i: nat, inner: seq<Binding>)
    requires s == "x.(x x x)" && inner == [Binding("x", None)]
    requires i == 3 || i == 5 || i == 7
    ensures Parse(s, i, inner) == Returns((Var(0), i + 1))
  {
    assert s[i..i + 1] == "x";
    assert Resolve(inner, "x") == Var(0);
    ParseReference(s, i, i + 1, "x", inner);
  }

  /** `fromString(toString(t))` is `t` for every closed term. */
  lemma RoundTrip(t: Term)
    requires ClosedAt(t, 0)
    ensures First(Parse(ToString(t), 0, [])) == Returns(t)
  {
    ToStringPrinted(t);
    ParsePrinted(t);
  }

  /** The direct printer's text of a closed term parses back to the term. */
  lemma ParsePrinted(t: Term)
    requires ClosedAt(t, 0)
    ensures Parse(Printed(t, 0), 0, []) == Returns((t, |Printed(t, 0)|))
  {
    var s := Printed(t, 0);
    assert s[0..|s|] == s;
    assert Binders(0) == [];
    ParseShown(s, 0, |s|, t, 0);
  }

  /** An alias is replaced by its term: `x:a.a x` reads as `a.a`. */
  lemma AliasExample()
    ensures Parse("x:a.a x", 0, []) == Returns((Lam(Var(0)), 7))
  {
    var s := "x:a.a x";
    var inner := [Binding("a", None)];
    var aliased := [Binding("x", Some(Lam(Var(0))))];
    assert s[4..5] == "a" && s[5] == ' ' && s[2..3] == "a" && s[3] == '.';
    assert s[0..1] == "x" && s[1] == ':' && s[6..7] == "x" && IsSkipped(s[5]);
    ParseReference(s, 4, 5, "a", inner);
    assert Resolve(inner, "a") == Var(0);
    ParseBinder(s, 2, 3, "a", [], inner, Var(0), 5);
    ParseAlias(s, 0, 1, "x", [], Lam(Var(0)), 5);
    assert [] + [Binding("x", Some(Lam(Var(0))))] == aliased;
    ParseSkip(s, 5, aliased);
    ParseReference(s, 6, 7, "x", aliased);
    assert Resolve(aliased, "x") == Lam(Var(0));
  }

  /** An alias takes a slot of the depth without making a binder, so a
      binder outside it is counted one too far: `a.x:a a` reads as a binder
      around the unbound `Var(1)`. */
  lemma AliasSlotExample()
    ensures Parse("a.x:a a", 0, []) == Returns((Lam(Var(1)), 7))
  {
    var s := "a.x:a a";
    var outer := [Binding("a", None)];
    var inner := outer + [Binding("x", Some(Var(0)))];
    assert s[0..1] == "a" && s[1] == '.' && s[2..3] == "x" && s[3] == ':';
    assert s[4..5] == "a" && s[5] == ' ' && s[6..7] == "a" && IsSkipped(s[5]);
    ParseReference(s, 4, 5, "a", outer);
    assert Resolve(outer, "a") == Var(0);
    ParseAlias(s, 2, 3, "x", outer, Var(0), 5);
    ParseSkip(s, 5, inner);
    ParseReference(s, 6, 7, "a", inner);
    assert LastIndexOf(inner, "a") == 0;
    assert Resolve(inner, "a") == Var(1);
    ParseBinder(s, 0, 1, "a", [], outer, Var(1), 7);
  }

  /** An alias stands for its term verbatim, at whatever depth it is used. */
  lemma ResolveAlias(scope: seq<Binding>, name: string, t: Term, later: seq<Binding>)
    requires forall k :: 0 <= k < |later| ==> later[k].name != name
    ensures Resolve(scope + [Binding(name, Some(t))] + later, name) == t
  {
    var all := scope + [Binding(name, Some(t))] + later;
    assert all[|scope|].name == name;
    forall k | |scope| < k < |all|
      ensures all[k].name != name
    {
      assert all[k] == later[k - |scope| - 1];
    }
  }

  /** A binder's variable counts every entry after it, aliases included. */
  lemma ResolveBinder(scope: seq<Binding>, name: string, later: seq<Binding>)
    requires forall k :: 0 <= k < |later| ==> later[k].name != name
    ensures Resolve(scope + [Binding(name, None)] + later, name) == Var(|later|)
  {
    var all := scope + [Binding(name, None)] + later;
    assert all[|scope|].name == name;
    forall k | |scope| < k < |all|
      ensures all[k].name != name
    {
      assert all[k] == later[k - |scope| - 1];
    }
  }

  /** A name bound nowhere reads as the variable just beyond the scope. */
  lemma ResolveUnbound(scope: seq<Binding>, name: string)
    requires forall k :: 0 <= k < |scope| ==> scope[k].name != name
    ensures Resolve(scope, name) == Var(|scope|)
  {
  }
}
