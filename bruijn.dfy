/** The De Bruijn text syntax: `L<body>`, `(<func> <argm>)` and decimal indices. */
module Bruijn {
  import opened Terms
  import opened Texts

  predicate IsDigit(c: char)
  {
    '0' <= c <= '9'
  }

  function DigitChar(d: nat): (c: char)
    requires d < 10
    ensures IsDigit(c)
  {
    ('0' as int + d) as char
  }

  function DigitValue(c: char): (d: nat)
    requires IsDigit(c)
    ensures d < 10 && DigitChar(d) == c
  {
    c as int - '0' as int
  }

  /** The decimal text of `n`, as the host's number-to-string conversion writes
      an index below 10^21. */
  function Decimal(n: nat): (s: string)
    ensures |s| >= 1
    ensures forall k :: 0 <= k < |s| ==> IsDigit(s[k])
    decreases n
  {
    if n < 10 then [DigitChar(n)] else Decimal(n / 10) + [DigitChar(n % 10)]
  }

  /** The text the fold of `toBruijn` builds for a term that sits inside a binder
      or an application, where string concatenation turns an index into text:
      indices in decimal, `L` before a body, an application in parentheses with
      one space between its two sides. */
  function ToBruijn(t: Term): (s: string)
    ensures |s| >= 1
    ensures s[0] == 'L' <==> t.Lam?
    ensures s[0] == '(' <==> t.App?
    ensures t.Var? <==> IsDigit(s[0])
  {
    Fold(Decimal, body => "L" + body, (func, argm) => "(" + func + " " + argm + ")", t)
  }

  lemma ToBruijnSteps(t: Term)
    ensures t.Var? ==> ToBruijn(t) == Decimal(t.index)
    ensures t.Lam? ==> ToBruijn(t) == "L" + ToBruijn(t.body)
    ensures t.App? ==> ToBruijn(t) == "(" + ToBruijn(t.func) + " " + ToBruijn(t.argm) + ")"
  {
  }

  /** The value the digit loop accumulates from `acc` over the digits `ds`,
      left to right: `idx = idx * 10 + digit`. */
  function Accumulate(ds: string, acc: nat): nat
    requires forall k :: 0 <= k < |ds| ==> IsDigit(ds[k])
  {
    if ds == [] then acc else Accumulate(ds[1..], acc * 10 + DigitValue(ds[0]))
  }

  lemma {:induction false} AccumulateAppend(xs: string, ys: string, acc: nat)
    requires forall k :: 0 <= k < |xs| ==> IsDigit(xs[k])
    requires forall k :: 0 <= k < |ys| ==> IsDigit(ys[k])
    ensures Accumulate(xs + ys, acc) == Accumulate(ys, Accumulate(xs, acc))
    decreases |xs|
  {
    if xs == [] {
      assert xs + ys == ys;
    } else {
      assert (xs + ys)[1..] == xs[1..] + ys;
      AccumulateAppend(xs[1..], ys, acc * 10 + DigitValue(xs[0]));
    }
  }

  /** Reading back the decimal text of `n` gives `n`. */
  lemma {:induction false} DecimalValue(n: nat)
    ensures Accumulate(Decimal(n), 0) == n
    decreases n
  {
    if n >= 10 {
      DecimalValue(n / 10);
      AccumulateAppend(Decimal(n / 10), [DigitChar(n % 10)], 0);
    }
  }

  /** The digit loop of `fromBruijn` from cursor `i` with accumulator `acc`:
      the index read and the cursor after the last digit. */
  function ScanDigits(s: string, i: nat, acc: nat): (r: (nat, nat))
    ensures i <= r.1 && (i < |s| ==> r.1 <= |s|)
    ensures r.1 == i ==> r.0 == acc
    decreases |s| - i
  {
    if i < |s| && IsDigit(s[i]) then ScanDigits(s, i + 1, acc * 10 + DigitValue(s[i])) else (acc, i)
  }

  /** The scan over a maximal run of digits `s[i..j]` accumulates exactly that run. */
  lemma {:induction false} ScanRun(s: string, i: nat, j: nat, acc: nat)
    requires i <= j <= |s|
    requires forall k :: i <= k < j ==> IsDigit(s[k])
    requires j == |s| || !IsDigit(s[j])
    ensures ScanDigits(s, i, acc) == (Accumulate(s[i..j], acc), j)
    decreases j - i
  {
    if i < j {
      assert s[i..j][1..] == s[i + 1..j];
      ScanRun(s, i + 1, j, acc * 10 + DigitValue(s[i]));
    }
  }

  /** The parser `go` of `fromBruijn` from cursor `i`: the term read and the
      cursor after it. An `L` or `(` is consumed and dispatches; the separator
      after the function and the closing parenthesis are skipped without being
      looked at; anything else is read as a (possibly empty) run of digits. */
  function Parse(s: string, i: nat): (r: (Term, nat))
    ensures i <= r.1
    decreases |s| - i
  {
    if i < |s| && s[i] == 'L' then
      var (body, j) := Parse(s, i + 1);
      (Lam(body), j)
    else if i < |s| && s[i] == '(' then
      var fun := Parse(s, i + 1);
      var arg := Parse(s, fun.1 + 1);
      (App(fun.0, arg.0), arg.1 + 1)
    else
      var (idx, j) := ScanDigits(s, i, 0);
      (Var(idx), j)
  }

  /** `go` of `fromBruijn`, with the cursor passed in and out. */
  method Go(source: string, index: nat) returns (t: Term, index': nat)
    ensures (t, index') == Parse(source, index)
    decreases |source| - index
  {
    if index < |source| && source[index] == 'L' {
      var body;
      body, index' := Go(source, index + 1);
      t := Lam(body);
    } else if index < |source| && source[index] == '(' {
      var fun, afterFun := Go(source, index + 1);
      var arg, afterArg := Go(source, afterFun + 1);
      t, index' := App(fun, arg), afterArg + 1;
    } else {
      var idx: nat := 0;
      index' := index;
      while index' < |source| && IsDigit(source[index'])
        invariant index <= index'
        invariant ScanDigits(source, index', idx) == ScanDigits(source, index, 0)
        decreases |source| - index'
      {
        idx := idx * 10 + DigitValue(source[index']);
        index' := index' + 1;
      }
      t := Var(idx);
    }
  }

  /** What `toBruijn` returns. The fold returns the variable case's value at the
      root unchanged, so a bare variable is the index as a number; every other
      term is text. */
  datatype Output = Number(value: nat) | Text(text: string)

  /** `toBruijn`. */
  function ToBruijnValue(t: Term): (p: Output)
    ensures p.Number? <==> t.Var?
    ensures p.Number? ==> p.value == t.index
    ensures p.Text? ==> p.text == ToBruijn(t) && p.text[0] in "L("
  {
    if t.Var? then Number(t.index) else Text(ToBruijn(t))
  }

  /** The characters `fromBruijn` finds by indexing its argument. A number has
      none: every lookup is undefined, as past the end of a text. */
  function Characters(source: Output): (s: string)
    ensures source.Text? ==> s == source.text
    ensures source.Number? ==> s == ""
  {
    if source.Text? then source.text else ""
  }

  /** `fromBruijn`: parses from the start of its argument. */
  method FromBruijn(source: Output) returns (t: Term)
    ensures source.Text? ==> t == Parse(source.text, 0).0
    ensures source.Number? ==> t == Var(0)
  {
    var end;
    t, end := Go(Characters(source), 0);
  }

  /** Printing then parsing, anywhere in a text: the parser reads back exactly
      the printed term held between `i` and `end` and stops at `end`, provided
      the printed text is not followed by another digit. */
  lemma {:induction false} ParsePrinted(s: string, i: nat, end: nat, t: Term)
    requires i <= end <= |s| && s[i..end] == ToBruijn(t)
    requires end == |s| || !IsDigit(s[end])
    ensures Parse(s, i) == (t, end)
    decreases t, 1
  {
    ToBruijnSteps(t);
    match t
    case Var(n) => ParsePrintedVar(s, i, end, n);
    case Lam(b) => ParsePrintedLam(s, i, end, b);
    case App(f, a) => ParsePrintedApp(s, i, end, f, a);
  }

  lemma ParsePrintedVar(s: string, i: nat, end: nat, n: nat)
    requires i <= end <= |s| && s[i..end] == Decimal(n)
    requires end == |s| || !IsDigit(s[end])
    ensures Parse(s, i) == (Var(n), end)
  {
    var ds := Decimal(n);
    assert forall k :: i <= k < end ==> s[k] == ds[k - i];
    ScanRun(s, i, end, 0);
    DecimalValue(n);
  }

  lemma {:induction false} ParsePrintedLam(s: string, i: nat, end: nat, b: Term)
    requires i <= end <= |s| && s[i..end] == "L" + ToBruijn(b)
    requires end == |s| || !IsDigit(s[end])
    ensures Parse(s, i) == (Lam(b), end)
    decreases Lam(b), 0
  {
    PrintedLamAt(s, i, end, ToBruijn(b));
    assert Parse(s, i + 1) == (b, end) by {
      ParsePrinted(s, i + 1, end, b);
    }
    ParseLam(s, i, end, b);
  }

  /** The pieces of a printed binder `L` + body. */
  lemma PrintedLamAt(s: string, i: nat, end: nat, body: string)
    requires i <= end <= |s| && s[i..end] == "L" + body
    ensures i < end && s[i] == 'L' && s[i + 1..end] == body
  {
    var text := "L" + body;
    assert s[i] == text[0];
    SliceMatch(s, i, end, text, 1, |text|);
    assert text[1..|text|] == body;
  }

  /** `L` reads a body and makes a binder of it. */
  lemma ParseLam(s: string, i: nat, end: nat, b: Term)
    requires i < |s| && s[i] == 'L' && Parse(s, i + 1) == (b, end)
    ensures Parse(s, i) == (Lam(b), end)
  {
  }

  lemma {:induction false} ParsePrintedApp(s: string, i: nat, end: nat, f: Term, a: Term)
    requires i <= end <= |s| && s[i..end] == "(" + ToBruijn(f) + " " + ToBruijn(a) + ")"
    requires end == |s| || !IsDigit(s[end])
    ensures Parse(s, i) == (App(f, a), end)
    decreases App(f, a), 0
  {
    var space := i + 1 + |ToBruijn(f)|;
    var close := end - 1;
    PairAt(s, i, space, close, end, ToBruijn(f), ToBruijn(a));
    assert Parse(s, i + 1) == (f, space) by {
      ParsePrinted(s, i + 1, space, f);
    }
    assert Parse(s, space + 1) == (a, close) by {
      ParsePrinted(s, space + 1, close, a);
    }
    ParseApp(s, i, space, close, f, a);
  }

  /** `(` reads a function, skips one character, reads an argument and skips
      one more. */
  lemma ParseApp(s: string, i: nat, space: nat, close: nat, f: Term, a: Term)
    requires i < |s| && s[i] == '('
    requires Parse(s, i + 1) == (f, space) && Parse(s, space + 1) == (a, close)
    ensures Parse(s, i) == (App(f, a), close + 1)
  {
  }

  /** Reading back the text printed for any term gives that term, and the
      whole text is consumed. */
  lemma TextRoundTrip(t: Term)
    ensures Parse(ToBruijn(t), 0) == (t, |ToBruijn(t)|)
  {
    var s := ToBruijn(t);
    assert s[0..|s|] == s;
    ParsePrinted(s, 0, |s|, t);
  }

  /** `fromBruijn(toBruijn(t))` is `t` for every term but a bare variable; a
      bare variable is printed as a number, which reads back as `Var(0)`. */
  lemma RoundTrip(t: Term)
    ensures Parse(Characters(ToBruijnValue(t)), 0).0 == (if t.Var? then Var(0) else t)
    ensures t.Var? && t.index != 0 ==> Parse(Characters(ToBruijnValue(t)), 0).0 != t
  {
    if !t.Var? {
      TextRoundTrip(t);
    }
  }
}
