/** Binary lambda calculus: a variable `i` is `i + 1` ones and a zero, a binder
    is `00` before its body, an application is `01` before its two sides. */
module Blc {
  import opened Outcomes
  import opened Terms
  import opened Texts

  predicate IsBits(s: string)
  {
    forall k :: 0 <= k < |s| ==> s[k] == '0' || s[k] == '1'
  }

  function Ones(n: nat): string
  {
    if n == 0 then "" else "1" + Ones(n - 1)
  }

  /** The code of variable `idx`. */
  function VarBits(idx: nat): string
  {
    Ones(idx + 1) + "0"
  }

  /** A variable's code is `idx + 1` ones followed by one zero. */
  lemma {:induction false} VarBitsLayout(idx: nat)
    ensures |VarBits(idx)| == idx + 2
    ensures forall k :: 0 <= k <= idx ==> VarBits(idx)[k] == '1'
    ensures VarBits(idx)[idx + 1] == '0'
  {
    OnesLayout(idx + 1);
  }

  lemma {:induction false} OnesLayout(n: nat)
    ensures |Ones(n)| == n && forall k :: 0 <= k < n ==> Ones(n)[k] == '1'
  {
    if n > 0 {
      OnesLayout(n - 1);
    }
  }

  /** The for loop of `toBLC`'s variable case. */
  method VarCode(idx: nat) returns (s: string)
    ensures s == VarBits(idx)
  {
    s := "";
    var i := 0;
    while i <= idx
      invariant i <= idx + 1
      invariant s + Ones(idx + 1 - i) == Ones(idx + 1)
    {
      OnesSnoc(idx - i);
      s := s + "1";
      i := i + 1;
    }
    s := s + "0";
  }

  lemma {:induction false} OnesSnoc(n: nat)
    ensures Ones(n + 1) == "1" + Ones(n) == Ones(n) + "1"
  {
    if n > 0 {
      OnesSnoc(n - 1);
    }
  }

  /** `toBLC`. */
  function ToBLC(t: Term): string
  {
    Fold(VarBits, body => "00" + body, (a, b) => "01" + a + b, t)
  }

  lemma ToBLCSteps(t: Term)
    ensures t.Var? ==> ToBLC(t) == VarBits(t.index)
    ensures t.Lam? ==> ToBLC(t) == "00" + ToBLC(t.body)
    ensures t.App? ==> ToBLC(t) == "01" + ToBLC(t.func) + ToBLC(t.argm)
  {
  }

  /** The encoder writes only zeros and ones, at least two of them. */
  lemma {:induction false} ToBLCBits(t: Term)
    ensures IsBits(ToBLC(t)) && |ToBLC(t)| >= 2
  {
    ToBLCSteps(t);
    match t
    case Var(i) => VarBitsLayout(i);
    case Lam(b) => ToBLCBits(b);
    case App(f, a) => ToBLCBits(f); ToBLCBits(a);
  }

  /** The first `0` at or after cursor `i`: where the counting loop of `fromBLC`
      stops. `None` when there is none, and the loop never stops. */
  function ZeroFrom(s: string, i: nat): (r: Option<nat>)
    ensures r.Some? ==> i <= r.value < |s| && s[r.value] == '0'
    ensures r.Some? ==> forall k :: i <= k < r.value ==> s[k] != '0'
    ensures r.None? ==> forall k :: i <= k < |s| ==> s[k] != '0'
    decreases |s| - i
  {
    if i >= |s| then None else if s[i] == '0' then Some(i) else ZeroFrom(s, i + 1)
  }

  /** `go` of `fromBLC` from cursor `i`. A `0` followed by a `0` is a binder; a
      `0` followed by anything else, even the end of the text, is an
      application; otherwise the characters up to the next `0` are counted as
      ones, and with no `0` left the loop runs forever. */
  function Decode(s: string, i: nat): (r: Outcome<(Term, nat)>)
    ensures r.Returns? ==> i < r.value.1 <= |s|
    ensures !r.Throws?
    decreases |s| - i
  {
    if i < |s| && s[i] == '0' then
      var first := Decode(s, i + 2);
      if !first.Returns? then Diverges
      else if i + 1 < |s| && s[i + 1] == '0' then Returns((Lam(first.value.0), first.value.1))
      else
        var second := Decode(s, first.value.1);
        if !second.Returns? then Diverges
        else Returns((App(first.value.0, second.value.0), second.value.1))
    else
      var zero := ZeroFrom(s, i);
      if zero.None? then Diverges else Returns((Var(zero.value - i - 1), zero.value + 1))
  }

  /** `go` of `fromBLC`, with the cursor passed in and out. */
  method Go(source: string, index: nat) returns (r: Outcome<(Term, nat)>)
    ensures r == Decode(source, index)
    decreases |source| - index
  {
    if index < |source| && source[index] == '0' {
      var isLam := index + 1 < |source| && source[index + 1] == '0';
      var first := Go(source, index + 2);
      if !first.Returns? {
        return Diverges;
      }
      if isLam {
        return Returns((Lam(first.value.0), first.value.1));
      }
      var second := Go(source, first.value.1);
      if !second.Returns? {
        return Diverges;
      }
      return Returns((App(first.value.0, second.value.0), second.value.1));
    }
    var i := 0;
    var cursor := index;
    while cursor < |source| && source[cursor] != '0'
      invariant cursor == index + i
      invariant ZeroFrom(source, cursor) == ZeroFrom(source, index)
      decreases |source| - cursor
    {
      i := i + 1;
      cursor := cursor + 1;
    }
    if cursor >= |source| {
      // the library keeps counting past the end of the text
      return Diverges;
    }
    return Returns((Var(i - 1), cursor + 1));
  }

  /** `fromBLC`: decodes from the start of the text. */
  method FromBLC(source: string) returns (r: Outcome<Term>)
    ensures r == First(Decode(source, 0))
  {
    var p := Go(source, 0);
    r := First(p);
  }

  /** The code is prefix-free: whatever follows the code of `t`, decoding from
      its first bit reads back `t` and stops right after its last bit. */
  lemma {:induction false} DecodeEncoded(s: string, i: nat, end: nat, t: Term)
    requires i <= end <= |s| && s[i..end] == ToBLC(t)
    ensures Decode(s, i) == Returns((t, end))
    decreases t, 1
  {
    ToBLCSteps(t);
    match t
    case Var(idx) => DecodeEncodedVar(s, i, end, idx);
    case Lam(b) => DecodeEncodedLam(s, i, end, b);
    case App(f, a) => DecodeEncodedApp(s, i, end, f, a);
  }

  lemma DecodeEncodedVar(s: string, i: nat, end: nat, idx: nat)
    requires i <= end <= |s| && s[i..end] == VarBits(idx)
    ensures Decode(s, i) == Returns((Var(idx), end))
  {
    var code := VarBits(idx);
    VarBitsLayout(idx);
    assert forall k :: 0 <= k < |code| ==> s[i + k] == code[k];
    assert s[i + idx + 1] == '0';
    assert forall k :: i <= k < i + idx + 1 ==> s[k] == code[k - i] == '1';
    assert ZeroFrom(s, i) == Some(i + idx + 1);
  }

  lemma {:induction false} DecodeEncodedLam(s: string, i: nat, end: nat, b: Term)
    requires i <= end <= |s| && s[i..end] == "00" + ToBLC(b)
    ensures Decode(s, i) == Returns((Lam(b), end))
    decreases Lam(b), 0
  {
    var code := "00" + ToBLC(b);
    assert s[i] == code[0] == '0' && s[i + 1] == code[1] == '0';
    SliceMatch(s, i, end, code, 2, |code|);
    assert code[2..|code|] == ToBLC(b);
    DecodeEncoded(s, i + 2, end, b);
  }

  lemma {:induction false} DecodeEncodedApp(s: string, i: nat, end: nat, f: Term, a: Term)
    requires i <= end <= |s| && s[i..end] == "01" + ToBLC(f) + ToBLC(a)
    ensures Decode(s, i) == Returns((App(f, a), end))
    decreases App(f, a), 0
  {
    var cf, ca := ToBLC(f), ToBLC(a);
    var code := "01" + cf + ca;
    var mid := i + 2 + |cf|;
    assert s[i] == '0' && s[i + 1] == '1' by {
      assert s[i] == code[0] && s[i + 1] == code[1];
    }
    SliceMatch(s, i, end, code, 2, 2 + |cf|);
    assert code[2..2 + |cf|] == cf;
    SliceMatch(s, i, end, code, 2 + |cf|, |code|);
    assert code[2 + |cf|..|code|] == ca;
    DecodeEncoded(s, i + 2, mid, f);
    DecodeEncoded(s, mid, end, a);
    DecodeApp(s, i, f, a, mid, end);
  }

  lemma DecodeApp(s: string, i: nat, f: Term, a: Term, j: nat, k: nat)
    requires i + 1 < |s| && s[i] == '0' && s[i + 1] != '0'
    requires Decode(s, i + 2) == Returns((f, j)) && Decode(s, j) == Returns((a, k))
    ensures Decode(s, i) == Returns((App(f, a), k))
  {
  }

  /** `fromBLC(toBLC(t))` is `t`. */
  lemma RoundTrip(t: Term)
    ensures First(Decode(ToBLC(t), 0)) == Returns(t)
  {
    var s := ToBLC(t);
    assert s[0..|s|] == s;
    DecodeEncoded(s, 0, |s|, t);
  }
}
