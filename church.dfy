/** Church numerals: `fromNumber(n)` is the term that applies its first
    argument `n` times to its second. */
module Church {
  import opened Terms
  import Bruijn
  import Blc

  /** The recursive `go` of `fromNumber`: `n` applications of variable 1
      around variable 0. */
  function Iterate(n: nat): (body: Term)
    ensures ClosedAt(body, 2)
  {
    if n == 0 then Var(0) else App(Var(1), Iterate(n - 1))
  }

  /** `fromNumber`. */
  function FromNumber(n: nat): (t: Term)
    ensures ClosedAt(t, 0)
  {
    Lam(Lam(Iterate(n)))
  }

  /** The De Bruijn text of the numeral `n`, as the test fixtures `n0` ... `n9`
      write it: `LL0`, `LL(1 0)`, `LL(1 (1 0))`, ... */
  function NumeralText(n: nat): string
  {
    "LL" + NestedText(n)
  }

  function NestedText(n: nat): string
  {
    if n == 0 then "0" else "(1 " + NestedText(n - 1) + ")"
  }

  /** `toBruijn(fromNumber(n))` is the fixture text of `n`. */
  lemma {:induction false} NumeralBruijn(n: nat)
    ensures Bruijn.ToBruijn(FromNumber(n)) == NumeralText(n)
  {
    IterateBruijn(n);
    Bruijn.ToBruijnSteps(FromNumber(n));
    Bruijn.ToBruijnSteps(Lam(Iterate(n)));
  }

  lemma {:induction false} IterateBruijn(n: nat)
    ensures Bruijn.ToBruijn(Iterate(n)) == NestedText(n)
  {
    Bruijn.ToBruijnSteps(Iterate(n));
    if n == 0 {
      assert Bruijn.Decimal(0) == "0";
    } else {
      IterateBruijn(n - 1);
      Bruijn.ToBruijnSteps(Var(1));
      assert Bruijn.Decimal(1) == "1";
    }
  }

  /** The BLC code of the numeral `n`: `0000`, then `01110` (apply variable 1)
      `n` times, then `10` (variable 0). */
  function NumeralBits(n: nat): string
  {
    "0000" + ChainBits(n)
  }

  function ChainBits(n: nat): string
  {
    if n == 0 then "10" else "01110" + ChainBits(n - 1)
  }

  lemma {:induction false} NumeralBLC(n: nat)
    ensures Blc.ToBLC(FromNumber(n)) == NumeralBits(n)
  {
    IterateBLC(n);
    Blc.ToBLCSteps(FromNumber(n));
    Blc.ToBLCSteps(Lam(Iterate(n)));
  }

  lemma {:induction false} IterateBLC(n: nat)
    ensures Blc.ToBLC(Iterate(n)) == ChainBits(n)
  {
    Blc.ToBLCSteps(Iterate(n));
    if n == 0 {
      assert Blc.VarBits(0) == "10";
    } else {
      IterateBLC(n - 1);
      Blc.ToBLCSteps(Var(1));
      assert Blc.VarBits(1) == "110";
    }
  }
}
