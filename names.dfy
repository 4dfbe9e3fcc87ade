/** Display names for binders (`toName`) and the generic renderer built on the
    scoped fold (`transmogrify`). */
module Names {
  import opened Terms

  const Alphabet := "abcdefghijklmnopqrstuvwxyz"

  predicate IsLetter(c: char)
  {
    'a' <= c <= 'z'
  }

  /** Letter `d` of the alphabet, computed from its code point. */
  function Letter(d: nat): (c: char)
    requires d < 26
    ensures IsLetter(c)
  {
    ('a' as int + d) as char
  }

  /** Indexing the alphabet string gives the letter of that position. */
  lemma AlphabetAt(k: nat)
    requires k < 26
    ensures Alphabet[k] == Letter(k)
  {
  }

  /** The name `toName` gives to `n`: its base-26 digits as letters, least
      significant digit first, always at least one digit. */
  function Name(n: nat): string
    decreases n
  {
    [Letter(n % 26)] + (if n / 26 == 0 then "" else Name(n / 26))
  }

  /** `toName`: the do-while loop that appends the letter of `n % 26` and divides
      by 26 until nothing is left. */
  method ToName(n: nat) returns (name: string)
    ensures name == Name(n)
  {
    var k := n;
    var started := false;
    name := "";
    while !started || k > 0
      invariant started ==> name + (if k == 0 then "" else Name(k)) == Name(n)
      invariant !started ==> name == "" && k == n
      decreases !started, k
    {
      AlphabetAt(k % 26);
      name := name + [Alphabet[k % 26]];
      k := k / 26;
      started := true;
    }
  }

  /** A name is non-empty, made of letters, starts with the letter of the least
      significant digit, and a name of several letters never ends in `a`
      (its most significant digit is not 0). */
  lemma {:induction false} NameShape(n: nat)
    ensures |Name(n)| >= 1
    ensures Name(n)[0] == Letter(n % 26)
    ensures forall k :: 0 <= k < |Name(n)| ==> IsLetter(Name(n)[k])
    ensures |Name(n)| == 1 <==> n < 26
    ensures n > 0 ==> Name(n)[|Name(n)| - 1] != 'a'
    decreases n
  {
    if n / 26 != 0 {
      NameShape(n / 26);
      var rest := Name(n / 26);
      assert Name(n) == [Letter(n % 26)] + rest;
      forall k | 0 <= k < |Name(n)|
        ensures IsLetter(Name(n)[k])
      {
        if k > 0 { assert Name(n)[k] == rest[k - 1]; }
      }
    }
  }

  /** Different numbers get different names. */
  lemma {:induction false} NameInjective(m: nat, n: nat)
    requires Name(m) == Name(n)
    ensures m == n
    decreases n
  {
    NameShape(m);
    NameShape(n);
    assert m % 26 == n % 26;
    if m / 26 != 0 && n / 26 != 0 {
      assert Name(m / 26) == Name(m)[1..] == Name(n)[1..] == Name(n / 26);
      NameInjective(m / 26, n / 26);
    }
  }

  /** The digits run least significant first: 26 is "ab", not "ba". */
  lemma NameExamples()
    ensures Name(0) == "a" && Name(1) == "b" && Name(25) == "z"
    ensures Name(26) == "ab" && Name(27) == "bb" && Name(52) == "ac"
  {
  }

  /** `toName` on any binder id. An unbound variable gets a negative id: the
      loop then runs once, the host's `%` keeps the sign, and indexing the
      alphabet at a negative position gives `undefined`, which is appended as
      that word; only at `-0` (a multiple of 26) is the letter `a` found. */
  function VarName(id: int): string
  {
    if id >= 0 then Name(id) else if id % 26 == 0 then "a" else "undefined"
  }

  /** The binder renderer `transmogrify` passes to the scoped fold: the user's
      `lam` applied to the binder's name. */
  function NamedLam(lam: (string, string) -> string): (int, string) -> string
  {
    (id, body) => lam(VarName(id), body)
  }

  /** `transmogrify`: renders a term, naming every binder after its depth. */
  function Transmogrify(lam: (string, string) -> string, app: (string, string) -> string, t: Term): string
  {
    FoldScoped(VarName, NamedLam(lam), app, t)
  }
}
