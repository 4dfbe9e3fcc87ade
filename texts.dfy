/** Facts about a text that holds another text between two cursors, shared by
    the parsers' round-trip proofs. */
module Texts {
  /** A piece of the held text sits at the same offset in the holding text. */
  lemma SliceMatch(s: string, i: nat, end: nat, text: string, lo: nat, hi: nat)
    requires i <= end <= |s| && s[i..end] == text && lo <= hi <= |text|
    ensures s[i + lo..i + hi] == text[lo..hi]
  {
    assert forall k :: lo <= k < hi ==> s[i + k] == text[k];
  }

  /** The pieces of a parenthesised pair `(f a)` held between `i` and `end`:
      the function up to the space, the argument up to the closing `)`. */
  lemma PairAt(s: string, i: nat, space: nat, close: nat, end: nat, sf: string, sa: string)
    requires i <= end <= |s| && s[i..end] == "(" + sf + " " + sa + ")"
    requires space == i + 1 + |sf| && close + 1 == end
    ensures space < close
    ensures s[i] == '(' && s[i + 1..space] == sf && s[space] == ' '
    ensures s[space + 1..close] == sa && s[close] == ')'
  {
    var text := "(" + sf + " " + sa + ")";
    var j := 1 + |sf|;
    assert s[i] == text[0];
    SliceMatch(s, i, end, text, 1, j);
    assert text[1..j] == sf;
    assert s[i + j] == text[j];
    SliceMatch(s, i, end, text, j + 1, |text| - 1);
    assert text[j + 1..|text| - 1] == sa;
    assert s[i + |text| - 1] == text[|text| - 1];
  }
}
