/** The fixtures of the test suite: the Church numerals `n0` ... `n9` in De
    Bruijn text, and numeral 5 in BLC and in base64 BLC. */
module Fixtures {
  import opened Outcomes
  import opened Terms
  import Bruijn
  import Blc
  import Base64
  import opened Church

  /** `fromBruijn` reads each numeral text as the Church numeral. */
  lemma ParseNumeral(n: nat)
    ensures Bruijn.Parse(NumeralText(n), 0).0 == FromNumber(n)
  {
    NumeralBruijn(n);
    Bruijn.TextRoundTrip(FromNumber(n));
  }

  /** Both round trips of the test suite hold for every numeral text, not only
      for `n0` ... `n9`: through BLC, and through base64 BLC. */
  lemma NumeralRoundTrips(n: nat)
    ensures var t := Bruijn.Parse(NumeralText(n), 0).0;
      First(Blc.Decode(Blc.ToBLC(t), 0)) == Returns(t) &&
      Base64.DecodeText(Base64.Pack(Blc.ToBLC(t))) == Returns(t) &&
      Bruijn.ToBruijn(t) == NumeralText(n)
  {
    ParseNumeral(n);
    NumeralBruijn(n);
    Blc.RoundTrip(FromNumber(n));
    Base64.RoundTrip(FromNumber(n));
  }

  lemma NestedFive()
    ensures NestedText(5) == "(1 (1 (1 (1 (1 0)))))"
  {
    NestedFour();
  }

  lemma NestedFour()
    ensures NestedText(4) == "(1 (1 (1 (1 0))))"
  {
    NestedTwo();
    assert NestedText(3) == "(1 (1 (1 0)))";
  }

  lemma NestedTwo()
    ensures NestedText(2) == "(1 (1 0))"
  {
    assert NestedText(1) == "(1 0)";
  }

  lemma NumeralFive()
    ensures NumeralText(5) == "LL(1 (1 (1 (1 (1 0)))))"
  {
    NestedFive();
  }

  lemma ChainFive()
    ensures ChainBits(5) == "011100111001110011100111010"
  {
    ChainThree();
    assert ChainBits(4) == "0111001110011100111010";
  }

  lemma ChainThree()
    ensures ChainBits(3) == "01110011100111010"
  {
    assert ChainBits(1) == "0111010";
    assert ChainBits(2) == "011100111010";
  }

  lemma NumeralFiveBits()
    ensures NumeralBits(5) == "0000011100111001110011100111010"
  {
    ChainFive();
  }

  /** `fromBLC64` reads numeral 5's base64 text as its BLC code. */
  lemma UnpackFive()
    ensures Base64.Unpack("CDnOc6") == Returns("0000011100111001110011100111010")
  {
    Base64.EntryOf('C', "000010", 2);
    assert Base64.IndexOfOne("000010") == 4;
    assert Base64.AfterMarker("000010") == "0";
    assert "CDnOc6"[0] == 'C' && Base64.IsSymbol('C');
    assert "CDnOc6"[1..] == "DnOc6";
    TailFive();
    JoinFive();
  }

  lemma TailFive()
    ensures Base64.Concat("DnOc6") == "000011" + "100111" + "001110" + "011100" + "111010"
  {
    EntriesFive();
    SnocFive();
    Base64.ConcatSnoc("DnOc", '6');
    Base64.ConcatSnoc("DnO", 'c');
    Base64.ConcatSnoc("Dn", 'O');
    Base64.ConcatSnoc("D", 'n');
    Base64.ConcatSnoc("", 'D');
  }

  /** The table entries of the symbols of numeral 5's base64 text. */
  lemma EntriesFive()
    ensures Base64.SymbolBits('D') == "000011" && Base64.SymbolBits('n') == "100111"
    ensures Base64.SymbolBits('O') == "001110" && Base64.SymbolBits('c') == "011100"
    ensures Base64.SymbolBits('6') == "111010"
  {
    Base64.EntryOf('D', "000011", 3);
    Base64.EntryOf('n', "100111", 39);
    Base64.EntryOf('O', "001110", 14);
    Base64.EntryOf('c', "011100", 28);
    Base64.EntryOf('6', "111010", 58);
  }

  lemma JoinFive()
    ensures "0" + ("000011" + "100111" + "001110" + "011100" + "111010")
      == "0000011100111001110011100111010"
  {
  }

  lemma SnocFive()
    ensures "DnOc" + ['6'] == "DnOc6" && "DnO" + ['c'] == "DnOc" && "Dn" + ['O'] == "DnO"
    ensures "D" + ['n'] == "Dn" && "" + ['D'] == "D"
  {
  }

  /** The BLC and base64 fixtures of numeral 5 (`toBLC`, `fromBLC`,
      `toBLC64`, `fromBLC64` on `n5`). */
  lemma FiveFixtures()
    ensures Blc.ToBLC(Bruijn.Parse("LL(1 (1 (1 (1 (1 0)))))", 0).0) == "0000011100111001110011100111010"
    ensures First(Blc.Decode("0000011100111001110011100111010", 0)) == Returns(FromNumber(5))
    ensures Base64.Pack(Blc.ToBLC(FromNumber(5))) == "CDnOc6"
    ensures Base64.DecodeText("CDnOc6") == Returns(FromNumber(5))
    ensures Bruijn.ToBruijn(FromNumber(5)) == "LL(1 (1 (1 (1 (1 0)))))"
  {
    NumeralFive();
    NumeralFiveBits();
    ParseNumeral(5);
    NumeralBruijn(5);
    NumeralBLC(5);
    Blc.RoundTrip(FromNumber(5));
    UnpackFive();
    Base64.PackUnpack("CDnOc6");
  }
}
