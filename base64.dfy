/** Base64 packing of BLC codes: the bit string is cut into 6-bit chunks from
    its end, the leftover leading bits get a `1` marker and zero padding in
    front, and every chunk is written as one symbol of the base64 alphabet. */
module Base64 {
  import opened Outcomes
  import opened Terms
  import opened Blc
  import Names

  function Upper(): string { "ABCDEFGHIJKLMNOPQRSTUVWXYZ" }
  function Numerals(): string { "0123456789" }

  /** The 64 symbols of the base64 alphabet, symbol `i` at position `i`; the
      lower-case letters are the alphabet `toName` draws from. */
  function Symbols(): string { Upper() + Names.Alphabet + Numerals() + "+/" }

  predicate IsSymbol(c: char)
  {
    'A' <= c <= 'Z' || 'a' <= c <= 'z' || '0' <= c <= '9' || c == '+' || c == '/'
  }

  /** The position of a symbol in the alphabet, read off its character range. */
  function SymbolIndex(c: char): (i: nat)
    requires IsSymbol(c)
    ensures i < 64
  {
    if 'A' <= c <= 'Z' then c as int - 'A' as int
    else if 'a' <= c <= 'z' then 26 + (c as int - 'a' as int)
    else if '0' <= c <= '9' then 52 + (c as int - '0' as int)
    else if c == '+' then 62
    else 63
  }

  lemma UpperAt(k: nat)
    requires k < 26
    ensures Upper()[k] == ('A' as int + k) as char
  {
  }

  lemma NumeralAt(k: nat)
    requires k < 10
    ensures Numerals()[k] == ('0' as int + k) as char
  {
  }

  /** Symbol `i`, computed from its character range. */
  function Symbol(i: nat): (c: char)
    requires i < 64
    ensures IsSymbol(c) && SymbolIndex(c) == i
  {
    if i < 26 then ('A' as int + i) as char
    else if i < 52 then ('a' as int + (i - 26)) as char
    else if i < 62 then ('0' as int + (i - 52)) as char
    else if i == 62 then '+'
    else '/'
  }

  /** Indexing the alphabet string gives the symbol of that position. */
  lemma {:induction false} SymbolsAt(i: nat)
    requires i < 64
    ensures Symbols()[i] == Symbol(i)
  {
    if i < 26 {
      UpperAt(i);
    } else if i < 52 {
      Names.AlphabetAt(i - 26);
    } else if i < 62 {
      NumeralAt(i - 52);
    }
  }

  /** Every symbol is the symbol of its position. */
  lemma SymbolOf(c: char)
    requires IsSymbol(c)
    ensures Symbol(SymbolIndex(c)) == c
  {
  }

  function BitChar(b: nat): char
  {
    if b % 2 == 0 then '0' else '1'
  }

  function BitValue(c: char): nat
  {
    if c == '1' then 1 else 0
  }

  function Pow2(w: nat): nat
  {
    if w == 0 then 1 else 2 * Pow2(w - 1)
  }

  /** The last `w` binary digits of `n`, most significant first. */
  function Bits(n: nat, w: nat): (b: string)
    ensures |b| == w && IsBits(b)
  {
    if w == 0 then "" else Bits(n / 2, w - 1) + [BitChar(n % 2)]
  }

  /** The number a bit string spells, most significant bit first. */
  function Value(b: string): nat
  {
    if |b| == 0 then 0 else 2 * Value(b[..|b| - 1]) + BitValue(b[|b| - 1])
  }

  lemma {:induction false} ValueOfBits(n: nat, w: nat)
    requires n < Pow2(w)
    ensures Value(Bits(n, w)) == n
  {
    if w > 0 {
      ValueOfBits(n / 2, w - 1);
      assert Bits(n, w)[..w - 1] == Bits(n / 2, w - 1);
    }
  }

  lemma {:induction false} ValueBound(b: string)
    ensures Value(b) < Pow2(|b|)
  {
    if |b| > 0 {
      ValueBound(b[..|b| - 1]);
    }
  }

  lemma {:induction false} BitsOfValue(b: string)
    requires IsBits(b)
    ensures Value(b) < Pow2(|b|) && Bits(Value(b), |b|) == b
  {
    if |b| > 0 {
      var p := b[..|b| - 1];
      BitsOfValue(p);
      assert b == p + [b[|b| - 1]];
    }
  }

  /** `i.toString(2)`: the binary digits of `i` without leading zeros. */
  function Binary(n: nat): string
  {
    if n < 2 then [BitChar(n)] else Binary(n / 2) + [BitChar(n % 2)]
  }

  /** `x.slice(-w)` on a string of at least `w` characters. */
  function Last(x: string, w: nat): string
    requires w <= |x|
  {
    x[|x| - w..]
  }

  predicate AllZeros(s: string)
  {
    forall k :: 0 <= k < |s| ==> s[k] == '0'
  }

  lemma {:induction false} BitsOfZero(w: nat)
    ensures AllZeros(Bits(0, w))
  {
    if w > 0 {
      BitsOfZero(w - 1);
    }
  }

  /** Padding `i.toString(2)` with zeros in front and keeping its last `w`
      characters gives the `w`-bit code of `i`. */
  lemma {:induction false} PaddedBinary(pad: string, n: nat, w: nat)
    requires AllZeros(pad) && w <= |pad| && n < Pow2(w)
    ensures Last(pad + Binary(n), w) == Bits(n, w)
  {
    if w == 0 {
    } else if n < 2 {
      BitsOfZero(w - 1);
      assert Last(pad + Binary(n), w) == Last(pad, w - 1) + [BitChar(n)];
    } else {
      PaddedBinary(pad, n / 2, w - 1);
      assert pad + Binary(n) == (pad + Binary(n / 2)) + [BitChar(n % 2)];
    }
  }

  /** The table entry a key has, whether or not the key is in the table: a
      6-bit string maps to its symbol, a symbol to its 6-bit string. */
  function Entry(key: string): string
  {
    if |key| == 1 && IsSymbol(key[0]) then Bits(SymbolIndex(key[0]), 6)
    else if |key| == 6 && IsBits(key) then
      BitsOfValue(key);
      [Symbol(Value(key))]
    else ""
  }

  /** The 6-bit keys after the first `n` rounds of the table's loop. */
  function Codes(n: nat): set<string>
  {
    set i | 0 <= i < n :: Bits(i, 6)
  }

  /** The one-symbol keys after the first `n` rounds of the table's loop. */
  function Singles(n: nat): set<string>
    requires n <= 64
  {
    set i | 0 <= i < n :: [Symbol(i)]
  }

  function Keys(n: nat): set<string>
    requires n <= 64
  {
    Codes(n) + Singles(n)
  }

  function TableUpTo(n: nat): map<string, string>
    requires n <= 64
  {
    map key | key in Keys(n) :: Entry(key)
  }

  /** `base64Table`. */
  function Table(): map<string, string>
  {
    TableUpTo(64)
  }

  /** The loop that fills `base64Table`. */
  method BuildTable() returns (table: map<string, string>)
    ensures table == Table()
  {
    table := map[];
    for i := 0 to 64
      invariant table == TableUpTo(i)
    {
      var bin := Last("000000" + Binary(i), 6);
      var b64 := [Symbols()[i]];
      PaddedBinary("000000", i, 6);
      SymbolsAt(i);
      TableStep(i);
      table := table[bin := b64];
      table := table[b64 := bin];
    }
  }

  /** One round of the loop adds code `i` and symbol `i`, each mapped to the
      other. */
  lemma TableStep(i: nat)
    requires i < 64
    ensures TableUpTo(i)[Bits(i, 6) := [Symbol(i)]][[Symbol(i)] := Bits(i, 6)] == TableUpTo(i + 1)
  {
    KeysStep(i);
    EntryOfBits(i);
    EntryOfSymbol(i);
  }

  lemma KeysStep(n: nat)
    requires n < 64
    ensures Keys(n + 1) == Keys(n) + {Bits(n, 6), [Symbol(n)]}
  {
    CodesStep(n);
    SinglesStep(n);
  }

  lemma CodesStep(n: nat)
    ensures Codes(n + 1) == Codes(n) + {Bits(n, 6)}
  {
    forall x | x in Codes(n + 1)
      ensures x in Codes(n) + {Bits(n, 6)}
    {
      var i :| 0 <= i < n + 1 && x == Bits(i, 6);
      if i < n {
        assert Bits(i, 6) in Codes(n);
      }
    }
    forall x | x in Codes(n)
      ensures x in Codes(n + 1)
    {
      var i :| 0 <= i < n && x == Bits(i, 6);
      assert Bits(i, 6) in Codes(n + 1);
    }
    assert Bits(n, 6) in Codes(n + 1);
  }

  lemma SinglesStep(n: nat)
    requires n < 64
    ensures Singles(n + 1) == Singles(n) + {[Symbol(n)]}
  {
    forall x | x in Singles(n + 1)
      ensures x in Singles(n) + {[Symbol(n)]}
    {
      var i :| 0 <= i < n + 1 && x == [Symbol(i)];
      if i < n {
        assert [Symbol(i)] in Singles(n);
      }
    }
    forall x | x in Singles(n)
      ensures x in Singles(n + 1)
    {
      var i :| 0 <= i < n && x == [Symbol(i)];
      assert [Symbol(i)] in Singles(n + 1);
    }
    assert [Symbol(n)] in Singles(n + 1);
  }

  lemma EntryOfBits(i: nat)
    requires i < 64
    ensures Entry(Bits(i, 6)) == [Symbol(i)]
  {
    ValueOfBits(i, 6);
  }

  lemma EntryOfSymbol(i: nat)
    requires i < 64
    ensures Entry([Symbol(i)]) == Bits(i, 6)
  {
  }

  /** The table holds exactly the 6-bit strings and the one-symbol strings. */
  lemma TableKeys(key: string)
    ensures key in Table() <==> (|key| == 6 && IsBits(key)) || (|key| == 1 && IsSymbol(key[0]))
  {
    assert key in Table() <==> key in Keys(64);
    if |key| == 6 && IsBits(key) {
      BitsOfValue(key);
      assert key == Bits(Value(key), 6);
      assert key in Codes(64);
    } else if |key| == 1 && IsSymbol(key[0]) {
      SymbolOf(key[0]);
      assert key == [Symbol(SymbolIndex(key[0]))];
      assert key in Singles(64);
    } else {
      forall i | 0 <= i < 64
        ensures key != Bits(i, 6) && key != [Symbol(i)]
      {
      }
    }
  }

  /** The table is a bijection: code `i` and symbol `i` map to each other. */
  lemma TableBijection(i: nat)
    requires i < 64
    ensures Bits(i, 6) in Table() && Table()[Bits(i, 6)] == [Symbol(i)]
    ensures [Symbol(i)] in Table() && Table()[[Symbol(i)]] == Bits(i, 6)
  {
    TableKeys(Bits(i, 6));
    TableKeys([Symbol(i)]);
    ValueOfBits(i, 6);
  }

  /** The symbol of a 6-bit chunk: the one whose position the chunk spells. */
  function Chunk(c: string): (d: string)
    requires |c| == 6
    ensures |d| == 1 && IsSymbol(d[0])
  {
    ValueBound(c);
    [Symbol(Value(c))]
  }

  /** The bits a symbol stands for. A character outside the alphabet has no
      table entry and contributes `undefined`, which string concatenation
      spells out. */
  function SymbolBits(c: char): string
  {
    if IsSymbol(c) then Bits(SymbolIndex(c), 6) else "undefined"
  }

  /** Looking a 6-bit chunk up in `base64Table` gives its symbol ... */
  lemma ChunkInTable(c: string)
    requires |c| == 6 && IsBits(c)
    ensures c in Table() && Table()[c] == Chunk(c)
  {
    BitsOfValue(c);
    TableBijection(Value(c));
  }

  /** ... and looking a character up gives its bits, when it is a symbol. */
  lemma SymbolInTable(c: char)
    ensures [c] in Table() <==> IsSymbol(c)
    ensures IsSymbol(c) ==> Table()[[c]] == SymbolBits(c)
  {
    TableKeys([c]);
    if IsSymbol(c) {
      SymbolOf(c);
      TableBijection(SymbolIndex(c));
    }
  }

  function Zeros(n: nat): (z: string)
    ensures |z| == n && AllZeros(z) && IsBits(z)
  {
    if n == 0 then "" else "0" + Zeros(n - 1)
  }

  /** The first chunk: the leftover leading bits behind a `1` and zero padding. */
  function Marker(lead: string): (m: string)
    requires |lead| < 6
    ensures |m| == 6
    ensures IsBits(lead) ==> IsBits(m)
  {
    Zeros(5 - |lead|) + "1" + lead
  }

  /** The symbols of a bit string whose length is a multiple of 6. */
  function PackChunks(c: string): string
    requires |c| % 6 == 0
    decreases |c|
  {
    if |c| == 0 then "" else Chunk(c[..6]) + PackChunks(c[6..])
  }

  /** What `toBLC64` computes from the BLC code `b`. */
  function Pack(b: string): string
  {
    var m := |b| % 6;
    Chunk(Marker(b[..m])) + PackChunks(b[m..])
  }

  /** `("000001" + blc.slice(0, i + 6)).slice(-6)` is the marker chunk. */
  lemma MarkerChunk(lead: string)
    requires |lead| < 6
    ensures Last("000001" + lead, 6) == Marker(lead)
  {
    var z := Zeros(5 - |lead|);
    assert Last("000001" + lead, 6) == z + "1" + lead;
  }

  /** `toBLC64`. */
  method ToBLC64(t: Term) returns (digits: string)
    ensures digits == Pack(ToBLC(t))
  {
    var blc := ToBLC(t);
    ToBLCBits(t);
    digits := PackBits(blc);
  }

  /** The loop of `toBLC64`: chunks are cut from the end of the code, and the
      round that runs out of bits pads the leftover with the marker. */
  method PackBits(blc: string) returns (digits: string)
    requires IsBits(blc)
    ensures digits == Pack(blc)
  {
    digits := "";
    var l := |blc|;
    var d := 0;
    while d <= l / 6
      invariant 0 <= d <= l / 6 + 1
      invariant digits == if d <= l / 6 then PackChunks(blc[l - 6 * d..]) else Pack(blc)
    {
      var i := l - d * 6 - 6;
      var bits;
      if i < 0 {
        bits := Last("000001" + blc[..i + 6], 6);
        MarkerStep(blc, d);
      } else {
        bits := blc[i..i + 6];
        PackChunksStep(blc, i);
      }
      ChunkInTable(bits);
      digits := Table()[bits] + digits;
      d := d + 1;
    }
  }

  /** The last round of `toBLC64`'s loop emits the marker chunk. */
  lemma MarkerStep(b: string, d: nat)
    requires d == |b| / 6
    ensures 0 <= |b| - 6 * d < 6
    ensures Last("000001" + b[..|b| - 6 * d], 6) == Marker(b[..|b| % 6])
    ensures Pack(b) == Chunk(Marker(b[..|b| % 6])) + PackChunks(b[|b| - 6 * d..])
  {
    MarkerChunk(b[..|b| % 6]);
  }

  /** Packing from a chunk boundary `i` emits the chunk at `i`, then the rest. */
  lemma PackChunksStep(b: string, i: nat)
    requires i + 6 <= |b| && (|b| - i) % 6 == 0
    ensures PackChunks(b[i..]) == Chunk(b[i..i + 6]) + PackChunks(b[i + 6..])
  {
    var c := b[i..];
    assert c[..6] == b[i..i + 6];
    assert c[6..] == b[i + 6..];
  }

  /** `bits.indexOf("1")`: the first `1`, or -1 when there is none. */
  function IndexOfOne(bits: string): (r: int)
    ensures -1 <= r < |bits|
    ensures r >= 0 ==> bits[r] == '1' && forall k :: 0 <= k < r ==> bits[k] != '1'
    ensures r == -1 ==> forall k :: 0 <= k < |bits| ==> bits[k] != '1'
  {
    if |bits| == 0 then -1
    else if bits[0] == '1' then 0
    else
      var r := IndexOfOne(bits[1..]);
      if r == -1 then -1 else r + 1
  }

  /** The bits after the marker: `bits.slice(bits.indexOf("1") + 1)`. */
  function AfterMarker(bits: string): string
  {
    bits[IndexOfOne(bits) + 1..]
  }

  /** The bits of the symbols after the first. */
  function Concat(digits: string): string
  {
    if |digits| == 0 then "" else Concat(digits[..|digits| - 1]) + SymbolBits(digits[|digits| - 1])
  }

  /** The BLC text `fromBLC64` hands to `fromBLC`. The first symbol's entry is
      searched for its marker, so a first character outside the table fails
      with a `TypeError`. */
  function Unpack(digits: string): Outcome<string>
  {
    if |digits| == 0 then Returns("")
    else if !IsSymbol(digits[0]) then Throws
    else Returns(AfterMarker(SymbolBits(digits[0])) + Concat(digits[1..]))
  }

  /** What `fromBLC64` computes. */
  function DecodeText(digits: string): Outcome<Term>
  {
    var blc := Unpack(digits);
    if blc.Returns? then First(Decode(blc.value, 0))
    else if blc.Throws? then Throws
    else Diverges
  }

  /** `fromBLC64`. */
  method FromBLC64(digits: string) returns (r: Outcome<Term>)
    ensures r == DecodeText(digits)
  {
    var blc := "";
    var d := 0;
    var l := |digits|;
    while d < l
      invariant 0 <= d <= l
      invariant d == 0 ==> blc == ""
      invariant d > 0 ==> IsSymbol(digits[0])
      invariant d > 0 ==> blc == AfterMarker(SymbolBits(digits[0])) + Concat(digits[1..d])
    {
      var key := [digits[d]];
      SymbolInTable(digits[d]);
      if d == 0 {
        if key !in Table() {
          // `bits` is undefined and has no `indexOf`
          return Throws;
        }
        var bits := Table()[key];
        blc := blc + bits[IndexOfOne(bits) + 1..];
        ConcatStart(AfterMarker(bits), digits);
      } else {
        var bits := if key in Table() then Table()[key] else "undefined";
        ConcatStep(AfterMarker(SymbolBits(digits[0])), digits, d);
        blc := blc + bits;
      }
      d := d + 1;
    }
    assert l > 0 ==> digits[1..l] == digits[1..];
    r := FromBLC(blc);
  }

  /** The first round of `fromBLC64`'s loop: no later symbol read yet. */
  lemma ConcatStart(head: string, digits: string)
    requires 1 <= |digits|
    ensures "" + head == head + Concat(digits[1..1])
  {
    assert digits[1..1] == [];
  }

  /** A later round of `fromBLC64`'s loop appends the bits of symbol `d`. */
  lemma ConcatStep(head: string, digits: string, d: nat)
    requires 1 <= d < |digits|
    ensures (head + Concat(digits[1..d])) + SymbolBits(digits[d]) == head + Concat(digits[1..d + 1])
  {
    assert digits[1..d + 1] == digits[1..d] + [digits[d]];
    ConcatSnoc(digits[1..d], digits[d]);
  }

  lemma ConcatSnoc(s: string, c: char)
    ensures Concat(s + [c]) == Concat(s) + SymbolBits(c)
  {
    assert (s + [c])[..|s|] == s;
  }

  /** `Concat` of a text split before its last symbol. */
  lemma ConcatLast(zs: string, init: string, last: char)
    requires zs == init + [last]
    ensures Concat(zs) == Concat(init) + SymbolBits(last)
  {
    ConcatSnoc(init, last);
  }

  lemma {:induction false} ConcatAppend(xs: string, ys: string)
    ensures Concat(xs + ys) == Concat(xs) + Concat(ys)
    decreases |ys|
  {
    if |ys| == 0 {
      assert xs + ys == xs;
    } else {
      var init, last := ys[..|ys| - 1], ys[|ys| - 1];
      assert ys == init + [last];
      assert xs + ys == (xs + init) + [last];
      var a, b, c := Concat(xs), Concat(init), SymbolBits(last);
      assert Concat(xs + ys) == Concat(xs + init) + c by {
        ConcatLast(xs + ys, xs + init, last);
      }
      assert Concat(xs + init) == a + b by {
        ConcatAppend(xs, init);
      }
      assert Concat(ys) == b + c by {
        ConcatLast(ys, init, last);
      }
      assert (a + b) + c == a + (b + c);
    }
  }

  /** Reading the symbols back gives the chunks. */
  lemma {:induction false} ConcatChunks(c: string)
    requires |c| % 6 == 0 && IsBits(c)
    ensures Concat(PackChunks(c)) == c
    decreases |c|
  {
    if |c| > 0 {
      var d := Chunk(c[..6]);
      ChunkRead(c[..6]);
      ConcatChunks(c[6..]);
      ConcatAppend(d, PackChunks(c[6..]));
      assert d[..0] == [];
      assert Concat(d) == SymbolBits(d[0]);
      assert c == c[..6] + c[6..];
    }
  }

  /** The marker is the first `1` of the first chunk. */
  lemma MarkerRead(lead: string)
    requires |lead| < 6 && IsBits(lead)
    ensures AfterMarker(Marker(lead)) == lead
  {
    var m := Marker(lead);
    var z := 5 - |lead|;
    assert m[z] == '1';
    assert forall k :: 0 <= k < z ==> m[k] == Zeros(z)[k];
    assert IndexOfOne(m) == z;
  }

  lemma BitsSlice(b: string, lo: nat, hi: nat)
    requires IsBits(b) && lo <= hi <= |b|
    ensures IsBits(b[lo..hi])
  {
    assert forall k :: 0 <= k < hi - lo ==> b[lo..hi][k] == b[lo + k];
  }

  /** The first symbol of a packed code reads back as its leftover bits. */
  lemma HeadRead(b: string)
    requires IsBits(b)
    ensures AfterMarker(SymbolBits(Pack(b)[0])) == b[..|b| % 6]
  {
    var lead := b[..|b| % 6];
    PackSplit(b);
    BitsSlice(b, 0, |b| % 6);
    ChunkRead(Marker(lead));
    MarkerRead(lead);
  }

  /** The later symbols of a packed code read back as the remaining bits. */
  lemma TailRead(b: string)
    requires IsBits(b)
    ensures Concat(Pack(b)[1..]) == b[|b| % 6..]
  {
    PackSplit(b);
    BitsSlice(b, |b| % 6, |b|);
    assert b[|b| % 6..|b|] == b[|b| % 6..];
    ConcatChunks(b[|b| % 6..]);
  }

  /** `fromBLC64` undoes the packing of `toBLC64`. */
  lemma UnpackPack(b: string)
    requires IsBits(b)
    ensures Unpack(Pack(b)) == Returns(b)
  {
    var p := Pack(b);
    PackSplit(b);
    HeadRead(b);
    TailRead(b);
    assert b == b[..|b| % 6] + b[|b| % 6..];
  }

  /** Every term survives `toBLC64` followed by `fromBLC64`. */
  lemma RoundTrip(t: Term)
    ensures DecodeText(Pack(ToBLC(t))) == Returns(t)
  {
    ToBLCBits(t);
    UnpackPack(ToBLC(t));
    Blc.RoundTrip(t);
  }

  lemma SliceShift(s: string, lo: nat, i: nat, j: nat)
    requires lo <= |s| && i <= j <= |s| - lo
    ensures s[lo..][i..j] == s[lo + i..lo + j]
  {
  }

  lemma {:induction false} ChunksLength(c: string)
    requires |c| % 6 == 0
    ensures |PackChunks(c)| == |c| / 6
    decreases |c|
  {
    if |c| > 0 {
      ChunksLength(c[6..]);
    }
  }

  /** Symbol `k` of the packed chunks reads back as bits `6k` to `6k + 6`. */
  lemma {:induction false} ChunkAt(c: string, k: nat)
    requires |c| % 6 == 0 && IsBits(c) && k < |c| / 6
    ensures |PackChunks(c)| == |c| / 6
    ensures SymbolBits(PackChunks(c)[k]) == c[6 * k..6 * k + 6]
    decreases k
  {
    ChunksLength(c);
    if k == 0 {
      ChunkRead(c[..6]);
    } else {
      var rest := c[6..];
      ChunkAt(rest, k - 1);
      assert PackChunks(c)[k] == PackChunks(rest)[k - 1];
      SliceShift(c, 6, 6 * (k - 1), 6 * (k - 1) + 6);
    }
  }

  /** A packed symbol reads back as the chunk it was made from. */
  lemma ChunkRead(c: string)
    requires |c| == 6 && IsBits(c)
    ensures SymbolBits(Chunk(c)[0]) == c
  {
    BitsOfValue(c);
  }

  lemma PackSplit(b: string)
    ensures |Pack(b)| == |b| / 6 + 1
    ensures Pack(b)[0] == Chunk(Marker(b[..|b| % 6]))[0]
    ensures Pack(b)[1..] == PackChunks(b[|b| % 6..])
  {
    ChunksLength(b[|b| % 6..]);
  }

  /** With no leftover bits the marker chunk is `000001`, symbol `B`. */
  lemma EmptyMarker()
    ensures Chunk(Marker("")) == "B"
  {
    assert Marker("") == Bits(1, 6);
    ValueOfBits(1, 6);
    assert Symbol(1) == 'B';
  }

  /** Symbol `k` after the marker reads back as the `k`-th 6 bits after the
      leftover. */
  lemma PackAt(b: string, k: nat)
    requires IsBits(b) && 1 <= k <= |b| / 6
    ensures |Pack(b)| == |b| / 6 + 1
    ensures SymbolBits(Pack(b)[k]) == b[|b| % 6 + 6 * (k - 1)..|b| % 6 + 6 * k]
  {
    var m := |b| % 6;
    var rest := b[m..];
    var p := Pack(b);
    PackSplit(b);
    ChunkAt(rest, k - 1);
    var c := PackChunks(rest)[k - 1];
    assert p[k] == c;
    SliceShift(b, m, 6 * (k - 1), 6 * (k - 1) + 6);
    assert SymbolBits(c) == b[m + 6 * (k - 1)..m + 6 * (k - 1) + 6];
    assert m + 6 * (k - 1) + 6 == m + 6 * k;
  }

  lemma PackLayout(b: string)
    requires IsBits(b)
    ensures |Pack(b)| == |b| / 6 + 1
    ensures SymbolBits(Pack(b)[0]) == Marker(b[..|b| % 6])
    ensures forall k :: 1 <= k <= |b| / 6 ==>
      SymbolBits(Pack(b)[k]) == b[|b| % 6 + 6 * (k - 1)..|b| % 6 + 6 * k]
    ensures |b| % 6 == 0 ==> Pack(b)[0] == 'B'
  {
    var m := |b| % 6;
    PackSplit(b);
    ChunkRead(Marker(b[..m]));
    forall k | 1 <= k <= |b| / 6
      ensures SymbolBits(Pack(b)[k]) == b[m + 6 * (k - 1)..m + 6 * k]
    {
      PackAt(b, k);
    }
    if m == 0 {
      assert b[..m] == "";
      EmptyMarker();
    }
  }

  lemma LeftoverLength(n: nat, a: nat, q: nat)
    requires a < 6 && n == a + 6 * q
    ensures n % 6 == a
  {
  }

  /** Packing leftover bits in front of whole chunks. */
  lemma PackOf(lead: string, rest: string)
    requires |lead| < 6 && |rest| % 6 == 0
    ensures Pack(lead + rest) == Chunk(Marker(lead)) + PackChunks(rest)
  {
    var b := lead + rest;
    var q := |rest| / 6;
    assert |rest| == 6 * q;
    LeftoverLength(|b|, |lead|, q);
    var m := |b| % 6;
    assert b[..m] == lead && b[m..] == rest;
  }

  /** A symbol's entry packs back into the symbol. */
  lemma ChunkOfSymbol(c: char)
    requires IsSymbol(c)
    ensures |SymbolBits(c)| == 6 && IsBits(SymbolBits(c))
    ensures Value(SymbolBits(c)) == SymbolIndex(c)
    ensures Chunk(SymbolBits(c)) == [c]
  {
    ValueOfBits(SymbolIndex(c), 6);
    SymbolOf(c);
  }

  lemma {:induction false} PackChunksAppend(x: string, y: string)
    requires |x| % 6 == 0 && |y| % 6 == 0
    ensures PackChunks(x + y) == PackChunks(x) + PackChunks(y)
    decreases |x|
  {
    if |x| == 0 {
      assert x + y == y;
    } else {
      assert (x + y)[..6] == x[..6];
      assert (x + y)[6..] == x[6..] + y;
      PackChunksAppend(x[6..], y);
    }
  }

  /** The bits of symbols pack back into the same symbols. */
  lemma {:induction false} PackConcat(digits: string)
    requires forall k :: 0 <= k < |digits| ==> IsSymbol(digits[k])
    ensures |Concat(digits)| == 6 * |digits| && |Concat(digits)| % 6 == 0
    ensures PackChunks(Concat(digits)) == digits
    decreases |digits|
  {
    if |digits| > 0 {
      var init, last := digits[..|digits| - 1], digits[|digits| - 1];
      PackConcat(init);
      PackConcatStep(init, last);
      assert digits == init + [last];
    }
  }

  lemma PackConcatStep(init: string, last: char)
    requires |Concat(init)| == 6 * |init| && |Concat(init)| % 6 == 0
    requires PackChunks(Concat(init)) == init
    requires IsSymbol(last)
    ensures |Concat(init + [last])| == 6 * |init| + 6 && |Concat(init + [last])| % 6 == 0
    ensures PackChunks(Concat(init + [last])) == init + [last]
  {
    var c := SymbolBits(last);
    ConcatSnoc(init, last);
    ChunkOfSymbol(last);
    LeftoverLength(|c|, 0, 1);
    LeftoverLength(|Concat(init + [last])|, 0, |init| + 1);
    PackChunksAppend(Concat(init), c);
    assert c[..6] == c && c[6..] == "";
  }

  lemma {:induction false} ValueOfNoOne(b: string)
    requires forall k :: 0 <= k < |b| ==> b[k] != '1'
    ensures Value(b) == 0
    decreases |b|
  {
    if |b| > 0 {
      ValueOfNoOne(b[..|b| - 1]);
    }
  }

  /** A 6-bit entry holding a `1` is the marker of what follows its first `1`. */
  lemma MarkerOf(bits: string)
    requires |bits| == 6 && IsBits(bits) && IndexOfOne(bits) >= 0
    ensures |AfterMarker(bits)| < 6 && Marker(AfterMarker(bits)) == bits
  {
    var p := IndexOfOne(bits);
    var lead := AfterMarker(bits);
    var m := Marker(lead);
    assert |lead| == 5 - p;
    forall k | 0 <= k < 6
      ensures m[k] == bits[k]
    {
      if k < p {
        assert m[k] == Zeros(p)[k];
      } else if k > p {
        assert m[k] == lead[k - p - 1];
      }
    }
  }

  /** The converse of `UnpackPack`: a text of symbols whose first symbol is not
      `A` (so that its entry holds the marker `1`) is what `toBLC64` packs from
      the code `fromBLC64` reads out of it. */
  lemma PackUnpack(digits: string)
    requires 1 <= |digits| && digits[0] != 'A'
    requires forall k :: 0 <= k < |digits| ==> IsSymbol(digits[k])
    ensures Unpack(digits).Returns? && Pack(Unpack(digits).value) == digits
  {
    var head := SymbolBits(digits[0]);
    if IndexOfOne(head) == -1 {
      ValueOfNoOne(head);
    }
    ChunkOfSymbol(digits[0]);
    assert Symbol(0) == 'A';
    assert IndexOfOne(head) >= 0;
    MarkerOf(head);
    PackConcat(digits[1..]);
    LeftoverLength(|Concat(digits[1..])|, 0, |digits| - 1);
    PackOf(AfterMarker(head), Concat(digits[1..]));
    assert digits == [digits[0]] + digits[1..];
  }

  lemma ValuePrefix(c: string, k: nat)
    requires 1 <= k <= |c|
    ensures Value(c[..k]) == 2 * Value(c[..k - 1]) + BitValue(c[k - 1])
  {
    assert c[..k][..k - 1] == c[..k - 1];
  }

  /** The number a 6-bit chunk spells, digit by digit. */
  lemma ValueSix(c: string)
    requires |c| == 6
    ensures Value(c) == 32 * BitValue(c[0]) + 16 * BitValue(c[1])
      + 8 * BitValue(c[2]) + 4 * BitValue(c[3])
      + 2 * BitValue(c[4]) + BitValue(c[5])
  {
    assert c[..0] == [];
    ValuePrefix(c, 1);
    ValuePrefix(c, 2);
    ValuePrefix(c, 3);
    ValuePrefix(c, 4);
    ValuePrefix(c, 5);
    ValuePrefix(c, 6);
    assert c[..6] == c;
  }

  /** The entry of symbol `i` is the 6 bits that spell `i`. */
  lemma EntryOf(c: char, bits: string, i: nat)
    requires |bits| == 6 && IsBits(bits) && i < 64 && Symbol(i) == c
    requires 32 * BitValue(bits[0]) + 16 * BitValue(bits[1])
      + 8 * BitValue(bits[2]) + 4 * BitValue(bits[3])
      + 2 * BitValue(bits[4]) + BitValue(bits[5]) == i
    ensures SymbolBits(c) == bits
  {
    ValueSix(bits);
    BitsOfValue(bits);
  }
}
