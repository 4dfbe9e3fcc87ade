# lambda-calculus.js, modelled in Dafny

This project models the term codecs of `lambda-calculus.js`. Lambda terms use
De Bruijn indices: `Var(index)`, `Lam(body)` and `App(func, argm)`. The library
converts them to and from four textual forms:

- De Bruijn text: `LL(1 0)` (`toBruijn` / `fromBruijn`);
- named syntax: `a.b.(a b)` (`toString` / `fromString`);
- binary lambda calculus bits: `0000011100111001110011100111010`
  (`toBLC` / `fromBLC`);
- the base64 packing of those bits: `CDnOc6` (`toBLC64` / `fromBLC64`).

It also models the generic folds (`fold`, `foldScoped`), the binder namer
`toName`, the printer builder `transmogrify`, Church numerals (`fromNumber`) and
the base64 lookup table.

Modules, one per file:

- `Outcomes` and `Terms` (`terms.dfy`): the term datatype, the folds, and the
  `Outcome` of a decoder. An outcome is `Returns`, `Diverges` (the library never
  returns) or `Throws` (the host raises an exception).
- `Names` (`names.dfy`): `toName` and `transmogrify`.
- `Texts` (`texts.dfy`): slicing facts shared by the three parsers' proofs.
- `Bruijn`, `Blc`, `Base64` and `Named`: the four codecs.
- `Church` (`church.dfy`): `fromNumber` and the printed forms of numerals.
- `Fixtures` (`fixtures.dfy`): the fixtures of the test suite.

Each decoder is modelled twice:

- A pure function over the text and a cursor is its specification. It returns
  the term and the cursor after it.
- A method passes the cursor in and out and keeps the source's `while`/`for` loops. Its
  contract says it computes exactly that function.

The other loops follow the same pattern: `toName`'s do-while, `toBLC`'s run of
ones, the loop filling `base64Table`, and the packing loops of `toBLC64` and
`fromBLC64`.

The properties are proved about the specification functions:

- every round trip;
- that the BLC code is prefix-free;
- the layout of the base64 packing, and its converse;
- that the base64 table is a bijection;
- the shape and injectivity of `toName`;
- the fixtures of the test suite, for every numeral.

Inputs the library does not reject are modelled on their error path:

- Truncated BLC bits make the library count past the end of the text forever.
  An unclosed `(` in named syntax makes it build one more application on every
  pass of its loop, until the host runs out of memory. Either way it never
  returns, and the model returns `Diverges`.
- A first base64 character outside the alphabet makes the host throw a
  `TypeError`. The model returns `Throws`.
- A later base64 character outside the alphabet contributes the text
  `undefined`, as string concatenation spells it.

Some behaviours are modelled as the code has them:

- **Names are least-significant letter first.** `toName` appends the letter of
  `n % 26` and then divides. So `toName(26)` is `"ab"`.
- **Negative binder ids.** The printer gives a variable that is not bound inside
  the printed term a negative binder id. For such an id, the host's `%` keeps the
  sign, and indexing the alphabet at a negative position yields `undefined`.
  `Names.VarName` spells this out.
- **An alias takes a depth slot but makes no binder.** `x:t body` reads `body`
  at `depth + 1`. The alias's term is inserted verbatim, with no index shifting.
  A binder outside the alias is therefore counted one too far:
  `Named.AliasSlotExample` proves that `a.x:a a` reads as `Lam(Var(1))`.
- **`toBruijn` of a bare variable is a number.** The fold returns the
  variable case's value, the index, unchanged at the root, and only inside `L`
  or `( )` does concatenation turn it into text. `fromBruijn` of a number finds
  no characters and returns `Var(0)`, so `Bruijn.RoundTrip` holds for every
  term but a bare variable `Var(n)` with `n >= 1`.
- **`toBLC64`'s loop bound.** The loop runs while `d <= l / 6` with floating-point
  division. For an integer `d` this is the same as integer division, which
  `Base64.PackBits` uses.

## Model

| member | source | states |
|---|---|---|
| Terms.Fold | lambda-calculus.js:25-33 | `fold`: each constructor is replaced by the matching function, bottom up, the function before the argument; `FoldRebuilds` checks that folding with the constructors rebuilds the term |
| Terms.FoldRebuilds | lambda-calculus.js:25-33 | folding with the three constructors is the identity |
| Terms.FoldScoped | lambda-calculus.js:37-45 | `foldScoped`: the scoped fold started at depth 0; `ScopedVar`, `ScopedLam` and `ScopedApp` give its three steps |
| Terms.ScopedVar | lambda-calculus.js:37-45 | under `foldScoped`, a variable at depth `d` is reported with the binder id `d - 1 - index` |
| Terms.ScopedLam | lambda-calculus.js:37-45 | a binder at depth `d` is reported with `d`, and its body is folded at `d + 1` |
| Terms.ScopedApp | lambda-calculus.js:37-45 | both sides of an application are folded at the application's own depth |
| Names.ToName | lambda-calculus.js:49-57 | the do-while loop returns exactly `Name(n)`: the base-26 digits of `n` as letters, least significant first |
| Names.NameShape | lambda-calculus.js:49-57 | a name is non-empty and all lower-case letters, and starts with letter `n % 26`; it has one letter iff `n < 26`; a longer name never ends in `a` |
| Names.NameInjective | lambda-calculus.js:49-57 | two ids with the same name are equal |
| Names.VarName | lambda-calculus.js:50-57 | the name `toName` gives a binder id: `Name(id)` for `id >= 0`; for a negative id the host's sign-keeping `%` gives `a` when `id % 26` is zero and `undefined` otherwise |
| Names.Transmogrify | lambda-calculus.js:61-66 | `transmogrify`: the scoped fold that names every binder and variable after the binder's depth; `Named.ScopedPrinted` relates it to a direct printer |
| Names.NameExamples | lambda-calculus.js:49-57 | `toName` gives `a`, `b`, `z` for 0, 1, 25, and `ab`, `bb`, `ac` for 26, 27, 52 |
| Bruijn.ToBruijnValue | lambda-calculus.js:147-150 | `toBruijn` returns a number, the index, exactly for a bare variable, and otherwise text starting with `L` or `(` that is `ToBruijn(t)` |
| Bruijn.ToBruijn | lambda-calculus.js:147-150 | the text string concatenation makes of a subterm is non-empty; its first character is `L` exactly for a binder, `(` exactly for an application, and a digit exactly for a variable |
| Bruijn.Decimal | lambda-calculus.js:148 | an index is printed as a non-empty run of decimal digits |
| Bruijn.DecimalValue | lambda-calculus.js:136-139 | the digit loop's accumulation reads a printed index back as the same number |
| Bruijn.ScanRun | lambda-calculus.js:135-139 | over a maximal run of digits, the digit loop accumulates exactly that run and stops after it |
| Bruijn.Parse | lambda-calculus.js:123-142 | `go`: `L` reads a body, `(` reads two sides and skips a separator and the closing character unchecked, anything else is a possibly empty run of digits; the cursor never moves back |
| Bruijn.Go | lambda-calculus.js:123-142 | the recursive reader, with the cursor passed in and out, returns the term and the cursor that `Parse` specifies |
| Bruijn.FromBruijn | lambda-calculus.js:121-143 | `fromBruijn` of a text returns the term `Parse` reads from position 0; of a number, whose characters are all undefined, it returns `Var(0)` |
| Bruijn.ParsePrinted | lambda-calculus.js:121-150 | wherever the text of `t` sits in a longer text and no digit follows it, reading from its start gives `t` and stops at its end |
| Bruijn.TextRoundTrip | lambda-calculus.js:121-150 | the text printed for any term reads back as that term, and the whole text is consumed |
| Bruijn.RoundTrip | lambda-calculus.js:121-150 | `fromBruijn(toBruijn(t)) == t` for every term but a bare variable; a bare variable `Var(n)` comes back as `Var(0)`, so the round trip fails for every `n >= 1` |
| Blc.VarCode | lambda-calculus.js:207 | the `for` loop of the variable case produces `VarBits(idx)` |
| Blc.VarBitsLayout | lambda-calculus.js:207 | variable `idx` is `idx + 1` ones followed by one zero, of length `idx + 2` |
| Blc.ToBLC | lambda-calculus.js:206-209 | `toBLC`: the fold writing `00` before a body, `01` before two sides and `VarBits(idx)` for a variable; `ToBLCBits` and `DecodeEncoded` state its properties |
| Blc.ToBLCSteps | lambda-calculus.js:206-209 | a binder is `00` before its body; an application is `01` before its function and its argument |
| Blc.ToBLCBits | lambda-calculus.js:206-209 | the code has only `0` and `1` and at least two bits |
| Blc.ZeroFrom | lambda-calculus.js:198-199 | the counting loop stops at the first `0` at or after the cursor, or never when there is none |
| Blc.Decode | lambda-calculus.js:193-201 | decoding never throws, and a returned cursor lies after the start and within the text |
| Blc.Go | lambda-calculus.js:193-201 | the recursive decoder, with the cursor passed in and out, computes `Decode`, divergence included |
| Blc.FromBLC | lambda-calculus.js:191-202 | `fromBLC` returns the term `Decode` reads from position 0 |
| Blc.DecodeEncoded | lambda-calculus.js:191-209 | the code is prefix-free: whatever follows the code of `t`, decoding at its first bit returns `t` and stops after its last bit |
| Blc.RoundTrip | lambda-calculus.js:191-209 | `fromBLC(toBLC(t)) == t` for every term |
| Church.Iterate | lambda-calculus.js:71 | the body of a numeral is closed under its two binders |
| Church.FromNumber | lambda-calculus.js:70-72 | a Church numeral is a closed term |
| Church.NumeralBruijn | lambda-calculus.js:70-72 | the De Bruijn text of numeral `n` is `LL` followed by `n` nested `(1 ...)` around `0` |
| Church.NumeralBLC | lambda-calculus.js:70-72 | the BLC code of numeral `n` is `0000` followed by `n` times `01110` and then `10` |
| Base64.Symbol | lambda-calculus.js:216 | symbol `i` is a base64 symbol whose position in the alphabet is `i` |
| Base64.SymbolsAt | lambda-calculus.js:216 | character `i` of the alphabet literal is `Symbol(i)` |
| Base64.SymbolOf | lambda-calculus.js:216 | every base64 symbol is the symbol of its own position |
| Base64.PaddedBinary | lambda-calculus.js:215 | `("000000" + i.toString(2)).slice(-6)` is the 6-bit big-endian code of `i` |
| Base64.ValueOfBits | lambda-calculus.js:215 | the value of the `w`-bit code of `n < 2^w` is `n` |
| Base64.BitsOfValue | lambda-calculus.js:215 | every bit string is the code of its own value |
| Base64.Table | lambda-calculus.js:213-219 | `base64Table`: every 6-bit code maps to its symbol and every symbol to its code; `TableKeys` and `TableBijection` state it |
| Base64.BuildTable | lambda-calculus.js:213-219 | the loop builds exactly `Table()` |
| Base64.TableKeys | lambda-calculus.js:213-219 | the table's keys are exactly the 6-bit strings and the one-character base64 symbols |
| Base64.TableBijection | lambda-calculus.js:213-219 | code `i` maps to symbol `i`, and symbol `i` maps back to code `i` |
| Base64.ChunkInTable | lambda-calculus.js:242 | looking up a 6-bit chunk gives its symbol |
| Base64.SymbolInTable | lambda-calculus.js:226 | a single character is a key exactly when it is a base64 symbol, and it then maps to its bits |
| Base64.MarkerChunk | lambda-calculus.js:240 | `("000001" + lead).slice(-6)` is zeros, one `1`, then the leading bits |
| Base64.Pack | lambda-calculus.js:234-245 | the packing of a bit string: a marker chunk holding the leading `|b| % 6` bits, then one symbol per 6-bit chunk; `PackLayout` and `UnpackPack` state it |
| Base64.PackBits | lambda-calculus.js:236-244 | the loop that cuts chunks from the right end and pads the leftover computes `Pack(blc)` |
| Base64.ToBLC64 | lambda-calculus.js:234-245 | `toBLC64(t)` is `Pack(toBLC(t))` |
| Base64.PackLayout | lambda-calculus.js:234-245 | `|b| / 6 + 1` symbols: the first holds the marker and the leading `|b| % 6` bits, symbol `k` holds chunk `k` in order, and the first is `B` when `|b|` is a multiple of 6 |
| Base64.IndexOfOne | lambda-calculus.js:227 | `indexOf("1")`: the first `1`, or -1 when there is none |
| Base64.MarkerRead | lambda-calculus.js:227 | dropping the marker from a marker chunk gives back the leading bits |
| Base64.Unpack | lambda-calculus.js:223-228 | the unpacking: throws on a first character outside the table, drops the marker from the first symbol's bits and appends every later symbol's bits; `UnpackPack` and `PackUnpack` state it |
| Base64.DecodeText | lambda-calculus.js:223-230 | `fromBLC64`: the unpacked bits decoded as BLC, with the unpacking's exception passed on |
| Base64.FromBLC64 | lambda-calculus.js:223-230 | the loop computes `DecodeText`: it throws on a first character outside the table and otherwise decodes the unpacked bits |
| Base64.UnpackPack | lambda-calculus.js:223-245 | unpacking a packed bit string gives it back |
| Base64.PackUnpack | lambda-calculus.js:223-245 | conversely, packing the bits of a non-empty text of base64 symbols that does not start with `A` gives the text back |
| Base64.RoundTrip | lambda-calculus.js:223-245 | `fromBLC64(toBLC64(t)) == t` for every term |
| Named.SkipFrom | lambda-calculus.js:156-157 | the skipping loop stops at the first character that is a name character or `(`, and skips nothing else |
| Named.NameEnd | lambda-calculus.js:167-168 | the name loop stops at the first character that is not a name character |
| Named.LastIndexOf | lambda-calculus.js:177 | `lastIndexOf`: the last entry with the name, or -1 when none has it |
| Named.Resolve | lambda-calculus.js:177-178 | a name resolves to the last entry that has it: an alias's term, or the variable counting the entries after a binder; with none, `Var(depth)` |
| Named.Parse | lambda-calculus.js:155-180 | reading never throws, and a returned cursor lies within the text, strictly after the start unless reading starts at the end |
| Named.Applications | lambda-calculus.js:158-163 | the application loop never throws, and a returned cursor lies just after a `)` it consumed |
| Named.ApplicationsArgs | lambda-calculus.js:160-163 | over arguments read one after another, none starting at a `)`, and a closing `)`, the loop applies the arguments to the accumulated term left to right and stops after the `)` |
| Named.ParseAt | lambda-calculus.js:155-180 | the recursive reader, with the cursor passed in and out, and its three loops compute `Parse`, divergence included |
| Named.FromString | lambda-calculus.js:153-182 | `fromString` returns the term `Parse` reads from position 0 with an empty scope |
| Named.ParseSkip | lambda-calculus.js:156-157 | a skipped character in front of a term changes nothing |
| Named.ParseReference | lambda-calculus.js:176-177 | a name followed by a space, a `)` or the end is read as the binder or alias it resolves to |
| Named.ParseBinder | lambda-calculus.js:169-171 | `name.` followed by a body reads as a binder around that body, with `name` pushed as a real binder |
| Named.ParseAlias | lambda-calculus.js:172-175 | `name:` reads a term, and then reads on with `name` pushed as an alias of that term |
| Named.ParseApplication | lambda-calculus.js:158-163 | `(f a)` reads as the application of `f` to `a` |
| Named.ParseApplications | lambda-calculus.js:156-164 | `(f a0 a1 ...)` reads as the left-nested application `((f a0) a1) ...` and reading stops after the `)` |
| Named.ParseParenthesised | lambda-calculus.js:156-164 | a single term in parentheses is returned unwrapped |
| Named.ThreeTermsExample | lambda-calculus.js:156-164 | `x.(x x x)` reads as `Lam(App(App(Var(0), Var(0)), Var(0)))` |
| Named.ResolveAlias | lambda-calculus.js:177 | a name bound last by an alias stands for the aliased term verbatim, at any depth |
| Named.ResolveBinder | lambda-calculus.js:177 | a name bound last by a binder is the variable counting every later entry, aliases included |
| Named.ResolveUnbound | lambda-calculus.js:177 | a name bound nowhere reads as `Var(depth)` |
| Named.ScopedPrinted | lambda-calculus.js:61-66 | the scoped fold built by `transmogrify` for `toString` yields the direct printer's text at every depth |
| Named.ToString | lambda-calculus.js:185-187 | `toString`: `transmogrify` with binders written `name.body` and applications `(f a)`; `ToStringPrinted` relates it to the direct printer |
| Named.ToStringPrinted | lambda-calculus.js:185-187 | `toString(t)` is the direct printer's text at depth 0 |
| Named.ResolveName | lambda-calculus.js:177 | in the scope of the binders `toName(0)`, ..., `toName(depth - 1)`, the name `toName(depth - 1 - idx)` resolves to `Var(idx)` |
| Named.ParseShown | lambda-calculus.js:153-187 | a closed subterm printed under `depth` binders and followed by a space, `)` or the end is read back as the same term, and reading stops at its end |
| Named.ParsePrinted | lambda-calculus.js:153-187 | the printed text of a closed term reads back as the term and is consumed whole |
| Named.RoundTrip | lambda-calculus.js:153-187 | `fromString(toString(t)) == t` for every closed term |
| Named.AliasExample | lambda-calculus.js:172-177 | `x:a.a x` reads as `a.a`: the alias is replaced by its term |
| Named.AliasSlotExample | lambda-calculus.js:172-177 | `a.x:a a` reads as `Lam(Var(1))`, because the alias occupies a depth slot |
| Fixtures.ParseNumeral | test.js:4-13 | `fromBruijn` reads the text of numeral `n` as `fromNumber(n)`, for every `n`, which covers `n0` ... `n9` |
| Fixtures.NumeralRoundTrips | test.js:33-36 | for every numeral text, the BLC and base64 round trips return the parsed term, whose De Bruijn text is the numeral text again |
| Fixtures.NumeralFive | test.js:9 | the De Bruijn text of numeral 5 is `LL(1 (1 (1 (1 (1 0)))))` |
| Fixtures.NumeralFiveBits | test.js:27-28 | the BLC code of numeral 5 is `0000011100111001110011100111010` |
| Fixtures.UnpackFive | test.js:29 | unpacking `CDnOc6` gives the BLC code of numeral 5 |
| Fixtures.FiveFixtures | test.js:27-30 | numeral 5 encodes to that BLC code and to `CDnOc6`, and both decode back to numeral 5 |

## Left out

- `toFunction`, `fromFunction`, `reduce`, `toNumber` (lambda-calculus.js:76-118, 249-251): they build JavaScript source, run it with `eval`, and read back host closures tagged `isApp`. They cannot be modelled without a JavaScript evaluator. The reduction fixtures (test.js:18-24) depend on them and are left out as well.
- Module packaging (lambda-calculus.js:4, 253-272): the wrapper and the export object carry no behaviour.
- The term constructors (lambda-calculus.js:7-21) are the `Term` datatype. Objects of any other shape, and non-integer or negative indices, are excluded by the type.
- Church.FromNumber: takes a natural number. A negative or fractional argument makes the source recurse without end.
- Bruijn.ToBruijn: the decimal text of an index is written digit by digit for every index. The host writes an index of 10^21 or more in exponent notation (`1e+21`), which the digit loop reads back as `1`; the model does not capture that.
- Bruijn.Parse: indices are unbounded integers. The host accumulates them in doubles, which lose precision above 2^53.
- Stack depth: a deeply nested term can overflow the host's call stack in any of the recursive codecs. The model has no stack limit.
- Strings are sequences of characters. UTF-16 surrogate pairs and other encoding details of host strings are not modelled.
