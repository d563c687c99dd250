/** The DNA codec: every byte written as four nucleotides, one per 2-bit
    pair, highest pair first, through a four-letter mapping (A, T, G and C in
    some order); optionally every nucleotide is replaced by its complement.
    Decoding inverts this, skipping whitespace and unknown letters. */
module Dna {
  import opened CType
  import opened LineWrap
  import opened Seqs

  predicate IsNucleotide(c: char) { c == 'A' || c == 'T' || c == 'G' || c == 'C' }

  /** The Watson-Crick base pairs, each pair listed once. */
  const BasePairs: set<(char, char)> := {('A', 'T'), ('G', 'C')}

  /** x and y form a base pair, in either order. */
  predicate BasePaired(x: char, y: char) {
    (x, y) in BasePairs || (y, x) in BasePairs
  }

  /** get_complement: A and T, G and C exchanged (case-insensitively, with an
      upper-case result); every other character is returned unchanged. */
  function Complement(c: char): (r: char)
    ensures IsNucleotide(ToUpper(c)) <==> IsNucleotide(r)
    ensures IsNucleotide(ToUpper(c)) ==> BasePaired(ToUpper(c), r)
    ensures !IsNucleotide(ToUpper(c)) ==> r == c
  {
    match ToUpper(c)
    case 'A' => 'T'
    case 'T' => 'A'
    case 'G' => 'C'
    case 'C' => 'G'
    case _ => c
  }

  /** Complementing twice gives back the upper-case nucleotide. */
  lemma ComplementInvolution(c: char)
    requires IsNucleotide(ToUpper(c))
    ensures Complement(Complement(c)) == ToUpper(c)
    ensures Complement(c) != ToUpper(c)
  {
  }

  // ---------------------------------------------------------------- mapping

  /** The reference meaning of a valid mapping: four characters whose upper
      cases are A, T, G and C in some order. */
  predicate IsPermutation(m: string) {
    |m| == 4 &&
    (forall i | 0 <= i < 4 :: IsNucleotide(ToUpper(m[i]))) &&
    (forall i, j | 0 <= i < j < 4 :: ToUpper(m[i]) != ToUpper(m[j]))
  }

  /** validate_mapping's loop from position i, with the upper-case letters
      seen so far. */
  function ValidateFrom(m: string, i: nat, seen: set<char>): bool
    requires |m| == 4 && i <= 4
    decreases 4 - i
  {
    if i == 4 then true
    else
      var c := ToUpper(m[i]);
      if !IsNucleotide(c) then false
      else if c in seen then false
      else ValidateFrom(m, i + 1, seen + {c})
  }

  /** validate_mapping: the length must be 4, then the loop. */
  function ValidMapping(m: string): bool {
    |m| == 4 && ValidateFrom(m, 0, {})
  }

  function Seen(m: string, i: nat): set<char>
    requires i <= |m|
  {
    set k | 0 <= k < i :: ToUpper(m[k])
  }

  lemma {:induction false} ValidateFromMeans(m: string, i: nat)
    requires |m| == 4 && i <= 4
    ensures ValidateFrom(m, i, Seen(m, i)) <==>
              (forall k | i <= k < 4 :: IsNucleotide(ToUpper(m[k]))) &&
              (forall j, k | 0 <= j < k && i <= k < 4 :: ToUpper(m[j]) != ToUpper(m[k]))
    decreases 4 - i
  {
    if i < 4 {
      ValidateFromMeans(m, i + 1);
      assert Seen(m, i + 1) == Seen(m, i) + {ToUpper(m[i])};
      if ToUpper(m[i]) in Seen(m, i) {
        var j :| 0 <= j < i && ToUpper(m[j]) == ToUpper(m[i]);
      }
    }
  }

  /** validate_mapping accepts exactly the case-insensitive permutations of
      A, T, G and C. */
  lemma ValidMappingIff(m: string)
    ensures ValidMapping(m) <==> IsPermutation(m)
  {
    if |m| == 4 {
      assert Seen(m, 0) == {};
      ValidateFromMeans(m, 0);
    }
  }

  /** The default mapping "atgc" (A=00, T=01, G=10, C=11) is valid. */
  lemma DefaultMappingValid()
    ensures ValidMapping("atgc")
  {
    ValidMappingIff("atgc");
  }

  /** bits_to_nucleotide: the upper case of the mapping letter at the two
      lowest bits. */
  function BitsToNucleotide(bits: nat, m: string): (r: char)
    requires |m| == 4
  {
    ToUpper(m[bits % 4])
  }

  /** nucleotide_to_bits: the first position whose mapping letter matches
      case-insensitively, -1 if there is none. */
  function NucleotideToBits(c: char, m: string): (r: int)
    requires |m| == 4
    ensures -1 <= r < 4
  {
    FindFrom(ToUpper(c), m, 0)
  }

  function FindFrom(u: char, m: string, i: nat): (r: int)
    requires |m| == 4 && i <= 4
    ensures -1 <= r < 4
    ensures r >= 0 ==> i <= r && ToUpper(m[r]) == u && forall k | i <= k < r :: ToUpper(m[k]) != u
    ensures r == -1 <==> forall k | i <= k < 4 :: ToUpper(m[k]) != u
    decreases 4 - i
  {
    if i == 4 then -1 else if ToUpper(m[i]) == u then i else FindFrom(u, m, i + 1)
  }

  /** With a valid mapping, reading a nucleotide back gives its two bits. */
  lemma BitsRoundTrip(bits: nat, m: string)
    requires ValidMapping(m) && bits < 4
    ensures NucleotideToBits(BitsToNucleotide(bits, m), m) == bits
  {
    ValidMappingIff(m);
  }

  /** The nucleotide written for two bits, complemented on request. */
  function Nucleotide(bits: nat, m: string, comp: bool): (r: char)
    requires |m| == 4
  {
    var n := BitsToNucleotide(bits, m);
    if comp then Complement(n) else n
  }

  /** The two bits the decoder reads from a character: -1 when it is
      skipped, as whitespace or as an invalid nucleotide. */
  function Symbol(c: char, m: string, comp: bool): (r: int)
    requires |m| == 4
    ensures -1 <= r < 4
    ensures IsSpace(c) ==> r == -1
  {
    if IsSpace(c) then -1 else NucleotideToBits(if comp then Complement(c) else c, m)
  }

  lemma SymbolNucleotide(bits: nat, m: string, comp: bool)
    requires ValidMapping(m) && bits < 4
    ensures Symbol(Nucleotide(bits, m, comp), m, comp) == bits
  {
    ValidMappingIff(m);
    assert !IsSpace(Nucleotide(bits, m, comp));
    BitsRoundTrip(bits, m);
    if comp {
      ComplementInvolution(BitsToNucleotide(bits, m));
    }
  }

  // ---------------------------------------------------------------- encoder

  function Pow4(n: nat): (r: nat)
    ensures r >= 1
  {
    if n == 0 then 1 else 4 * Pow4(n - 1)
  }

  /** v shifted right by k bit pairs. */
  function Shift4(v: nat, k: nat): nat
    decreases k
  {
    if k == 0 then v else Shift4(v / 4, k - 1)
  }

  /** The nucleotides of the n lowest bit pairs of v, highest pair first. */
  function NucleotidesOf(v: nat, n: nat, m: string, comp: bool): (r: string)
    requires |m| == 4
    ensures |r| == n
    decreases n
  {
    if n == 0 then [] else NucleotidesOf(v / 4, n - 1, m, comp) + [Nucleotide(v % 4, m, comp)]
  }

  /** Nucleotide i of n is written for the pair `(v >> 2(n - 1 - i)) & 3`. */
  lemma {:induction false} NucleotidesIndex(v: nat, n: nat, m: string, comp: bool, i: nat)
    requires |m| == 4 && i < n
    ensures NucleotidesOf(v, n, m, comp)[i] == Nucleotide(Shift4(v, n - 1 - i) % 4, m, comp)
    decreases n
  {
    if i < n - 1 {
      NucleotidesIndex(v / 4, n - 1, m, comp, i);
      assert Shift4(v, n - 1 - i) == Shift4(v / 4, n - 2 - i);
    }
  }

  /** The four nucleotides written for one byte. */
  function ByteNucleotides(b: byte, m: string, comp: bool): (r: string)
    requires |m| == 4
    ensures |r| == 4
  {
    NucleotidesOf(b, 4, m, comp)
  }

  function NucleotideText(bs: seq<byte>, m: string, comp: bool): (r: string)
    requires |m| == 4
    ensures |r| == 4 * |bs|
  {
    if |bs| == 0 then [] else ByteNucleotides(bs[0], m, comp) + NucleotideText(bs[1..], m, comp)
  }

  /** encode_dna's loop: every nucleotide goes through the column counter. */
  function EncodeRun(bs: seq<byte>, col: nat, wrap: nat, m: string, comp: bool): Emitted
    requires |m| == 4
    decreases |bs|
  {
    if |bs| == 0 then Emitted([], col)
    else
      var e := PutAll(col, wrap, ByteNucleotides(bs[0], m, comp));
      var rest := EncodeRun(bs[1..], e.col, wrap, m, comp);
      Emitted(e.text + rest.text, rest.col)
  }

  /** encode_dna: the final newline is written when wrapping is off or the
      last line is unfinished. The mapping has passed validate_mapping. */
  function Encode(bs: seq<byte>, m: string, wrap: nat, comp: bool): string
    requires ValidMapping(m)
  {
    var e := EncodeRun(bs, 0, wrap, m, comp);
    e.text + (if wrap == 0 || e.col > 0 then "\n" else "")
  }

  lemma {:induction false} EncodeRunIsPutAll(bs: seq<byte>, col: nat, wrap: nat, m: string, comp: bool)
    requires |m| == 4
    ensures EncodeRun(bs, col, wrap, m, comp) == PutAll(col, wrap, NucleotideText(bs, m, comp))
    decreases |bs|
  {
    if |bs| > 0 {
      var g := ByteNucleotides(bs[0], m, comp);
      PutAllAppend(col, wrap, g, NucleotideText(bs[1..], m, comp));
      EncodeRunIsPutAll(bs[1..], PutAll(col, wrap, g).col, wrap, m, comp);
    }
  }

  /** Every character the encoder writes is a nucleotide letter. */
  lemma {:induction false} NucleotidesAreLetters(v: nat, n: nat, m: string, comp: bool)
    requires ValidMapping(m)
    ensures forall i | 0 <= i < n :: IsNucleotide(NucleotidesOf(v, n, m, comp)[i])
    decreases n
  {
    if n > 0 {
      NucleotidesAreLetters(v / 4, n - 1, m, comp);
      ValidMappingIff(m);
      assert IsNucleotide(ToUpper(m[v % 4]));
    }
  }

  lemma {:induction false} TextIsLetters(bs: seq<byte>, m: string, comp: bool)
    requires ValidMapping(m)
    ensures forall i | 0 <= i < |NucleotideText(bs, m, comp)| :: IsNucleotide(NucleotideText(bs, m, comp)[i])
    decreases |bs|
  {
    if |bs| > 0 {
      NucleotidesAreLetters(bs[0], 4, m, comp);
      TextIsLetters(bs[1..], m, comp);
      var g, t := ByteNucleotides(bs[0], m, comp), NucleotideText(bs[1..], m, comp);
      assert forall i | 4 <= i < 4 + |t| :: (g + t)[i] == t[i - 4];
    }
  }

  /** Output layout: without wrapping, one line and a newline; with
      wrapping, lines of exactly `wrap` nucleotides and a final newline only
      when the last line is not already terminated. */
  lemma EncodeLayout(bs: seq<byte>, m: string, wrap: nat, comp: bool)
    requires ValidMapping(m)
    ensures wrap == 0 ==> Encode(bs, m, wrap, comp) == NucleotideText(bs, m, comp) + "\n"
    ensures wrap > 0 ==>
              var t := Layout(0, wrap, NucleotideText(bs, m, comp));
              Encode(bs, m, wrap, comp) == t + (if |t| > 0 && t[|t| - 1] != '\n' then "\n" else "")
  {
    EncodeRunIsPutAll(bs, 0, wrap, m, comp);
    if wrap > 0 {
      WrappedLayout(bs, m, wrap, comp);
    }
  }

  lemma WrappedLayout(bs: seq<byte>, m: string, wrap: nat, comp: bool)
    requires ValidMapping(m) && wrap > 0
    ensures var t := Layout(0, wrap, NucleotideText(bs, m, comp));
            var e := PutAll(0, wrap, NucleotideText(bs, m, comp));
            e.text == t && (e.col > 0 <==> |t| > 0 && t[|t| - 1] != '\n')
  {
    var g := NucleotideText(bs, m, comp);
    TextIsLetters(bs, m, comp);
    assert '\n' !in g;
    PutAllLayout(0, wrap, g);
    PutAllOpenLine(0, wrap, g);
  }

  // ---------------------------------------------------------------- decoder

  /** What the decoder reads from each character: its two bits, or -1. */
  function Symbols(s: string, m: string, comp: bool): (r: seq<int>)
    requires |m| == 4
    ensures |r| == |s| && forall i | 0 <= i < |s| :: r[i] == Symbol(s[i], m, comp)
  {
    if |s| == 0 then [] else [Symbol(s[0], m, comp)] + Symbols(s[1..], m, comp)
  }

  lemma SymbolsAppend(a: string, b: string, m: string, comp: bool)
    requires |m| == 4
    ensures Symbols(a + b, m, comp) == Symbols(a, m, comp) + Symbols(b, m, comp)
  {
  }

  /** The partial byte and the number of nucleotides in it. */
  datatype DecState = DecState(acc: nat, count: nat)

  const Start := DecState(0, 0)

  /** The bytes written, and whether the last one was padded (the
      "incomplete DNA sequence" warning). */
  datatype Decoded = Decoded(out: seq<byte>, padded: bool)

  datatype Step = Step(out: seq<byte>, next: DecState)

  /** One iteration of decode_dna's loop on the symbol of a character; the
      shift is truncated to the eight bits of an unsigned char. */
  function StepSymbol(st: DecState, d: int): (r: Step)
    ensures st.count < 4 ==> r.next.count < 4
  {
    if !(0 <= d < 4) then Step([], st)
    else
      var acc := (st.acc * 4 + d) % 256;
      if st.count + 1 == 4 then Step([acc], Start) else Step([], DecState(acc, st.count + 1))
  }

  /** After the loop, 1 to 3 pending nucleotides are shifted into the high
      bits of one more byte. */
  function Finish(st: DecState): Decoded
    requires st.count < 4
  {
    if st.count > 0 then Decoded([(st.acc * Pow4(4 - st.count)) % 256], true) else Decoded([], false)
  }

  /** The bytes the loop writes from state st. */
  function Loop(st: DecState, ds: seq<int>): seq<byte>
    decreases |ds|
  {
    if |ds| == 0 then []
    else
      var r := StepSymbol(st, ds[0]);
      r.out + Loop(r.next, ds[1..])
  }

  /** The state the loop is left in. */
  function After(st: DecState, ds: seq<int>): (r: DecState)
    ensures st.count < 4 ==> r.count < 4
    decreases |ds|
  {
    if |ds| == 0 then st else After(StepSymbol(st, ds[0]).next, ds[1..])
  }

  /** decode_dna, with a mapping that has passed validate_mapping. */
  function Decode(s: string, m: string, comp: bool): Decoded
    requires ValidMapping(m)
  {
    var ds := Symbols(s, m, comp);
    var f := Finish(After(Start, ds));
    Decoded(Loop(Start, ds) + f.out, f.padded)
  }

  predicate AllPairs(ds: seq<int>) {
    forall i | 0 <= i < |ds| :: 0 <= ds[i] < 4
  }

  /** The symbols the decoder packs. */
  function Kept(ds: seq<int>): (r: seq<int>)
    ensures |r| <= |ds| && AllPairs(r)
  {
    if |ds| == 0 then []
    else if 0 <= ds[0] < 4 then [ds[0]] + Kept(ds[1..])
    else Kept(ds[1..])
  }

  lemma {:induction false} KeptAppend(a: seq<int>, b: seq<int>)
    ensures Kept(a + b) == Kept(a) + Kept(b)
    decreases |a|
  {
    if |a| == 0 {
      assert a + b == b;
    } else {
      assert (a + b)[1..] == a[1..] + b;
      KeptAppend(a[1..], b);
    }
  }

  lemma {:induction false} KeptPairs(ds: seq<int>)
    requires AllPairs(ds)
    ensures Kept(ds) == ds
    decreases |ds|
  {
    if |ds| > 0 {
      KeptPairs(ds[1..]);
    }
  }

  /** Newlines are skipped, so wrapping does not change what is packed. */
  lemma {:induction false} KeptUnwrap(s: string, m: string, comp: bool)
    requires |m| == 4
    ensures Kept(Symbols(Unwrap(s), m, comp)) == Kept(Symbols(s, m, comp))
    decreases |s|
  {
    if |s| > 0 {
      KeptUnwrap(s[1..], m, comp);
    }
  }

  /** Skipped characters leave no trace. */
  lemma {:induction false} LoopKept(st: DecState, ds: seq<int>)
    requires st.count < 4
    ensures Loop(st, ds) == Loop(st, Kept(ds)) && After(st, ds) == After(st, Kept(ds))
    decreases |ds|
  {
    if |ds| > 0 {
      LoopKept(StepSymbol(st, ds[0]).next, ds[1..]);
      if 0 <= ds[0] < 4 {
        assert ([ds[0]] + Kept(ds[1..]))[1..] == Kept(ds[1..]);
      }
    }
  }

  lemma {:induction false} LoopAppend(st: DecState, a: seq<int>, b: seq<int>)
    ensures Loop(st, a + b) == Loop(st, a) + Loop(After(st, a), b)
    ensures After(st, a + b) == After(After(st, a), b)
    decreases |a|
  {
    if |a| == 0 {
      assert a + b == b;
    } else {
      var r := StepSymbol(st, a[0]);
      assert (a + b)[0] == a[0] && (a + b)[1..] == a[1..] + b;
      LoopAppend(r.next, a[1..], b);
      ConcatAssoc(r.out, Loop(r.next, a[1..]), Loop(After(r.next, a[1..]), b));
    }
  }

  /** The value of packed bit pairs, first pair highest. */
  function Value4(ds: seq<int>): (r: nat)
    requires AllPairs(ds)
    ensures r < Pow4(|ds|)
    decreases |ds|
  {
    if |ds| == 0 then 0 else Value4(ds[..|ds| - 1]) * 4 + ds[|ds| - 1]
  }

  /** Up to three nucleotides from the start state only accumulate. */
  lemma {:induction false} PartialByte(ds: seq<int>)
    requires AllPairs(ds) && |ds| < 4
    ensures After(Start, ds) == DecState(Value4(ds), |ds|)
    ensures Loop(Start, ds) == []
    decreases |ds|
  {
    if |ds| > 0 {
      var init, d := ds[..|ds| - 1], ds[|ds| - 1];
      assert init + [d] == ds;
      PartialByte(init);
      PartialStep(init, d);
    }
  }

  /** The step of PartialByte: one more nucleotide joins the partial byte. */
  lemma PartialStep(init: seq<int>, d: int)
    requires AllPairs(init) && |init| < 3 && 0 <= d < 4
    requires After(Start, init) == DecState(Value4(init), |init|)
    requires Loop(Start, init) == []
    ensures AllPairs(init + [d])
    ensures After(Start, init + [d]) == DecState(Value4(init + [d]), |init| + 1)
    ensures Loop(Start, init + [d]) == []
  {
    var ds := init + [d];
    assert ds[..|ds| - 1] == init;
    LoopAppend(Start, init, [d]);
    Accumulate(Value4(init), d, |init|);
    assert [d][1..] == [];
  }

  /** A nucleotide before the fourth only shifts into the accumulator. */
  lemma Accumulate(v: nat, d: int, n: nat)
    requires n < 3 && v < Pow4(n) && 0 <= d < 4
    ensures StepSymbol(DecState(v, n), d) == Step([], DecState(v * 4 + d, n + 1))
  {
    assert Pow4(0) == 1 && Pow4(1) == 4 && Pow4(2) == 16;
    assert v * 4 + d < 256;
  }

  /** Four nucleotides make one byte, the first one in the highest bits. */
  lemma FourPairs(ds: seq<int>, rest: seq<int>)
    requires AllPairs(ds) && |ds| == 4
    ensures Loop(Start, ds + rest) == [Value4(ds)] + Loop(Start, rest)
    ensures After(Start, ds + rest) == After(Start, rest)
  {
    FourthPair(ds);
    LoopAppend(Start, ds, rest);
  }

  lemma FourthPair(ds: seq<int>)
    requires AllPairs(ds) && |ds| == 4
    ensures Loop(Start, ds) == [Value4(ds)] && After(Start, ds) == Start
  {
    var init, d := ds[..3], ds[3];
    assert init + [d] == ds;
    PartialByte(init);
    LoopAppend(Start, init, [d]);
    var v := Value4(init);
    assert v < 64 by {
      assert Pow4(3) == 64;
    }
    assert Value4(ds) == v * 4 + d;
    assert StepSymbol(DecState(v, 3), d) == Step([v * 4 + d], Start);
  }

  /** The n lowest bit pairs of v, highest first. */
  function Pairs(v: nat, n: nat): (r: seq<int>)
    ensures |r| == n && AllPairs(r)
    decreases n
  {
    if n == 0 then [] else Pairs(v / 4, n - 1) + [v % 4]
  }

  lemma {:induction false} PairsValue(v: nat, n: nat)
    requires v < Pow4(n)
    ensures Value4(Pairs(v, n)) == v
    decreases n
  {
    if n > 0 {
      PairsValue(v / 4, n - 1);
      assert Pairs(v, n)[..n - 1] == Pairs(v / 4, n - 1);
    }
  }

  /** The decoder reads the encoder's nucleotides as the pairs they were
      written for. */
  lemma {:induction false} SymbolsOfNucleotides(v: nat, n: nat, m: string, comp: bool)
    requires ValidMapping(m)
    ensures Symbols(NucleotidesOf(v, n, m, comp), m, comp) == Pairs(v, n)
    decreases n
  {
    if n > 0 {
      SymbolsOfNucleotides(v / 4, n - 1, m, comp);
      SymbolNucleotide(v % 4, m, comp);
      SymbolsAppend(NucleotidesOf(v / 4, n - 1, m, comp), [Nucleotide(v % 4, m, comp)], m, comp);
    }
  }

  /** The pairs of a byte string, four per byte. */
  function PairsText(bs: seq<byte>): (r: seq<int>)
    ensures |r| == 4 * |bs| && AllPairs(r)
  {
    if |bs| == 0 then [] else Pairs(bs[0], 4) + PairsText(bs[1..])
  }

  lemma {:induction false} SymbolsOfText(bs: seq<byte>, m: string, comp: bool)
    requires ValidMapping(m)
    ensures Symbols(NucleotideText(bs, m, comp), m, comp) == PairsText(bs)
    decreases |bs|
  {
    if |bs| > 0 {
      SymbolsOfText(bs[1..], m, comp);
      SymbolsOfNucleotides(bs[0], 4, m, comp);
      SymbolsAppend(ByteNucleotides(bs[0], m, comp), NucleotideText(bs[1..], m, comp), m, comp);
    }
  }

  lemma {:induction false} LoopPairsText(bs: seq<byte>)
    ensures Loop(Start, PairsText(bs)) == bs
    ensures After(Start, PairsText(bs)) == Start
    decreases |bs|
  {
    if |bs| > 0 {
      LoopPairsText(bs[1..]);
      assert Pow4(4) == 256;
      PairsValue(bs[0], 4);
      FourPairs(Pairs(bs[0], 4), PairsText(bs[1..]));
      assert [bs[0]] + bs[1..] == bs;
    }
  }

  /** What the decoder packs from the encoder's output: the bit pairs of
      the input bytes, whatever the wrap width. */
  lemma EncodedPairs(bs: seq<byte>, m: string, wrap: nat, comp: bool)
    requires ValidMapping(m)
    ensures Kept(Symbols(Encode(bs, m, wrap, comp), m, comp)) == PairsText(bs)
  {
    var e := EncodeRun(bs, 0, wrap, m, comp);
    var g := NucleotideText(bs, m, comp);
    FinalNewlineSkipped(bs, m, wrap, comp);
    EncodeRunIsPutAll(bs, 0, wrap, m, comp);
    KeptUnwrap(e.text, m, comp);
    KeptUnwrap(g, m, comp);
    SymbolsOfText(bs, m, comp);
    KeptPairs(PairsText(bs));
  }

  /** The newline encode_dna may add at the end is skipped by the decoder. */
  lemma FinalNewlineSkipped(bs: seq<byte>, m: string, wrap: nat, comp: bool)
    requires ValidMapping(m)
    ensures Kept(Symbols(Encode(bs, m, wrap, comp), m, comp)) == Kept(Symbols(EncodeRun(bs, 0, wrap, m, comp).text, m, comp))
  {
    var e := EncodeRun(bs, 0, wrap, m, comp);
    var tail := if wrap == 0 || e.col > 0 then "\n" else "";
    SymbolsAppend(e.text, tail, m, comp);
    KeptAppend(Symbols(e.text, m, comp), Symbols(tail, m, comp));
    assert Kept(Symbols(tail, m, comp)) == [] by {
      assert Symbol('\n', m, comp) == -1;
    }
    assert Kept(Symbols(e.text, m, comp)) + [] == Kept(Symbols(e.text, m, comp));
  }

  /** Decoding the encoder's output gives the bytes back, for every wrap
      width, as long as both sides use the same mapping and complement
      flag. */
  lemma RoundTrip(bs: seq<byte>, m: string, wrap: nat, comp: bool)
    requires ValidMapping(m)
    ensures Decode(Encode(bs, m, wrap, comp), m, comp) == Decoded(bs, false)
  {
    var ds := Symbols(Encode(bs, m, wrap, comp), m, comp);
    EncodedPairs(bs, m, wrap, comp);
    LoopKept(Start, ds);
    LoopPairsText(bs);
    assert bs + [] == bs;
  }

  /** One to three trailing nucleotides become one byte holding their bits
      at the top and zeros below. */
  lemma TrailingPairs(ds: seq<int>)
    requires AllPairs(ds) && 1 <= |ds| <= 3
    ensures Finish(After(Start, ds)) == Decoded([Value4(ds) * Pow4(4 - |ds|)], true)
    ensures Loop(Start, ds) == []
  {
    PartialByte(ds);
    FinishValue(Value4(ds), |ds|);
  }

  lemma FinishValue(v: nat, n: nat)
    requires 1 <= n <= 3 && v < Pow4(n)
    ensures Finish(DecState(v, n)) == Decoded([v * Pow4(4 - n)], true)
  {
    if n == 1 {
      assert Pow4(1) == 4 && Pow4(3) == 64;
    } else if n == 2 {
      assert Pow4(2) == 16;
    } else {
      assert Pow4(3) == 64 && Pow4(1) == 4;
    }
  }

  /** Independently of the encoder: one byte per four nucleotides packed,
      and the last byte padded exactly when their number is not a multiple
      of four. */
  lemma {:induction false} LoopCounts(st: DecState, ds: seq<int>)
    requires st.count < 4
    ensures var n := st.count + |Kept(ds)|;
            |Loop(st, ds)| == n / 4 && After(st, ds).count == n % 4
    decreases |ds|
  {
    if |ds| > 0 {
      LoopCounts(StepSymbol(st, ds[0]).next, ds[1..]);
    }
  }

  lemma DecodeLength(s: string, m: string, comp: bool)
    requires ValidMapping(m)
    ensures var n := |Kept(Symbols(s, m, comp))|;
            |Decode(s, m, comp).out| == (n + 3) / 4 && Decode(s, m, comp).padded == (n % 4 != 0)
  {
    LoopCounts(Start, Symbols(s, m, comp));
  }
}
