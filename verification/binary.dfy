/** The binary codec: every byte written as eight '0'/'1' characters, most
    significant bit first, with the same line wrapping as the other encoders;
    decoding keeps only '0' and '1' and packs every eight of them into a
    byte. */
module Binary {
  import opened CType
  import opened LineWrap
  import opened Seqs

  function Pow2(n: nat): (r: nat)
    ensures r >= 1
  {
    if n == 0 then 1 else 2 * Pow2(n - 1)
  }

  predicate IsBit(c: char) { c == '0' || c == '1' }

  predicate AllBits(s: string) {
    forall i | 0 <= i < |s| :: IsBit(s[i])
  }

  function BitChar(v: nat): (r: char)
    requires v < 2
    ensures IsBit(r)
  {
    if v == 1 then '1' else '0'
  }

  function BitValue(c: char): (r: nat)
    requires IsBit(c)
    ensures r < 2
  {
    if c == '1' then 1 else 0
  }

  /** The value of a bit string read most significant bit first. */
  function BitsValue(s: string): (r: nat)
    requires AllBits(s)
    ensures r < Pow2(|s|)
    decreases |s|
  {
    if |s| == 0 then 0 else BitsValue(s[..|s| - 1]) * 2 + BitValue(s[|s| - 1])
  }

  /** The n lowest bits of v, most significant first: `(v >> i) & 1` for i
      from n - 1 down to 0. */
  function BitsOf(v: nat, n: nat): (r: string)
    ensures |r| == n && AllBits(r)
    decreases n
  {
    if n == 0 then [] else BitsOf(v / 2, n - 1) + [BitChar(v % 2)]
  }

  /** Reading back the n lowest bits of a value below 2^n gives the value. */
  lemma {:induction false} BitsOfValue(v: nat, n: nat)
    requires v < Pow2(n)
    ensures BitsValue(BitsOf(v, n)) == v
    decreases n
  {
    if n > 0 {
      BitsOfValue(v / 2, n - 1);
      var s := BitsOf(v, n);
      assert s[..n - 1] == BitsOf(v / 2, n - 1);
    }
  }

  /** The eight characters written for one byte. */
  function ByteBits(b: byte): (r: string)
    ensures |r| == 8 && AllBits(r)
  {
    BitsOf(b, 8)
  }

  lemma ByteBitsValue(b: byte)
    ensures BitsValue(ByteBits(b)) == b
  {
    assert Pow2(8) == 256;
    BitsOfValue(b, 8);
  }

  /** The bits of a byte string, without line breaks. */
  function BitsText(bs: seq<byte>): (r: string)
    ensures |r| == 8 * |bs| && AllBits(r)
  {
    if |bs| == 0 then [] else ByteBits(bs[0]) + BitsText(bs[1..])
  }

  // ---------------------------------------------------------------- encoder

  /** encode_file's loop: every bit goes through the column counter. */
  function EncodeRun(bs: seq<byte>, col: nat, wrap: nat): Emitted
    decreases |bs|
  {
    if |bs| == 0 then Emitted([], col)
    else
      var e := PutAll(col, wrap, ByteBits(bs[0]));
      var rest := EncodeRun(bs[1..], e.col, wrap);
      Emitted(e.text + rest.text, rest.col)
  }

  /** The final newline is written when wrapping is off or the last line is
      unfinished. */
  function Encode(bs: seq<byte>, wrap: nat): string {
    var e := EncodeRun(bs, 0, wrap);
    e.text + (if wrap == 0 || e.col > 0 then "\n" else "")
  }

  lemma {:induction false} EncodeRunIsPutAll(bs: seq<byte>, col: nat, wrap: nat)
    ensures EncodeRun(bs, col, wrap) == PutAll(col, wrap, BitsText(bs))
    decreases |bs|
  {
    if |bs| > 0 {
      var g := ByteBits(bs[0]);
      PutAllAppend(col, wrap, g, BitsText(bs[1..]));
      EncodeRunIsPutAll(bs[1..], PutAll(col, wrap, g).col, wrap);
    }
  }

  /** Character i of the n bits written for v is bit n - 1 - i of v,
      `(v >> (n - 1 - i)) & 1`. */
  lemma {:induction false} BitsOfIndex(v: nat, n: nat, i: nat)
    requires i < n
    ensures BitsOf(v, n)[i] == BitChar(Shift2(v, n - 1 - i) % 2)
    decreases n
  {
    if i < n - 1 {
      BitsOfIndex(v / 2, n - 1, i);
      assert Shift2(v, n - 1 - i) == Shift2(v / 2, n - 2 - i);
    }
  }

  /** v shifted right by k bits. */
  function Shift2(v: nat, k: nat): nat
    decreases k
  {
    if k == 0 then v else Shift2(v / 2, k - 1)
  }

  /** Output layout: without wrapping, all bits on one line and a newline;
      with wrapping, lines of exactly `wrap` characters and a final newline
      only when the last line is not already terminated (so nothing at all
      for empty input). */
  lemma EncodeLayout(bs: seq<byte>, wrap: nat)
    ensures wrap == 0 ==> Encode(bs, wrap) == BitsText(bs) + "\n"
    ensures wrap > 0 ==>
              var t := Layout(0, wrap, BitsText(bs));
              Encode(bs, wrap) == t + (if |t| > 0 && t[|t| - 1] != '\n' then "\n" else "")
  {
    var g := BitsText(bs);
    EncodeRunIsPutAll(bs, 0, wrap);
    if wrap > 0 {
      assert '\n' !in g;
      PutAllLayout(0, wrap, g);
      PutAllOpenLine(0, wrap, g);
    }
  }

  // ---------------------------------------------------------------- decoder

  /** The partial byte (`unsigned char byte`) and the number of bits in it. */
  datatype DecState = DecState(acc: nat, count: nat)

  const Start := DecState(0, 0)

  /** The bytes written, and whether bits were left over at the end (the
      "incomplete byte" warning). */
  datatype Decoded = Decoded(out: seq<byte>, incomplete: bool)

  function Prepend(b: seq<byte>, d: Decoded): Decoded {
    Decoded(b + d.out, d.incomplete)
  }

  datatype Step = Step(out: seq<byte>, next: DecState)

  /** One iteration of decode_file's loop. The shift is truncated to the
      eight bits of an unsigned char. */
  function StepChar(st: DecState, c: char): Step {
    if !IsBit(c) then Step([], st)
    else
      var acc := (st.acc * 2 + BitValue(c)) % 256;
      if st.count + 1 == 8 then Step([acc], Start) else Step([], DecState(acc, st.count + 1))
  }

  function Run(st: DecState, s: string): Decoded
    decreases |s|
  {
    if |s| == 0 then Decoded([], st.count != 0)
    else
      var r := StepChar(st, s[0]);
      Prepend(r.out, Run(r.next, s[1..]))
  }

  /** The state the loop is in after reading s. */
  function After(st: DecState, s: string): DecState
    decreases |s|
  {
    if |s| == 0 then st else After(StepChar(st, s[0]).next, s[1..])
  }

  function Decode(s: string): Decoded {
    Run(Start, s)
  }

  /** The characters the decoder looks at. */
  function Filter(s: string): (r: string)
    ensures AllBits(r) && |r| <= |s|
  {
    if |s| == 0 then []
    else if IsBit(s[0]) then [s[0]] + Filter(s[1..])
    else Filter(s[1..])
  }

  lemma {:induction false} FilterAppend(a: string, b: string)
    ensures Filter(a + b) == Filter(a) + Filter(b)
    decreases |a|
  {
    if |a| == 0 {
      assert a + b == b;
    } else {
      assert (a + b)[1..] == a[1..] + b;
      FilterAppend(a[1..], b);
    }
  }

  lemma {:induction false} FilterBits(s: string)
    requires AllBits(s)
    ensures Filter(s) == s
    decreases |s|
  {
    if |s| > 0 {
      FilterBits(s[1..]);
    }
  }

  lemma {:induction false} FilterUnwrap(s: string)
    ensures Filter(Unwrap(s)) == Filter(s)
    decreases |s|
  {
    if |s| > 0 {
      FilterUnwrap(s[1..]);
    }
  }

  /** Every character other than '0' and '1' is ignored. */
  lemma {:induction false} RunFilter(st: DecState, s: string)
    ensures Run(st, s) == Run(st, Filter(s))
    decreases |s|
  {
    if |s| > 0 {
      RunFilter(StepChar(st, s[0]).next, s[1..]);
      if IsBit(s[0]) {
        assert ([s[0]] + Filter(s[1..]))[1..] == Filter(s[1..]);
      }
    }
  }

  /** Decoding a concatenation: the second part starts from the state the
      first part leaves. */
  lemma {:induction false} RunAppend(st: DecState, a: string, b: string)
    ensures Run(st, a + b) == Prepend(Run(st, a).out, Run(After(st, a), b))
    decreases |a|
  {
    if |a| == 0 {
      assert a + b == b;
    } else {
      var r := StepChar(st, a[0]);
      assert (a + b)[0] == a[0] && (a + b)[1..] == a[1..] + b;
      RunAppend(r.next, a[1..], b);
      ConcatAssoc(r.out, Run(r.next, a[1..]).out, Run(After(r.next, a[1..]), b).out);
    }
  }

  lemma {:induction false} AfterAppend(st: DecState, a: string, b: string)
    ensures After(st, a + b) == After(After(st, a), b)
    decreases |a|
  {
    if |a| == 0 {
      assert a + b == b;
    } else {
      assert (a + b)[0] == a[0] && (a + b)[1..] == a[1..] + b;
      AfterAppend(StepChar(st, a[0]).next, a[1..], b);
    }
  }

  /** Up to seven bits from the start state only accumulate: nothing is
      written and the partial byte is the value of the bits so far. */
  lemma {:induction false} PartialByte(s: string)
    requires AllBits(s) && |s| < 8
    ensures After(Start, s) == DecState(BitsValue(s), |s|)
    ensures Run(Start, s).out == []
    decreases |s|
  {
    if |s| > 0 {
      var init, c := s[..|s| - 1], s[|s| - 1];
      assert init + [c] == s;
      PartialByte(init);
      RunAppend(Start, init, [c]);
      AfterAppend(Start, init, [c]);
      assert Pow2(|init|) <= 64 by {
        PowMonotone(|init|, 6);
      }
    }
  }

  lemma {:induction false} PowMonotone(m: nat, n: nat)
    requires m <= n
    ensures Pow2(m) <= Pow2(n)
    decreases n
  {
    if m < n {
      PowMonotone(m, n - 1);
    }
  }

  /** The eight bits of a byte decode to that byte and leave the start
      state. */
  lemma OneByte(b: byte, rest: string)
    ensures Run(Start, ByteBits(b) + rest) == Prepend([b], Run(Start, rest))
  {
    ByteBitsValue(b);
    EightBits(ByteBits(b), rest);
  }

  lemma {:induction false} DecodeBitsText(bs: seq<byte>)
    ensures Run(Start, BitsText(bs)) == Decoded(bs, false)
    decreases |bs|
  {
    if |bs| > 0 {
      DecodeBitsText(bs[1..]);
      OneByte(bs[0], BitsText(bs[1..]));
      assert [bs[0]] + bs[1..] == bs;
    }
  }

  /** Decoding the encoder's output gives the bytes back, for every wrap
      width, and no bits are left over. */
  lemma RoundTrip(bs: seq<byte>, wrap: nat)
    ensures Decode(Encode(bs, wrap)) == Decoded(bs, false)
  {
    var e := EncodeRun(bs, 0, wrap);
    var tail := if wrap == 0 || e.col > 0 then "\n" else "";
    EncodeRunIsPutAll(bs, 0, wrap);
    RunFilter(Start, Encode(bs, wrap));
    FilterAppend(e.text, tail);
    FilterUnwrap(e.text);
    FilterUnwrap(BitsText(bs));
    FilterBits(BitsText(bs));
    assert Filter(tail) == [];
    assert Filter(Encode(bs, wrap)) == BitsText(bs);
    DecodeBitsText(bs);
  }

  /** Independently of the encoder: the decoder writes one byte per eight
      bits read and reports leftover bits exactly when their number is not a
      multiple of eight. */
  lemma {:induction false} DecodeCounts(st: DecState, s: string)
    requires st.count < 8
    ensures var n := st.count + |Filter(s)|;
            |Run(st, s).out| == n / 8 && Run(st, s).incomplete == (n % 8 != 0)
    decreases |s|
  {
    if |s| > 0 {
      DecodeCounts(StepChar(st, s[0]).next, s[1..]);
    }
  }

  /** The byte written for eight bits is their value, the first one most
      significant. */
  lemma EightBits(s: string, rest: string)
    requires AllBits(s) && |s| == 8
    ensures Run(Start, s + rest) == Prepend([BitsValue(s)], Run(Start, rest))
  {
    var init, c := s[..7], s[7];
    assert init + [c] == s;
    PartialByte(init);
    RunAppend(Start, init, [c]);
    AfterAppend(Start, init, [c]);
    RunAppend(Start, s, rest);
  }
}
