/** The ascii85 tool: Adobe-style Ascii85 with the optional 'z' (four zero
    bytes) and 'y' (four spaces) abbreviations, column wrapping on output and
    a decoder that skips blanks. */
module Ascii85 {
  import opened CType
  import opened LineWrap
  import opened Radix
  import opened Seqs

  /** The 85 symbols '!' .. 'u', in order (one string in the source; written
      here as consecutive runs). */
  const Alphabet: string :=
    "!\"#$%&'()*+,-./" + "0123456789:;<=>?@" + "ABCDEFGHIJKLMNOPQRSTUVWXYZ" + "[\\]^_`" + "abcdefghijklmnopqrstu"

  /** Symbol number i is the character with code 33 + i. */
  lemma AlphabetIsRange()
    ensures |Alphabet| == 85
    ensures forall i | 0 <= i < 85 :: Alphabet[i] == (33 + i) as char
  {
    var a, b, c, d, e := "!\"#$%&'()*+,-./", "0123456789:;<=>?@", "ABCDEFGHIJKLMNOPQRSTUVWXYZ", "[\\]^_`", "abcdefghijklmnopqrstu";
    assert forall i | 0 <= i < |a| :: a[i] == (33 + i) as char;
    assert forall i | 0 <= i < |b| :: b[i] == (48 + i) as char;
    assert forall i | 0 <= i < |c| :: c[i] == (65 + i) as char;
    assert forall i | 0 <= i < |d| :: d[i] == (91 + i) as char;
    assert forall i | 0 <= i < |e| :: e[i] == (97 + i) as char;
    assert Alphabet == a + b + c + d + e;
  }

  /** The digit a symbol stands for, -1 for any other character. */
  function DecodeChar(c: char): (r: int)
    ensures -1 <= r < 85
    ensures r >= 0 <==> '!' <= c <= 'u'
  {
    if '!' <= c <= 'u' then c as int - 33 else -1
  }

  /** Every character DecodeChar accepts is the symbol of the digit it gives. */
  lemma DecodeAccepted(c: char)
    requires DecodeChar(c) >= 0
    ensures Alphabet[DecodeChar(c)] == c
  {
    AlphabetIsRange();
  }

  /** Decoding a symbol gives back its digit. */
  lemma DecodeSymbol(d: int)
    requires 0 <= d < 85
    ensures DecodeChar(Alphabet[d]) == d
  {
    AlphabetIsRange();
  }

  function Symbols(ds: seq<nat>): (r: string)
    requires forall i | 0 <= i < |ds| :: ds[i] < 85
    ensures |r| == |ds|
  {
    seq(|ds|, i requires 0 <= i < |ds| => Alphabet[ds[i]])
  }

  predicate AllSymbols(s: string) {
    forall i | 0 <= i < |s| :: DecodeChar(s[i]) >= 0
  }

  function DigitsOf(s: string): (r: seq<nat>)
    requires AllSymbols(s)
    ensures |r| == |s|
  {
    seq(|s|, i requires 0 <= i < |s| => DecodeChar(s[i]) as nat)
  }

  lemma DigitsOfSymbols(ds: seq<nat>)
    requires forall i | 0 <= i < |ds| :: ds[i] < 85
    ensures AllSymbols(Symbols(ds)) && DigitsOf(Symbols(ds)) == ds
  {
    forall i | 0 <= i < |ds|
      ensures DecodeChar(Symbols(ds)[i]) == ds[i]
    {
      DecodeSymbol(ds[i]);
    }
  }

  const Zeros: seq<byte> := [0, 0, 0, 0]
  const Spaces: seq<byte> := [32, 32, 32, 32]

  /** A group of fewer than four bytes is completed with zero bytes. */
  function Padded(g: seq<byte>): (r: seq<byte>)
    requires |g| <= 4
    ensures |r| == 4 && r[..|g|] == g
  {
    g + Repeat(0, 4 - |g|)
  }

  /** encode_group: one group of one to four bytes becomes 'z', 'y', or the
      leading |g| + 1 of the five base-85 digits of the zero-padded group. */
  function EncodeGroup(g: seq<byte>, useZ: bool, useY: bool): (r: string)
    requires 1 <= |g| <= 4
    ensures r == "z" <==> useZ && g == Zeros
    ensures r == "y" <==> useY && g == Spaces
    ensures r != "z" && r != "y" ==> |r| == |g| + 1 && AllSymbols(r)
  {
    var v := Pack(Padded(g));
    SpecialGroups(g);
    if |g| == 4 && useZ && v == 0 then "z"
    else if |g| == 4 && useY && v == 0x20202020 then "y"
    else
      DigitsOfSymbols(Digits85(v, 5)[..|g| + 1]);
      Symbols(Digits85(v, 5)[..|g| + 1])
  }

  /** A full group packs to 0 exactly when it is four zero bytes, and to
      0x20202020 exactly when it is four spaces. */
  lemma SpecialGroups(g: seq<byte>)
    requires 1 <= |g| <= 4
    ensures |g| == 4 ==> Padded(g) == g
    ensures |g| == 4 ==> (Pack(g) == 0 <==> g == Zeros)
    ensures |g| == 4 ==> (Pack(g) == 0x20202020 <==> g == Spaces)
  {
    if |g| == 4 {
      assert g + [] == g;
      BytesPack(g);
      ZerosPack();
      SpacesPack();
    }
  }

  lemma ZerosPack()
    ensures Pack(Zeros) == 0 && BytesBE(0, 4) == Zeros
  {
    PackFour(0, 0, 0, 0);
  }

  lemma SpacesPack()
    ensures Pack(Spaces) == 0x20202020 && BytesBE(0x20202020, 4) == Spaces
  {
    PackFour(32, 32, 32, 32);
  }

  /** The result of decode_group: its return value and the contents of the
      caller's four-byte output array afterwards. */
  datatype GroupOut = GroupOut(n: int, buf: seq<byte>)

  /** The bytes the caller writes for a decoded group. */
  function Emit(g: GroupOut): seq<byte>
    requires g.n <= |g.buf|
  {
    if g.n > 0 then g.buf[..g.n] else []
  }

  /** The value of a group of symbols, missing digits read as 84 ('u'). */
  function GroupValue(s: string): nat
    requires |s| <= 5 && AllSymbols(s)
  {
    Value85(DigitsOf(s) + Repeat(84, 5 - |s|))
  }

  /** decode_group. As written, a group of n + 1 symbols (n < 4) stores its n
      lowest value bytes at the END of the output array, positions 4 - n .. 3,
      leaves positions 0 .. 3 - n as they were, and the caller then writes
      positions 0 .. n - 1. With `fixed` all four bytes are stored big-endian,
      so the caller writes the n high bytes, which are the group's bytes. */
  function DecodeGroup(s: string, prev: seq<byte>, fixed: bool): (r: GroupOut)
    requires 1 <= |s| <= 5 && |prev| == 4
    ensures |r.buf| == 4 && r.n <= 4
    ensures s == "z" ==> r == GroupOut(4, Zeros)
    ensures s == "y" ==> r == GroupOut(4, Spaces)
    ensures s != "z" && s != "y" && !AllSymbols(s) ==> r == GroupOut(-1, prev)
    ensures s != "z" && s != "y" && AllSymbols(s) ==>
              r.n == |s| - 1 &&
              (!fixed ==> r.buf[..4 - r.n] == prev[..4 - r.n] && r.buf[4 - r.n..] == BytesBE(GroupValue(s), r.n)) &&
              (fixed ==> r.buf == BytesBE(GroupValue(s), 4))
  {
    if |s| == 1 && s[0] == 'z' then GroupOut(4, Zeros)
    else if |s| == 1 && s[0] == 'y' then GroupOut(4, Spaces)
    else if !AllSymbols(s) then GroupOut(-1, prev)
    else
      var value := GroupValue(s);
      var n := if |s| > 1 then |s| - 1 else 0;
      if fixed then GroupOut(n, BytesBE(value, 4))
      else GroupOut(n, prev[..4 - n] + BytesBE(value, n))
  }

  // ---------------------------------------------------------------- encoder

  /** The group encodings of b back to back, without line breaks. */
  function GroupsText(b: seq<byte>, useZ: bool, useY: bool): string
    decreases |b|
  {
    if |b| == 0 then ""
    else if |b| < 4 then EncodeGroup(b, useZ, useY)
    else EncodeGroup(b[..4], useZ, useY) + GroupsText(b[4..], useZ, useY)
  }

  /** encode_ascii85's loop: read up to four bytes, write each symbol of the
      group's encoding through the column counter. */
  function EncodeRun(b: seq<byte>, col: nat, wrap: nat, useZ: bool, useY: bool): Emitted
    decreases |b|
  {
    if |b| == 0 then Emitted([], col)
    else if |b| < 4 then PutAll(col, wrap, EncodeGroup(b, useZ, useY))
    else
      var e := PutAll(col, wrap, EncodeGroup(b[..4], useZ, useY));
      var rest := EncodeRun(b[4..], e.col, wrap, useZ, useY);
      Emitted(e.text + rest.text, rest.col)
  }

  /** encode_ascii85: the groups, then a newline when wrapping is off or the
      last line is unfinished. */
  function Encode(b: seq<byte>, wrap: nat, useZ: bool, useY: bool): string {
    var e := EncodeRun(b, 0, wrap, useZ, useY);
    e.text + (if wrap == 0 || e.col > 0 then "\n" else "")
  }

  lemma {:induction false} GroupsNoNewline(b: seq<byte>, useZ: bool, useY: bool)
    ensures '\n' !in GroupsText(b, useZ, useY)
    decreases |b|
  {
    if |b| > 0 {
      var n := if |b| < 4 then |b| else 4;
      GroupsNoNewline(b[n..], useZ, useY);
      assert GroupsText(b, useZ, useY) == EncodeGroup(b[..n], useZ, useY) + GroupsText(b[n..], useZ, useY) by {
        if |b| < 4 {
          assert b[..n] == b && b[n..] == [];
        }
      }
      var g := EncodeGroup(b[..n], useZ, useY);
      if g != "z" && g != "y" {
        assert forall i | 0 <= i < |g| :: g[i] != '\n' by {
          forall i | 0 <= i < |g| ensures g[i] != '\n' {
            assert DecodeChar(g[i]) >= 0;
          }
        }
      }
    }
  }

  /** Writing group by group is writing all group symbols in one stream. */
  lemma {:induction false} EncodeRunIsPutAll(b: seq<byte>, col: nat, wrap: nat, useZ: bool, useY: bool)
    ensures EncodeRun(b, col, wrap, useZ, useY) == PutAll(col, wrap, GroupsText(b, useZ, useY))
    decreases |b|
  {
    if |b| >= 4 {
      var g := EncodeGroup(b[..4], useZ, useY);
      PutAllAppend(col, wrap, g, GroupsText(b[4..], useZ, useY));
      EncodeRunIsPutAll(b[4..], PutAll(col, wrap, g).col, wrap, useZ, useY);
    }
  }

  /** Output layout: without wrapping, the groups on one line; with wrapping,
      lines of exactly `wrap` symbols and a final newline only when the last
      line is not already terminated. */
  lemma EncodeLayout(b: seq<byte>, wrap: nat, useZ: bool, useY: bool)
    ensures wrap == 0 ==> Encode(b, wrap, useZ, useY) == GroupsText(b, useZ, useY) + "\n"
    ensures wrap > 0 ==>
              var t := Layout(0, wrap, GroupsText(b, useZ, useY));
              Encode(b, wrap, useZ, useY) == t + (if |t| > 0 && t[|t| - 1] != '\n' then "\n" else "")
  {
    var g := GroupsText(b, useZ, useY);
    EncodeRunIsPutAll(b, 0, wrap, useZ, useY);
    if wrap > 0 {
      PutAllLayout(0, wrap, g);
      GroupsNoNewline(b, useZ, useY);
      PutAllOpenLine(0, wrap, g);
    }
  }

  // ---------------------------------------------------------------- decoder

  datatype Status = Ok | MidGroupToken | InvalidSequence | IncompleteGroup

  /** What the decoder wrote before it stopped, and why it stopped. */
  datatype Decoded = Decoded(out: seq<byte>, status: Status)

  function Prepend(b: seq<byte>, d: Decoded): Decoded {
    Decoded(b + d.out, d.status)
  }

  /** The decoder's state: buffered symbols and the `decoded` array, which
      keeps its contents from one group to the next. */
  datatype DecState = DecState(group: string, last: seq<byte>)

  predicate Valid(st: DecState) {
    |st.group| < 5 && |st.last| == 4
  }

  datatype Step = Continue(out: seq<byte>, next: DecState) | Stop(status: Status)

  /** One iteration of decode_ascii85's loop. */
  function StepChar(st: DecState, c: char, fixed: bool): (r: Step)
    requires Valid(st)
    ensures r.Continue? ==> Valid(r.next)
  {
    if c == ' ' || c == '\t' || c == '\n' || c == '\r' then Continue([], st)
    else if c == 'z' || c == 'y' then
      if |st.group| > 0 then Stop(MidGroupToken)
      else
        var g := DecodeGroup([c], st.last, fixed);
        Continue(Emit(g), DecState([], g.buf))
    else if DecodeChar(c) >= 0 then
      if |st.group| + 1 == 5 then
        var g := DecodeGroup(st.group + [c], st.last, fixed);
        if g.n > 0 then Continue(Emit(g), DecState([], g.buf)) else Stop(InvalidSequence)
      else Continue([], DecState(st.group + [c], st.last))
    else Continue([], st)
  }

  /** End of input: a single leftover symbol is an error, two to four are
      decoded as a partial group. */
  function Finish(st: DecState, fixed: bool): Decoded
    requires Valid(st)
  {
    if |st.group| == 0 then Decoded([], Ok)
    else if |st.group| < 2 then Decoded([], IncompleteGroup)
    else Decoded(Emit(DecodeGroup(st.group, st.last, fixed)), Ok)
  }

  function Run(st: DecState, s: string, fixed: bool): Decoded
    requires Valid(st)
    decreases |s|
  {
    if |s| == 0 then Finish(st, fixed)
    else match StepChar(st, s[0], fixed)
      case Stop(e) => Decoded([], e)
      case Continue(o, next) => Prepend(o, Run(next, s[1..], fixed))
  }

  /** decode_ascii85; `init` is the initial, unspecified content of the
      `decoded` array. */
  function Decode(s: string, init: seq<byte>, fixed: bool): Decoded
    requires |init| == 4
  {
    Run(DecState([], init), s, fixed)
  }

  /** Line breaks do not affect decoding. */
  lemma {:induction false} RunUnwrap(st: DecState, s: string, fixed: bool)
    requires Valid(st)
    ensures Run(st, s, fixed) == Run(st, Unwrap(s), fixed)
    decreases |s|
  {
    if |s| > 0 {
      var r := StepChar(st, s[0], fixed);
      if s[0] == '\n' {
        RunUnwrap(st, s[1..], fixed);
        assert r == Continue([], st);
        assert Unwrap(s) == Unwrap(s[1..]);
        assert Run(st, s, fixed) == Prepend([], Run(st, s[1..], fixed));
      } else {
        var u := Unwrap(s);
        assert u[0] == s[0] && u[1..] == Unwrap(s[1..]);
        if r.Continue? {
          RunUnwrap(r.next, s[1..], fixed);
        }
        SameHead(st, s, u, fixed);
      }
    }
  }

  /** Two inputs with the same first character that decode alike after it
      decode alike. */
  lemma SameHead(st: DecState, s: string, t: string, fixed: bool)
    requires Valid(st) && |s| > 0 && |t| > 0 && s[0] == t[0]
    requires var r := StepChar(st, s[0], fixed);
             r.Continue? ==> Run(r.next, s[1..], fixed) == Run(r.next, t[1..], fixed)
    ensures Run(st, s, fixed) == Run(st, t, fixed)
  {
  }

  /** A 'z' or 'y' after the start of a group stops the decoder. */
  lemma TokenInsideGroup(st: DecState, c: char, s: string, fixed: bool)
    requires Valid(st) && |st.group| > 0 && (c == 'z' || c == 'y')
    ensures Run(st, [c] + s, fixed) == Decoded([], MidGroupToken)
  {
  }

  /** One character of input, then the rest. */
  lemma RunCons(st: DecState, c: char, rest: string, fixed: bool)
    requires Valid(st)
    ensures var r := StepChar(st, c, fixed);
            Run(st, [c] + rest, fixed) ==
              if r.Stop? then Decoded([], r.status) else Prepend(r.out, Run(r.next, rest, fixed))
  {
    assert ([c] + rest)[0] == c && ([c] + rest)[1..] == rest;
  }

  lemma AllSymbolsTail(s: string)
    requires |s| > 0 && AllSymbols(s)
    ensures DecodeChar(s[0]) >= 0 && AllSymbols(s[1..])
  {
    forall i | 0 <= i < |s| - 1 ensures DecodeChar(s[1..][i]) >= 0 {
      assert s[1..][i] == s[i + 1];
    }
  }

  /** Symbols that do not complete a group are only buffered. */
  lemma {:induction false} RunSymbols(st: DecState, syms: string, rest: string, fixed: bool)
    requires Valid(st) && AllSymbols(syms) && |st.group| + |syms| < 5
    ensures Run(st, syms + rest, fixed) == Run(DecState(st.group + syms, st.last), rest, fixed)
    decreases |syms|
  {
    if |syms| == 0 {
      assert syms + rest == rest;
      assert st.group + syms == st.group;
    } else {
      var c := syms[0];
      AllSymbolsTail(syms);
      assert syms + rest == [c] + (syms[1..] + rest);
      RunCons(st, c, syms[1..] + rest, fixed);
      RunSymbols(DecState(st.group + [c], st.last), syms[1..], rest, fixed);
      assert st.group + [c] + syms[1..] == st.group + syms;
    }
  }

  /** A full group that is not abbreviated: five symbols whose value is the
      group's big-endian value. */
  lemma FullGroupSymbols(g: seq<byte>, useZ: bool, useY: bool)
    requires |g| == 4
    ensures var e := EncodeGroup(g, useZ, useY);
            e != "z" && e != "y" ==>
              |e| == 5 && AllSymbols(e) && GroupValue(e) == Pack(g) && BytesBE(Pack(g), 4) == g
  {
    var e := EncodeGroup(g, useZ, useY);
    var v := Pack(g);
    BytesPack(g);
    if e != "z" && e != "y" {
      PackBound(g);
      assert Padded(g) == g;
      assert e == Symbols(Digits85(v, 5));
      DigitsOfSymbols(Digits85(v, 5));
      DigitsValue(v, 5);
      assert DigitsOf(e) + Repeat(84, 0) == Digits85(v, 5);
    }
  }

  /** A full group's encoding decodes to the group, whatever the decoded
      array held before. */
  lemma FullGroup(last: seq<byte>, g: seq<byte>, rest: string, useZ: bool, useY: bool, fixed: bool)
    requires |last| == 4 && |g| == 4
    ensures Run(DecState([], last), EncodeGroup(g, useZ, useY) + rest, fixed) ==
            Prepend(g, Run(DecState([], g), rest, fixed))
  {
    var e := EncodeGroup(g, useZ, useY);
    if e == "z" || e == "y" {
      assert e + rest == [e[0]] + rest;
      RunCons(DecState([], last), e[0], rest, fixed);
    } else {
      FullGroupSymbols(g, useZ, useY);
      FullGroupDigits(last, g, e, rest, fixed);
    }
  }

  lemma FullGroupDigits(last: seq<byte>, g: seq<byte>, e: string, rest: string, fixed: bool)
    requires |last| == 4 && |g| == 4
    requires |e| == 5 && AllSymbols(e) && GroupValue(e) == Pack(g) && BytesBE(Pack(g), 4) == g
    ensures Run(DecState([], last), e + rest, fixed) == Prepend(g, Run(DecState([], g), rest, fixed))
  {
    assert e + rest == e[..4] + ([e[4]] + rest);
    assert AllSymbols(e[..4]) by {
      forall i | 0 <= i < 4 ensures DecodeChar(e[..4][i]) >= 0 {
        assert e[..4][i] == e[i];
      }
    }
    RunSymbols(DecState([], last), e[..4], [e[4]] + rest, fixed);
    assert [] + e[..4] == e[..4] && e[..4] + [e[4]] == e;
    LastSymbol(DecState(e[..4], last), e[4], g, rest, fixed);
  }

  /** Five symbols are decoded to the four bytes of their value, whatever
      the array held and with or without the correction. */
  lemma GroupOfFive(s: string, prev: seq<byte>, fixed: bool)
    requires |s| == 5 && AllSymbols(s) && |prev| == 4
    ensures DecodeGroup(s, prev, fixed) == GroupOut(4, BytesBE(GroupValue(s), 4))
  {
    assert s != "z" && s != "y";
    var d := DecodeGroup(s, prev, fixed);
    assert d.n == 4;
    assert d.buf[4 - d.n..] == d.buf;
  }

  /** The fifth symbol of a group: the whole group is decoded and written. */
  lemma LastSymbol(st: DecState, c: char, g: seq<byte>, rest: string, fixed: bool)
    requires Valid(st) && |st.group| == 4 && |g| == 4
    requires AllSymbols(st.group + [c]) && BytesBE(GroupValue(st.group + [c]), 4) == g
    ensures Run(st, [c] + rest, fixed) == Prepend(g, Run(DecState([], g), rest, fixed))
  {
    var s := st.group + [c];
    assert DecodeChar(c) >= 0 by {
      assert s[4] == c;
    }
    GroupOfFive(s, st.last, fixed);
    assert g[..4] == g;
    assert StepChar(st, c, fixed) == Continue(g, DecState([], g));
    RunCons(st, c, rest, fixed);
  }

  lemma MultipleOfFour(n: nat)
    requires n % 4 == 0 && n > 0
    ensures n >= 4 && (n - 4) % 4 == 0
  {
  }

  /** The state after the full groups of b: the last group, or the initial
      array when there is none. */
  function LastGroup(last: seq<byte>, b: seq<byte>): (r: seq<byte>)
    requires |last| == 4 && |b| % 4 == 0
    ensures |r| == 4
  {
    if |b| == 0 then last else b[|b| - 4..]
  }

  /** Decoding the encodings of whole groups gives the groups back. */
  lemma {:induction false} WholeGroups(last: seq<byte>, b: seq<byte>, rest: string, useZ: bool, useY: bool, fixed: bool)
    requires |last| == 4 && |b| % 4 == 0
    ensures Run(DecState([], last), GroupsText(b, useZ, useY) + rest, fixed) ==
            Prepend(b, Run(DecState([], LastGroup(last, b)), rest, fixed))
    decreases |b|
  {
    if |b| == 0 {
      assert GroupsText(b, useZ, useY) + rest == rest;
    } else {
      GroupsCons(last, b, rest, useZ, useY);
      FullGroup(last, b[..4], GroupsText(b[4..], useZ, useY) + rest, useZ, useY, fixed);
      WholeGroups(b[..4], b[4..], rest, useZ, useY, fixed);
      PrependTwice(b[..4], b[4..], Run(DecState([], LastGroup(last, b)), rest, fixed));
    }
  }

  lemma GroupsCons(last: seq<byte>, b: seq<byte>, rest: string, useZ: bool, useY: bool)
    requires |last| == 4 && |b| % 4 == 0 && |b| > 0
    ensures |b| >= 4 && |b[4..]| % 4 == 0
    ensures GroupsText(b, useZ, useY) + rest ==
            EncodeGroup(b[..4], useZ, useY) + (GroupsText(b[4..], useZ, useY) + rest)
    ensures LastGroup(b[..4], b[4..]) == LastGroup(last, b)
    ensures b[..4] + b[4..] == b
  {
    MultipleOfFour(|b|);
    var e := EncodeGroup(b[..4], useZ, useY);
    var tail := GroupsText(b[4..], useZ, useY);
    assert GroupsText(b, useZ, useY) == e + tail;
    ConcatAssoc(e, tail, rest);
    LastGroupCons(last, b);
  }

  lemma LastGroupCons(last: seq<byte>, b: seq<byte>)
    requires |last| == 4 && |b| % 4 == 0 && |b| >= 4
    ensures |b[4..]| % 4 == 0 && LastGroup(b[..4], b[4..]) == LastGroup(last, b)
  {
    if |b| > 4 {
      MultipleOfFour(|b| - 4);
      assert b[4..][|b| - 8..] == b[|b| - 4..];
    }
  }

  lemma PrependTwice(p: seq<byte>, q: seq<byte>, d: Decoded)
    ensures Prepend(p, Prepend(q, d)) == Prepend(p + q, d)
  {
    ConcatAssoc(p, q, d.out);
  }

  /** Input whose length is a multiple of four survives encoding and the
      decoder as written, for every wrap width and abbreviation choice. */
  lemma RoundTrip(b: seq<byte>, wrap: nat, useZ: bool, useY: bool, init: seq<byte>)
    requires |b| % 4 == 0 && |init| == 4
    ensures Decode(Encode(b, wrap, useZ, useY), init, false) == Decoded(b, Ok)
  {
    RoundTripText(b, wrap, useZ, useY, init, false);
    WholeGroups(init, b, "", useZ, useY, false);
    assert GroupsText(b, useZ, useY) + "" == GroupsText(b, useZ, useY);
    assert b + [] == b;
  }

  /** The decoder sees only the group symbols of an encoding. */
  lemma RoundTripText(b: seq<byte>, wrap: nat, useZ: bool, useY: bool, init: seq<byte>, fixed: bool)
    requires |init| == 4
    ensures Decode(Encode(b, wrap, useZ, useY), init, fixed) ==
            Run(DecState([], init), GroupsText(b, useZ, useY), fixed)
  {
    var e := EncodeRun(b, 0, wrap, useZ, useY);
    var g := GroupsText(b, useZ, useY);
    EncodeRunIsPutAll(b, 0, wrap, useZ, useY);
    GroupsNoNewline(b, useZ, useY);
    UnwrapNoNewline(g);
    var t := if wrap == 0 || e.col > 0 then "\n" else "";
    assert Encode(b, wrap, useZ, useY) == e.text + t;
    UnwrapAppend(e.text, t);
    assert Unwrap(t) == [];
    assert Unwrap(Encode(b, wrap, useZ, useY)) == g;
    RunUnwrap(DecState([], init), Encode(b, wrap, useZ, useY), fixed);
  }

  /** The value read back from the leading |g| + 1 digits of a partial
      group, padded with 84, has the group's bytes as its high bytes. */
  lemma PartialValue(g: seq<byte>)
    requires 1 <= |g| <= 3
    ensures var s := Symbols(Digits85(Pack(Padded(g)), 5)[..|g| + 1]);
            AllSymbols(s) && BytesBE(GroupValue(s), 4)[..|g|] == g
  {
    var k := 4 - |g|;
    var p := Pack(g);
    PackZeros(g, k);
    PackBound(g);
    var ds := Digits85(p * Pow256(k), 5)[..5 - k];
    DigitsOfSymbols(ds);
    PartialDigits(p, k);
    var x := GroupValue(Symbols(ds));
    BytesPrefix(x, 4, k);
    BytesPack(g);
  }

  /** The encoding of a final partial group, decoded on its own. */
  lemma PartialGroup(last: seq<byte>, g: seq<byte>, useZ: bool, useY: bool, fixed: bool)
    requires |last| == 4 && 1 <= |g| <= 3
    ensures fixed ==> Run(DecState([], last), EncodeGroup(g, useZ, useY), fixed) == Decoded(g, Ok)
    ensures !fixed && |g| == 1 ==> Run(DecState([], last), EncodeGroup(g, useZ, useY), fixed) == Decoded(last[..1], Ok)
  {
    var e := EncodeGroup(g, useZ, useY);
    PartialValue(g);
    RunSymbols(DecState([], last), e, "", fixed);
    assert e + "" == e;
    assert [] + e == e;
    FinishPartial(last, e, g, fixed);
  }

  /** End of input after the symbols of a partial group. */
  lemma FinishPartial(last: seq<byte>, e: string, g: seq<byte>, fixed: bool)
    requires |last| == 4 && 1 <= |g| <= 3 && |e| == |g| + 1
    requires AllSymbols(e) && BytesBE(GroupValue(e), 4)[..|g|] == g
    ensures fixed ==> Finish(DecState(e, last), fixed) == Decoded(g, Ok)
    ensures !fixed && |g| == 1 ==> Finish(DecState(e, last), fixed) == Decoded(last[..1], Ok)
  {
    assert e != "z" && e != "y";
    var d := DecodeGroup(e, last, fixed);
    assert d.n == |g|;
  }

  /** With all four bytes stored, every input survives the round trip. */
  lemma {:induction false} RoundTripFixedGroups(last: seq<byte>, b: seq<byte>, useZ: bool, useY: bool)
    requires |last| == 4
    ensures Run(DecState([], last), GroupsText(b, useZ, useY), true) == Decoded(b, Ok)
    decreases |b|
  {
    if |b| >= 4 {
      FullGroup(last, b[..4], GroupsText(b[4..], useZ, useY), useZ, useY, true);
      RoundTripFixedGroups(b[..4], b[4..], useZ, useY);
      assert b[..4] + b[4..] == b;
    } else if |b| > 0 {
      assert GroupsText(b, useZ, useY) == EncodeGroup(b, useZ, useY) + "" by {
        assert b[..|b|] == b;
      }
      PartialGroup(last, b, useZ, useY, true);
      assert EncodeGroup(b, useZ, useY) + "" == EncodeGroup(b, useZ, useY);
    }
  }

  lemma RoundTripFixed(b: seq<byte>, wrap: nat, useZ: bool, useY: bool, init: seq<byte>)
    requires |init| == 4
    ensures Decode(Encode(b, wrap, useZ, useY), init, true) == Decoded(b, Ok)
  {
    RoundTripText(b, wrap, useZ, useY, init, true);
    RoundTripFixedGroups(init, b, useZ, useY);
  }

  /** As written, a single byte after whole groups decodes as the first byte
      of the previous group (or of the uninitialised array), not as itself. */
  lemma TrailingByteAsWritten(b: seq<byte>, x: byte, wrap: nat, useZ: bool, useY: bool, init: seq<byte>)
    requires |b| % 4 == 0 && |init| == 4
    ensures Decode(Encode(b + [x], wrap, useZ, useY), init, false) == Decoded(b + [LastGroup(init, b)[0]], Ok)
  {
    RoundTripText(b + [x], wrap, useZ, useY, init, false);
    TrailingByteGroups(b, x, useZ, useY, init);
  }

  lemma TrailingByteGroups(b: seq<byte>, x: byte, useZ: bool, useY: bool, init: seq<byte>)
    requires |b| % 4 == 0 && |init| == 4
    ensures Run(DecState([], init), GroupsText(b + [x], useZ, useY), false) == Decoded(b + [LastGroup(init, b)[0]], Ok)
  {
    var last := LastGroup(init, b);
    var t := EncodeGroup([x], useZ, useY);
    GroupsSnocPartial(b, [x], useZ, useY);
    WholeGroups(init, b, t, useZ, useY, false);
    PartialGroup(last, [x], useZ, useY, false);
    FirstByteAfter(Run(DecState([], init), GroupsText(b, useZ, useY) + t, false),
                   Run(DecState([], last), t, false), b, last);
  }

  /** Whole groups followed by a decoded first byte of last. */
  lemma FirstByteAfter(whole: Decoded, tail: Decoded, b: seq<byte>, last: seq<byte>)
    requires |last| == 4 && whole == Prepend(b, tail) && tail == Decoded(last[..1], Ok)
    ensures whole == Decoded(b + [last[0]], Ok)
  {
    assert last[..1] == [last[0]];
  }

  lemma {:induction false} GroupsSnocPartial(b: seq<byte>, t: seq<byte>, useZ: bool, useY: bool)
    requires |b| % 4 == 0 && 1 <= |t| <= 3
    ensures GroupsText(b + t, useZ, useY) == GroupsText(b, useZ, useY) + EncodeGroup(t, useZ, useY)
    decreases |b|
  {
    if |b| == 0 {
      assert b + t == t;
      assert GroupsText(b, useZ, useY) == "";
    } else {
      MultipleOfFour(|b|);
      var e := EncodeGroup(b[..4], useZ, useY);
      assert (b + t)[..4] == b[..4] && (b + t)[4..] == b[4..] + t;
      assert GroupsText(b + t, useZ, useY) == e + GroupsText(b[4..] + t, useZ, useY);
      GroupsSnocPartial(b[4..], t, useZ, useY);
      assert GroupsText(b, useZ, useY) == e + GroupsText(b[4..], useZ, useY);
      ConcatAssoc(e, GroupsText(b[4..], useZ, useY), EncodeGroup(t, useZ, useY));
    }
  }

  /** Four zero bytes then a one: the last byte comes back as zero. */
  lemma TrailingByteExample(init: seq<byte>)
    requires |init| == 4
    ensures Decode(Encode([0, 0, 0, 0, 1], 76, false, false), init, false).out == [0, 0, 0, 0, 0]
  {
    TrailingByteAsWritten([0, 0, 0, 0], 1, 76, false, false, init);
    assert [0, 0, 0, 0] + [1] == [0, 0, 0, 0, 1];
  }
}
