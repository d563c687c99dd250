/** The base85 tool: Z85 (ZeroMQ RFC 32 alphabet) encoding of a byte stream
    in groups of four bytes, with column wrapping on output; the decoder skips
    whitespace and can ignore characters outside its table. */
module Z85 {
  import opened CType
  import opened LineWrap
  import opened Radix
  import opened Seqs

  const DigitChars: string := "0123456789"
  const LowerChars: string := "abcdefghijklmnopqrstuvwxyz"
  const UpperChars: string := "ABCDEFGHIJKLMNOPQRSTUVWXYZ"
  const PunctChars: string := ".-:+=^!/*?&<>()[]{}@%$#"

  /** z85_alphabet: symbol i stands for digit i. */
  const Alphabet: string := DigitChars + LowerChars + UpperChars + PunctChars

  lemma AlphabetShape()
    ensures |Alphabet| == 85
    ensures forall i | 0 <= i < 10 :: Alphabet[i] == (48 + i) as char
    ensures forall i | 10 <= i < 36 :: Alphabet[i] == (97 + i - 10) as char
    ensures forall i | 36 <= i < 62 :: Alphabet[i] == (65 + i - 36) as char
    ensures forall i | 62 <= i < 85 :: Alphabet[i] == PunctChars[i - 62]
  {
    assert forall i | 0 <= i < 10 :: DigitChars[i] == (48 + i) as char;
    assert forall i | 0 <= i < 26 :: LowerChars[i] == (97 + i) as char;
    assert forall i | 0 <= i < 26 :: UpperChars[i] == (65 + i) as char;
  }

  /** No symbol is whitespace, so the decoder never skips one. */
  lemma AlphabetNoSpace()
    ensures |Alphabet| == 85
    ensures forall d | 0 <= d < 85 :: !IsSpace(Alphabet[d]) && 32 < Alphabet[d] as int < 127
  {
    AlphabetShape();
    assert forall i | 0 <= i < 23 :: 32 < PunctChars[i] as int < 127;
  }

  // ---------------------------------------------------------- decoder tables

  /** A row of sixteen bytes that are not symbols. */
  const NoRow: seq<int> := [-1, -1, -1, -1, -1, -1, -1, -1, -1, -1, -1, -1, -1, -1, -1, -1]
  const Row32: seq<int> := [-1, 68, -1, 84, 83, 82, 72, -1, 75, 76, 70, 71, -1, 69, 74, 67]
  const Row48: seq<int> := [0, 1, 2, 3, 4, 5, 6, 7, 8, 9, 64, -1, 73, 66, -1, 65]
  const Row64: seq<int> := [81, 10, 11, 12, 13, 14, 15, 16, 17, 18, 19, 20, 21, 22, 23, 24]
  const Row80: seq<int> := [25, 26, 27, 28, 29, 30, 31, 32, 33, 34, 35, 77, -1, 78, 79, 80]
  const Row96: seq<int> := [-1, 36, 37, 38, 39, 40, 41, 42, 43, 44, 45, 46, 47, 48, 49, 50]
  const Row112: seq<int> := [51, 52, 53, 54, 55, 56, 57, 58, 59, 60, 61, 62, 63, -1, -1, -1]

  /** Row k of z85_decoder as written: the entries for bytes 16 * k to
      16 * k + 15. */
  function TableRow(k: nat): seq<int> {
    if k == 2 then Row32 else if k == 3 then Row48 else if k == 4 then Row64
    else if k == 5 then Row80 else if k == 6 then Row96 else if k == 7 then Row112
    else NoRow
  }

  /** z85_decoder, indexed by byte value, as written. */
  function Table(): (r: seq<int>)
    ensures |r| == 256 && forall x | 0 <= x < 256 :: r[x] == TableRow(x / 16)[x % 16]
  {
    seq(256, x requires 0 <= x < 256 => TableRow(x / 16)[x % 16])
  }

  const Fixed32: seq<int> := [-1, 68, -1, 84, 83, 82, 72, -1, 75, 76, 70, 65, -1, 63, 62, 69]
  const Fixed48: seq<int> := [0, 1, 2, 3, 4, 5, 6, 7, 8, 9, 64, -1, 73, 66, 74, 71]
  const Fixed64: seq<int> := [81, 36, 37, 38, 39, 40, 41, 42, 43, 44, 45, 46, 47, 48, 49, 50]
  const Fixed80: seq<int> := [51, 52, 53, 54, 55, 56, 57, 58, 59, 60, 61, 77, -1, 78, 67, -1]
  const Fixed96: seq<int> := [-1, 10, 11, 12, 13, 14, 15, 16, 17, 18, 19, 20, 21, 22, 23, 24]
  const Fixed112: seq<int> := [25, 26, 27, 28, 29, 30, 31, 32, 33, 34, 35, 79, -1, 80, -1, -1]

  /** Row k of the corrected table, the inverse of the alphabet (the decoder
      table of ZeroMQ RFC 32's reference code). */
  function FixedRow(k: nat): seq<int> {
    if k == 2 then Fixed32 else if k == 3 then Fixed48 else if k == 4 then Fixed64
    else if k == 5 then Fixed80 else if k == 6 then Fixed96 else if k == 7 then Fixed112
    else NoRow
  }

  function FixedTable(): (r: seq<int>)
    ensures |r| == 256 && forall x | 0 <= x < 256 :: r[x] == FixedRow(x / 16)[x % 16]
  {
    seq(256, x requires 0 <= x < 256 => FixedRow(x / 16)[x % 16])
  }

  /** A decoder table: a digit or -1 for each of the 256 byte values. */
  predicate IsTable(t: seq<int>) {
    |t| == 256 && forall i | 0 <= i < 256 :: -1 <= t[i] < 85
  }

  lemma TablesAreTables()
    ensures IsTable(Table()) && IsTable(FixedTable())
  {
    TableIsTable();
    FixedIsTable();
  }

  lemma TableIsTable()
    ensures IsTable(Table())
  {
    assert forall i | 0 <= i < 16 :: -1 <= Row32[i] < 85 && -1 <= Row48[i] < 85 && -1 <= Row64[i] < 85;
    assert forall i | 0 <= i < 16 :: -1 <= Row80[i] < 85 && -1 <= Row96[i] < 85 && -1 <= Row112[i] < 85;
    assert forall i | 0 <= i < 16 :: NoRow[i] == -1;
  }

  lemma FixedIsTable()
    ensures IsTable(FixedTable())
  {
    assert forall i | 0 <= i < 16 :: -1 <= Fixed32[i] < 85 && -1 <= Fixed48[i] < 85 && -1 <= Fixed64[i] < 85;
    assert forall i | 0 <= i < 16 :: -1 <= Fixed80[i] < 85 && -1 <= Fixed96[i] < 85 && -1 <= Fixed112[i] < 85;
    assert forall i | 0 <= i < 16 :: NoRow[i] == -1;
  }

  /** The decoder's lookup of a character read: `c < 0 || c > 255` is
      rejected, otherwise the table entry. */
  function Lookup(t: seq<int>, c: char): (r: int)
    requires IsTable(t)
    ensures -1 <= r < 85
  {
    if c as int < 256 then t[c as int] else -1
  }

  /** t decodes every symbol of the alphabet to the digit it stands for. */
  predicate Inverts(t: seq<int>)
    requires IsTable(t)
  {
    |Alphabet| == 85 && forall d | 0 <= d < 85 :: Lookup(t, Alphabet[d]) == d
  }

  // As written: the table's digits and letters.

  lemma TableDecimal(c: char)
    requires '0' <= c <= '9'
    ensures IsTable(Table()) && Lookup(Table(), c) == c as int - 48
  {
    TablesAreTables();
    assert forall i | 0 <= i < 10 :: Row48[i] == i;
  }

  lemma TableUpper(c: char)
    requires 'A' <= c <= 'Z'
    ensures IsTable(Table()) && Lookup(Table(), c) == c as int - 65 + 10
  {
    TablesAreTables();
    assert forall i | 1 <= i < 16 :: Row64[i] == i + 9;
    assert forall i | 0 <= i < 11 :: Row80[i] == i + 25;
  }

  lemma TableLower(c: char)
    requires 'a' <= c <= 'z'
    ensures IsTable(Table()) && Lookup(Table(), c) == c as int - 97 + 36
  {
    TablesAreTables();
    assert forall i | 1 <= i < 16 :: Row96[i] == i + 35;
    assert forall i | 0 <= i < 11 :: Row112[i] == i + 51;
  }

  /** The table as written maps upper-case letters to 10..35 and lower-case
      letters to 36..61, the reverse of the alphabet, so it does not invert
      it: 'a' is symbol 10 but reads as 36, and the symbols '>' (74) and '}'
      (80) are rejected. */
  lemma TableMismatch()
    ensures IsTable(Table()) && !Inverts(Table())
    ensures Alphabet[10] == 'a' && Lookup(Table(), 'a') == 36
    ensures Alphabet[74] == '>' && Lookup(Table(), '>') == -1
    ensures Alphabet[80] == '}' && Lookup(Table(), '}') == -1
  {
    AlphabetShape();
    TableLower('a');
    assert PunctChars[12] == '>' && PunctChars[18] == '}';
    assert Table()[62] == Row48[14] && Table()[125] == Row112[13];
    assert Lookup(Table(), Alphabet[10]) != 10;
  }

  /** The table as written also mixes up the marks: seven symbols read as
      the value of another symbol. */
  lemma TableMarksSwapped()
    ensures IsTable(Table())
    ensures Alphabet[62] == '.' && Lookup(Table(), '.') == 74
    ensures Alphabet[63] == '-' && Lookup(Table(), '-') == 69
    ensures Alphabet[65] == '+' && Lookup(Table(), '+') == 71
    ensures Alphabet[67] == '^' && Lookup(Table(), '^') == 79
    ensures Alphabet[69] == '/' && Lookup(Table(), '/') == 67
    ensures Alphabet[71] == '?' && Lookup(Table(), '?') == 65
    ensures Alphabet[79] == '{' && Lookup(Table(), '{') == 62
  {
    TablesAreTables();
    AlphabetShape();
    assert Table()[46] == Row32[14] && Table()[45] == Row32[13] && Table()[43] == Row32[11];
    assert Table()[94] == Row80[14] && Table()[47] == Row32[15] && Table()[63] == Row48[15];
    assert Table()[123] == Row112[11];
  }

  /** The table as written accepts '_' and '|', which are not symbols. */
  lemma TableExtraSymbols()
    ensures IsTable(Table())
    ensures '_' !in Alphabet && Lookup(Table(), '_') == 80
    ensures '|' !in Alphabet && Lookup(Table(), '|') == 63
  {
    TablesAreTables();
    AlphabetShape();
    assert '_' !in PunctChars && '|' !in PunctChars;
    assert Table()[95] == Row80[15] && Table()[124] == Row112[12];
  }

  // Corrected: the inverse of the alphabet.

  lemma FixedDecimalLower()
    ensures IsTable(FixedTable())
    ensures forall d | 0 <= d < 36 :: Lookup(FixedTable(), Alphabet[d]) == d
  {
    TablesAreTables();
    AlphabetShape();
    assert forall i | 0 <= i < 10 :: Fixed48[i] == i;
    assert forall i | 1 <= i < 16 :: Fixed96[i] == i + 9;
    assert forall i | 0 <= i < 11 :: Fixed112[i] == i + 25;
  }

  lemma FixedUpper()
    ensures IsTable(FixedTable())
    ensures forall d | 36 <= d < 62 :: Lookup(FixedTable(), Alphabet[d]) == d
  {
    TablesAreTables();
    AlphabetShape();
    assert forall i | 1 <= i < 16 :: Fixed64[i] == i + 35;
    assert forall i | 0 <= i < 11 :: Fixed80[i] == i + 51;
  }

  lemma FixedPunctLow()
    ensures IsTable(FixedTable())
    ensures forall d | 62 <= d < 74 :: Lookup(FixedTable(), Alphabet[d]) == d
  {
    FixedPunctFirst();
    FixedPunctSecond();
  }

  lemma FixedPunctFirst()
    ensures IsTable(FixedTable())
    ensures forall d | 62 <= d < 68 :: Lookup(FixedTable(), Alphabet[d]) == d
  {
    TablesAreTables();
    AlphabetShape();
    var p := PunctChars;
    assert p[0] == '.' && p[1] == '-' && p[2] == ':' && p[3] == '+' && p[4] == '=' && p[5] == '^';
  }

  lemma FixedPunctSecond()
    ensures IsTable(FixedTable())
    ensures forall d | 68 <= d < 74 :: Lookup(FixedTable(), Alphabet[d]) == d
  {
    TablesAreTables();
    AlphabetShape();
    var p := PunctChars;
    assert p[6] == '!' && p[7] == '/' && p[8] == '*' && p[9] == '?' && p[10] == '&' && p[11] == '<';
  }

  lemma FixedPunctHigh()
    ensures IsTable(FixedTable())
    ensures forall d | 74 <= d < 85 :: Lookup(FixedTable(), Alphabet[d]) == d
  {
    TablesAreTables();
    AlphabetShape();
    var p := PunctChars;
    assert p[12] == '>' && p[13] == '(' && p[14] == ')' && p[15] == '[' && p[16] == ']';
    assert p[17] == '{' && p[18] == '}' && p[19] == '@' && p[20] == '%' && p[21] == '$' && p[22] == '#';
  }

  /** Every character the corrected table accepts is the symbol of the digit
      it gives. */
  lemma FixedAccepted(c: char)
    requires IsTable(FixedTable()) && Lookup(FixedTable(), c) >= 0
    ensures Alphabet[Lookup(FixedTable(), c)] == c
  {
    var x := c as int;
    assert FixedTable()[x] == FixedRow(x / 16)[x % 16];
    if x / 16 <= 3 {
      FixedAcceptedLow(c);
    } else if x / 16 <= 5 {
      FixedAcceptedUpper(c);
    } else {
      FixedAcceptedLower(c);
    }
  }

  lemma FixedAcceptedLow(c: char)
    requires c as int < 64 && FixedRow(c as int / 16)[c as int % 16] >= 0
    ensures FixedRow(c as int / 16)[c as int % 16] < 85
    ensures Alphabet[FixedRow(c as int / 16)[c as int % 16]] == c
  {
    AlphabetShape();
    var x := c as int;
    assert 2 <= x / 16;
    if x / 16 == 2 {
      assert c in {'!', '#', '$', '%', '&', '(', ')', '*', '+', '-', '.', '/'};
    } else {
      assert '0' <= c <= '9' || c in {':', '<', '=', '>', '?'};
    }
  }

  lemma FixedAcceptedUpper(c: char)
    requires 64 <= c as int < 96 && FixedRow(c as int / 16)[c as int % 16] >= 0
    ensures FixedRow(c as int / 16)[c as int % 16] < 85
    ensures Alphabet[FixedRow(c as int / 16)[c as int % 16]] == c
  {
    AlphabetShape();
    if c as int / 16 == 4 {
      assert c == '@' || 'A' <= c <= 'O';
    } else {
      assert 'P' <= c <= 'Z' || c in {'[', ']', '^'};
    }
  }

  lemma FixedAcceptedLower(c: char)
    requires 96 <= c as int < 256 && FixedRow(c as int / 16)[c as int % 16] >= 0
    ensures FixedRow(c as int / 16)[c as int % 16] < 85
    ensures Alphabet[FixedRow(c as int / 16)[c as int % 16]] == c
  {
    AlphabetShape();
    var x := c as int;
    assert x / 16 <= 7;
    if x / 16 == 6 {
      assert 'a' <= c <= 'o';
    } else {
      assert 'p' <= c <= 'z' || c in {'{', '}'};
    }
  }

  /** The corrected table and the alphabet are inverse to each other: every
      symbol reads as its digit, and only symbols are accepted. */
  lemma FixedInverts()
    ensures IsTable(FixedTable()) && Inverts(FixedTable())
    ensures forall c | Lookup(FixedTable(), c) >= 0 :: Alphabet[Lookup(FixedTable(), c)] == c
  {
    FixedDecimalLower();
    FixedUpper();
    FixedPunctLow();
    FixedPunctHigh();
    AlphabetShape();
    forall c | Lookup(FixedTable(), c) >= 0 ensures Alphabet[Lookup(FixedTable(), c)] == c {
      FixedAccepted(c);
    }
  }

  // ---------------------------------------------------------------- encoder

  /** The symbols for a digit string. */
  function Symbols(ds: seq<nat>): (r: string)
    requires forall i | 0 <= i < |ds| :: ds[i] < 85
    ensures |Alphabet| == 85
    ensures |r| == |ds| && forall i | 0 <= i < |ds| :: r[i] == Alphabet[ds[i]]
  {
    AlphabetShape();
    seq(|ds|, i requires 0 <= i < |ds| => Alphabet[ds[i]])
  }

  lemma SymbolsSnoc(ds: seq<nat>, d: nat)
    requires d < 85 && forall i | 0 <= i < |ds| :: ds[i] < 85
    ensures Symbols(ds + [d]) == Symbols(ds) + [Alphabet[d]]
  {
  }

  lemma SymbolsNoSpace(ds: seq<nat>)
    requires forall i | 0 <= i < |ds| :: ds[i] < 85
    ensures forall i | 0 <= i < |ds| :: !IsSpace(Symbols(ds)[i])
    ensures '\n' !in Symbols(ds)
  {
    AlphabetNoSpace();
  }

  function Padded(g: seq<byte>): (r: seq<byte>)
    requires |g| <= 4
    ensures |r| == 4
  {
    g + Repeat(0, 4 - |g|)
  }

  /** The leading |g| + 1 of the five base-85 digits of the zero-padded
      group: `output_len` is 5 for a full group and bytes_read + 1 otherwise,
      which is the same number. */
  function GroupDigits(g: seq<byte>): (r: seq<nat>)
    requires 1 <= |g| <= 4
    ensures |r| == |g| + 1 && forall i | 0 <= i < |r| :: r[i] < 85
  {
    Digits85(Pack(Padded(g)), 5)[..|g| + 1]
  }

  /** One group of one to four bytes as |g| + 1 symbols. */
  function EncodeGroup(g: seq<byte>): (r: string)
    requires 1 <= |g| <= 4
    ensures |r| == |g| + 1 && '\n' !in r
  {
    SymbolsNoSpace(GroupDigits(g));
    Symbols(GroupDigits(g))
  }

  /** The group encodings back to back, without line breaks. */
  function GroupsText(b: seq<byte>): (r: string)
    ensures '\n' !in r
    decreases |b|
  {
    if |b| == 0 then ""
    else if |b| < 4 then EncodeGroup(b)
    else EncodeGroup(b[..4]) + GroupsText(b[4..])
  }

  /** encode_z85's loop: each group's symbols through the column counter. */
  function EncodeRun(b: seq<byte>, col: nat, wrap: nat): Emitted
    decreases |b|
  {
    if |b| == 0 then Emitted([], col)
    else if |b| < 4 then PutAll(col, wrap, EncodeGroup(b))
    else
      var e := PutAll(col, wrap, EncodeGroup(b[..4]));
      var rest := EncodeRun(b[4..], e.col, wrap);
      Emitted(e.text + rest.text, rest.col)
  }

  /** encode_z85: a final newline only when wrapping is on and the last line
      is unfinished. */
  function Encode(b: seq<byte>, wrap: nat): string {
    var e := EncodeRun(b, 0, wrap);
    e.text + (if wrap > 0 && e.col > 0 then "\n" else "")
  }

  lemma {:induction false} EncodeRunIsPutAll(b: seq<byte>, col: nat, wrap: nat)
    ensures EncodeRun(b, col, wrap) == PutAll(col, wrap, GroupsText(b))
    decreases |b|
  {
    if |b| >= 4 {
      var g := EncodeGroup(b[..4]);
      PutAllAppend(col, wrap, g, GroupsText(b[4..]));
      EncodeRunIsPutAll(b[4..], PutAll(col, wrap, g).col, wrap);
    }
  }

  /** Output layout: without wrapping, the symbols alone with no newline at
      all; with wrapping, lines of exactly `wrap` symbols and a final newline
      only when the last line is not already terminated. */
  lemma EncodeLayout(b: seq<byte>, wrap: nat)
    ensures wrap == 0 ==> Encode(b, wrap) == GroupsText(b)
    ensures wrap > 0 ==>
              var t := Layout(0, wrap, GroupsText(b));
              Encode(b, wrap) == t + (if |t| > 0 && t[|t| - 1] != '\n' then "\n" else "")
  {
    var g := GroupsText(b);
    EncodeRunIsPutAll(b, 0, wrap);
    if wrap > 0 {
      PutAllLayout(0, wrap, g);
      PutAllOpenLine(0, wrap, g);
    } else {
      assert g + "" == g;
    }
  }

  // ---------------------------------------------------------------- decoder

  /** uint32_t arithmetic. */
  const Modulus: nat := 0x1_0000_0000

  /** `value = value * 85 + digit` in 32 bits. */
  function Acc(value: nat, d: nat): (r: nat)
    ensures r < Modulus
  {
    (value * 85 + d) % Modulus
  }

  /** Acc over a digit string, first digit first. */
  function AccAll(value: nat, ds: seq<nat>): (r: nat)
    ensures value < Modulus ==> r < Modulus
    decreases |ds|
  {
    if |ds| == 0 then value else Acc(AccAll(value, ds[..|ds| - 1]), ds[|ds| - 1])
  }

  datatype Status = Ok | InvalidChar | IncompleteGroup

  /** What the decoder wrote before it stopped, and why it stopped. */
  datatype Decoded = Decoded(out: seq<byte>, status: Status)

  function Prepend(b: seq<byte>, d: Decoded): Decoded {
    Decoded(b + d.out, d.status)
  }

  /** The running 32-bit value and the number of symbols it holds. */
  datatype DecState = DecState(value: nat, count: nat)

  predicate Valid(st: DecState) {
    st.value < Modulus && st.count < 5
  }

  datatype Step = Continue(out: seq<byte>, next: DecState) | Stop(status: Status)

  /** One iteration of decode_z85's loop over table t. */
  function StepChar(st: DecState, c: char, t: seq<int>, ignore: bool): (r: Step)
    requires Valid(st) && IsTable(t)
    ensures r.Continue? ==> Valid(r.next)
  {
    if IsSpace(c) then Continue([], st)
    else
      var d := Lookup(t, c);
      if d < 0 then
        if ignore then Continue([], st) else Stop(InvalidChar)
      else
        var v := Acc(st.value, d);
        if st.count + 1 == 5 then Continue(BytesBE(v, 4), DecState(0, 0))
        else Continue([], DecState(v, st.count + 1))
  }

  /** End of input: one leftover symbol is an error; two to four are padded
      with digit 84. As written all four bytes of the padded value are
      written; corrected, only count - 1 of them. */
  function Finish(st: DecState, fixed: bool): Decoded
    requires Valid(st)
  {
    if st.count == 0 then Decoded([], Ok)
    else if st.count == 1 then Decoded([], IncompleteGroup)
    else
      var bytes := BytesBE(AccAll(st.value, Repeat(84, 5 - st.count)), 4);
      Decoded(if fixed then bytes[..st.count - 1] else bytes, Ok)
  }

  function Run(st: DecState, s: string, t: seq<int>, ignore: bool, fixed: bool): Decoded
    requires Valid(st) && IsTable(t)
    decreases |s|
  {
    if |s| == 0 then Finish(st, fixed)
    else
      var r := StepChar(st, s[0], t, ignore);
      if r.Stop? then Decoded([], r.status) else Prepend(r.out, Run(r.next, s[1..], t, ignore, fixed))
  }

  /** decode_z85: as written, with z85_decoder and the four-byte trailer;
      corrected, with the inverse of the alphabet and a count - 1 trailer. */
  function Decode(s: string, ignore: bool, fixed: bool): Decoded {
    TablesAreTables();
    Run(DecState(0, 0), s, if fixed then FixedTable() else Table(), ignore, fixed)
  }

  // ------------------------------------------------- accumulator arithmetic

  lemma AccMod(a: nat, d: nat)
    ensures Acc(a % Modulus, d) == (a * 85 + d) % Modulus
  {
  }

  /** 32-bit accumulation is exact accumulation reduced modulo 2^32. */
  lemma {:induction false} AccAllValue(ds: seq<nat>)
    ensures AccAll(0, ds) == Value85(ds) % Modulus
    decreases |ds|
  {
    if |ds| > 0 {
      var init := ds[..|ds| - 1];
      AccAllValue(init);
      AccMod(Value85(init), ds[|ds| - 1]);
    }
  }

  lemma {:induction false} AccAllAppend(v: nat, a: seq<nat>, b: seq<nat>)
    ensures AccAll(AccAll(v, a), b) == AccAll(v, a + b)
    decreases |b|
  {
    if |b| == 0 {
      assert a + b == a;
    } else {
      assert (a + b)[..|a + b| - 1] == a + b[..|b| - 1];
      AccAllAppend(v, a, b[..|b| - 1]);
    }
  }

  lemma AccAllSnoc(v: nat, ds: seq<nat>, d: nat)
    ensures AccAll(v, ds + [d]) == Acc(AccAll(v, ds), d)
  {
    assert (ds + [d])[..|ds|] == ds;
  }

  lemma SmallMod(x: nat)
    requires x < Modulus
    ensures x % Modulus == x
  {
  }

  // ----------------------------------------------------- decoder run lemmas

  lemma PrependEmpty(d: Decoded)
    ensures Prepend([], d) == d
  {
    assert [] + d.out == d.out;
  }

  lemma RunCons(st: DecState, c: char, rest: string, t: seq<int>, ignore: bool, fixed: bool)
    requires Valid(st) && IsTable(t)
    ensures var r := StepChar(st, c, t, ignore);
            Run(st, [c] + rest, t, ignore, fixed) ==
              if r.Stop? then Decoded([], r.status) else Prepend(r.out, Run(r.next, rest, t, ignore, fixed))
  {
    assert ([c] + rest)[0] == c && ([c] + rest)[1..] == rest;
  }

  /** The decoder reading one character its table accepts: the digit is
      accumulated and the fifth one writes the group's four bytes. */
  lemma RunDigit(st: DecState, c: char, rest: string, t: seq<int>, ignore: bool, fixed: bool)
    requires Valid(st) && IsTable(t) && Lookup(t, c) >= 0 && !IsSpace(c)
    ensures var v := Acc(st.value, Lookup(t, c));
            Run(st, [c] + rest, t, ignore, fixed) ==
              if st.count + 1 == 5 then Prepend(BytesBE(v, 4), Run(DecState(0, 0), rest, t, ignore, fixed))
              else Run(DecState(v, st.count + 1), rest, t, ignore, fixed)
  {
    RunCons(st, c, rest, t, ignore, fixed);
    if st.count + 1 < 5 {
      PrependEmpty(Run(DecState(Acc(st.value, Lookup(t, c)), st.count + 1), rest, t, ignore, fixed));
    }
  }

  /** Line breaks (and any whitespace) do not affect decoding. */
  lemma {:induction false} RunUnwrap(st: DecState, s: string, t: seq<int>, ignore: bool, fixed: bool)
    requires Valid(st) && IsTable(t)
    ensures Run(st, s, t, ignore, fixed) == Run(st, Unwrap(s), t, ignore, fixed)
    decreases |s|
  {
    if |s| > 0 {
      var r := StepChar(st, s[0], t, ignore);
      if r.Continue? {
        RunUnwrap(r.next, s[1..], t, ignore, fixed);
        if s[0] != '\n' {
          assert Unwrap(s) == [s[0]] + Unwrap(s[1..]);
          RunCons(st, s[0], Unwrap(s[1..]), t, ignore, fixed);
        }
      }
    }
  }

  /** e is a string of non-blank characters that t reads as the digits ds. */
  predicate Reads(t: seq<int>, e: string, ds: seq<nat>)
    requires IsTable(t)
  {
    |e| == |ds| && forall i | 0 <= i < |e| :: !IsSpace(e[i]) && Lookup(t, e[i]) == ds[i]
  }

  /** A table that inverts the alphabet reads every symbol string as its
      digits. */
  lemma SymbolsRead(t: seq<int>, ds: seq<nat>)
    requires IsTable(t) && Inverts(t) && forall i | 0 <= i < |ds| :: ds[i] < 85
    ensures Reads(t, Symbols(ds), ds)
  {
    AlphabetNoSpace();
  }

  /** Characters that do not complete a group are only accumulated. */
  lemma {:induction false} RunSymbols(st: DecState, e: string, ds: seq<nat>, rest: string, t: seq<int>, ignore: bool, fixed: bool)
    requires Valid(st) && IsTable(t) && Reads(t, e, ds) && st.count + |ds| < 5
    ensures Run(st, e + rest, t, ignore, fixed) ==
            Run(DecState(AccAll(st.value, ds), st.count + |ds|), rest, t, ignore, fixed)
    decreases |ds|
  {
    if |ds| == 0 {
      assert e + rest == rest;
    } else {
      var next := DecState(Acc(st.value, ds[0]), st.count + 1);
      assert e + rest == [e[0]] + (e[1..] + rest);
      RunDigit(st, e[0], e[1..] + rest, t, ignore, fixed);
      assert Reads(t, e[1..], ds[1..]);
      RunSymbols(next, e[1..], ds[1..], rest, t, ignore, fixed);
      AccAllCons(st.value, ds);
    }
  }

  lemma AccAllCons(v: nat, ds: seq<nat>)
    requires |ds| > 0
    ensures AccAll(Acc(v, ds[0]), ds[1..]) == AccAll(v, ds)
  {
    AccAllAppend(v, [ds[0]], ds[1..]);
    assert [ds[0]] + ds[1..] == ds;
    assert AccAll(v, [ds[0]]) == Acc(v, ds[0]) by {
      assert [ds[0]][..0] == [];
    }
  }

  /** Five characters read as digits: the accumulated value's four bytes are
      written. */
  lemma FiveSymbols(e: string, ds: seq<nat>, rest: string, t: seq<int>, ignore: bool, fixed: bool)
    requires IsTable(t) && Reads(t, e, ds) && |ds| == 5
    ensures Run(DecState(0, 0), e + rest, t, ignore, fixed) ==
            Prepend(BytesBE(AccAll(0, ds), 4), Run(DecState(0, 0), rest, t, ignore, fixed))
  {
    assert Reads(t, e[..4], ds[..4]);
    ConcatAssoc(e[..4], [e[4]], rest);
    assert e[..4] + [e[4]] == e;
    RunSymbols(DecState(0, 0), e[..4], ds[..4], [e[4]] + rest, t, ignore, fixed);
    RunDigit(DecState(AccAll(0, ds[..4]), 4), e[4], rest, t, ignore, fixed);
    AccAllSnoc(0, ds[..4], ds[4]);
    assert ds[..4] + [ds[4]] == ds;
  }

  lemma PaddedFull(g: seq<byte>)
    requires |g| == 4
    ensures GroupDigits(g) == Digits85(Pack(g), 5)
  {
    var p := Padded(g);
    assert p == g + [] && g + [] == g;
    var ds := Digits85(Pack(g), 5);
    assert ds[..5] == ds;
  }

  lemma GroupPowers()
    ensures Pow256(4) == Modulus && Pow85(5) == 4437053125
  {
    assert Pow256(2) == 65536;
    assert Pow85(2) == 7225;
  }

  /** The five digits of a full group accumulate back to its value. */
  lemma AccFullGroup(g: seq<byte>)
    requires |g| == 4
    ensures AccAll(0, Digits85(Pack(g), 5)) == Pack(g)
  {
    var v := Pack(g);
    PackBound(g);
    GroupPowers();
    DigitsValue(v, 5);
    AccAllValue(Digits85(v, 5));
    assert v < Modulus;
    SmallMod(v);
  }

  /** With a table that inverts the alphabet, a full group's five symbols
      decode to the group, whichever trailer rule is used. */
  lemma FullGroup(g: seq<byte>, rest: string, t: seq<int>, ignore: bool, fixed: bool)
    requires IsTable(t) && Inverts(t) && |g| == 4
    ensures Run(DecState(0, 0), EncodeGroup(g) + rest, t, ignore, fixed) ==
            Prepend(g, Run(DecState(0, 0), rest, t, ignore, fixed))
  {
    PaddedFull(g);
    SymbolsRead(t, GroupDigits(g));
    FiveSymbols(EncodeGroup(g), GroupDigits(g), rest, t, ignore, fixed);
    AccFullGroup(g);
    BytesPack(g);
  }

  lemma {:induction false} ShiftBound256(x: nat, n: nat, k: nat)
    requires k <= n && Shift256(x, k) < Pow256(n - k)
    ensures x < Pow256(n)
    decreases k
  {
    if k > 0 {
      ShiftBound256(x / 256, n - 1, k - 1);
    }
  }

  /** A partial group's digits are the leading digits of its value shifted
      past the zero padding. */
  lemma PartialGroupDigits(g: seq<byte>)
    requires 1 <= |g| <= 3
    ensures GroupDigits(g) == Digits85(Pack(g) * Pow256(4 - |g|), 5)[..|g| + 1]
  {
    PackZeros(g, 4 - |g|);
  }

  /** The digits of a partial group of 4 - k bytes, padded with k digits 84,
      stay below 2^32 and their leading bytes are the group. */
  lemma PartialValue(g: seq<byte>)
    requires 1 <= |g| <= 3
    ensures var x := Value85(GroupDigits(g) + Repeat(84, 4 - |g|));
            x < Modulus && BytesBE(x, 4)[..|g|] == g
  {
    var k := 4 - |g|;
    var x := Value85(GroupDigits(g) + Repeat(84, k));
    PartialShift(g);
    ShiftBound256(x, 4, k);
    GroupPowers();
    BytesPrefix(x, 4, k);
    BytesPack(g);
  }

  /** Shifting out the padding bytes of a partial group's padded digit value
      gives the group's value. */
  lemma PartialShift(g: seq<byte>)
    requires 1 <= |g| <= 3
    ensures Shift256(Value85(GroupDigits(g) + Repeat(84, 4 - |g|)), 4 - |g|) == Pack(g)
    ensures Pack(g) < Pow256(|g|)
  {
    PackBound(g);
    PartialGroupDigits(g);
    PartialDigits(Pack(g), 4 - |g|);
  }

  lemma FinishTrailer(v: nat, n: nat, t: seq<int>, ignore: bool)
    requires v < Modulus && 2 <= n <= 4 && IsTable(t)
    ensures Run(DecState(v, n), "", t, ignore, true) ==
            Decoded(BytesBE(AccAll(v, Repeat(84, 5 - n)), 4)[..n - 1], Ok)
  {
  }

  /** Two to four characters read as digits at the end of the input: the
      corrected trailer. */
  lemma TrailingSymbols(e: string, ds: seq<nat>, t: seq<int>, ignore: bool)
    requires IsTable(t) && Reads(t, e, ds) && 2 <= |ds| <= 4
    ensures Run(DecState(0, 0), e, t, ignore, true) ==
            Decoded(BytesBE(AccAll(0, ds + Repeat(84, 5 - |ds|)), 4)[..|ds| - 1], Ok)
  {
    RunSymbols(DecState(0, 0), e, ds, "", t, ignore, true);
    assert e + "" == e;
    FinishTrailer(AccAll(0, ds), |ds|, t, ignore);
    AccAllAppend(0, ds, Repeat(84, 5 - |ds|));
  }

  /** With a table that inverts the alphabet, a final partial group decodes
      to its bytes under the corrected trailer. */
  lemma PartialGroup(g: seq<byte>, t: seq<int>, ignore: bool)
    requires IsTable(t) && Inverts(t) && 1 <= |g| <= 3
    ensures Run(DecState(0, 0), EncodeGroup(g), t, ignore, true) == Decoded(g, Ok)
  {
    var ds := GroupDigits(g);
    SymbolsRead(t, ds);
    TrailingSymbols(EncodeGroup(g), ds, t, ignore);
    PartialValue(g);
    var x := Value85(ds + Repeat(84, 4 - |g|));
    AccAllValue(ds + Repeat(84, 4 - |g|));
    SmallMod(x);
  }

  /** Decoding the symbols of any byte string with a table that inverts the
      alphabet and the corrected trailer gives the bytes back. */
  lemma {:induction false} GroupsRoundTrip(b: seq<byte>, t: seq<int>, ignore: bool)
    requires IsTable(t) && Inverts(t)
    ensures Run(DecState(0, 0), GroupsText(b), t, ignore, true) == Decoded(b, Ok)
    decreases |b|
  {
    if |b| >= 4 {
      var e := EncodeGroup(b[..4]);
      assert GroupsText(b) == e + GroupsText(b[4..]);
      FullGroup(b[..4], GroupsText(b[4..]), t, ignore, true);
      GroupsRoundTrip(b[4..], t, ignore);
      assert b[..4] + b[4..] == b;
    } else if |b| > 0 {
      PartialGroup(b, t, ignore);
    }
  }

  /** Encoding then decoding with the corrected table and trailer is the
      identity, for every wrap width and either garbage setting. */
  lemma RoundTripFixed(b: seq<byte>, wrap: nat, ignore: bool)
    ensures Decode(Encode(b, wrap), ignore, true) == Decoded(b, Ok)
  {
    var e := EncodeRun(b, 0, wrap);
    var g := GroupsText(b);
    EncodeRunIsPutAll(b, 0, wrap);
    UnwrapNoNewline(g);
    var tail := if wrap > 0 && e.col > 0 then "\n" else "";
    UnwrapAppend(e.text, tail);
    assert Unwrap(tail) == [];
    assert Unwrap(Encode(b, wrap)) == g;
    FixedInverts();
    RunUnwrap(DecState(0, 0), Encode(b, wrap), FixedTable(), ignore, true);
    GroupsRoundTrip(b, FixedTable(), ignore);
  }

  // ---------------------------------------------------- as-written examples

  /** Without wrapping, a single group is encoded on its own, with no
      newline. */
  lemma EncodeOneGroup(g: seq<byte>)
    requires 1 <= |g| <= 4
    ensures Encode(g, 0) == EncodeGroup(g)
  {
    assert GroupsText(g) == EncodeGroup(g) by {
      if |g| == 4 {
        assert g[..4] == g && g[4..] == [];
      }
    }
    EncodeRunIsPutAll(g, 0, 0);
    assert EncodeGroup(g) + "" == EncodeGroup(g);
  }

  lemma EncodeTen()
    ensures Encode([0, 0, 0, 10], 0) == "0000a"
  {
    var g: seq<byte> := [0, 0, 0, 10];
    PaddedFull(g);
    PackFour(0, 0, 0, 10);
    assert Digits85(10, 5) == [0, 0, 0, 0, 10];
    AlphabetShape();
    assert Symbols([0, 0, 0, 0, 10]) == "0000a";
    EncodeOneGroup(g);
  }

  lemma TenReads()
    ensures IsTable(Table()) && Reads(Table(), "0000a", [0, 0, 0, 0, 36])
  {
    TableDecimal('0');
    TableLower('a');
  }

  lemma AccTen()
    ensures AccAll(0, [0, 0, 0, 0, 36]) == 36
  {
    var z: seq<nat> := Repeat(0, 4);
    AccAllSnoc(0, z, 36);
    assert z + [36] == [0, 0, 0, 0, 36];
    AccAllZeros(4);
  }

  lemma {:induction false} AccAllZeros(k: nat)
    ensures AccAll(0, Repeat(0, k)) == 0
  {
    if k > 0 {
      AccAllZeros(k - 1);
      AccAllSnoc(0, Repeat(0, k - 1), 0);
    }
  }

  lemma TenBytes()
    ensures BytesBE(AccAll(0, [0, 0, 0, 0, 36]), 4) == [0, 0, 0, 36]
  {
    AccTen();
    assert BytesBE(36, 4) == [0, 0, 0, 36];
  }

  lemma DecodeTenAsWritten()
    ensures Decode("0000a", false, false) == Decoded([0, 0, 0, 36], Ok)
  {
    TenReads();
    FiveSymbols("0000a", [0, 0, 0, 0, 36], "", Table(), false, false);
    assert "0000a" + "" == "0000a";
    TenBytes();
    PrependEmptyTail([0, 0, 0, 36]);
  }

  /** As written, the group [0, 0, 0, 10] encodes to "0000a", which the
      table decodes to [0, 0, 0, 36]. */
  lemma TableRoundTripFails()
    ensures Decode(Encode([0, 0, 0, 10], 0), false, false) == Decoded([0, 0, 0, 36], Ok)
  {
    EncodeTen();
    DecodeTenAsWritten();
  }

  lemma EncodeZeroByte()
    ensures Encode([0], 0) == "00"
  {
    var g: seq<byte> := [0];
    assert Padded(g) == [0, 0, 0, 0];
    PackFour(0, 0, 0, 0);
    assert Digits85(0, 5) == [0, 0, 0, 0, 0];
    assert GroupDigits(g) == [0, 0];
    AlphabetShape();
    assert Symbols([0, 0]) == "00";
    EncodeOneGroup(g);
  }

  /** k digits 84 are the largest k-digit value, 85^k - 1. */
  lemma ValueTop(k: nat)
    ensures Value85(Repeat(84, k)) == Pow85(k) - 1
  {
    var ds := Repeat(84, k);
    ValuePad([], k);
    assert [] + ds == ds;
    assert Value85([]) == 0;
  }

  lemma AccThreeTop()
    ensures AccAll(0, Repeat(84, 3)) == 614124
  {
    AccAllValue(Repeat(84, 3));
    ValueTop(3);
    assert Pow85(3) == 614125;
  }

  lemma AccFiveTop()
    ensures AccAll(0, Repeat(84, 5)) == 4437053124 - Modulus
  {
    AccAllValue(Repeat(84, 5));
    ValueTop(5);
    assert Pow85(5) == 4437053125;
  }

  lemma ZeroZeroReads()
    ensures IsTable(Table()) && Reads(Table(), "00", [0, 0])
  {
    TableDecimal('0');
  }

  /** The as-written trailer for two digits 0: the group is padded with
      three digits 84 and all four bytes are written. */
  lemma FinishZeroZero()
    ensures Finish(DecState(0, 2), false) == Decoded([0, 9, 94, 236], Ok)
  {
    AccThreeTop();
    assert BytesBE(614124, 4) == [0, 9, 94, 236];
  }

  lemma DecodeZeroZeroAsWritten()
    ensures Decode("00", false, false) == Decoded([0, 9, 94, 236], Ok)
  {
    ZeroZeroReads();
    RunSymbols(DecState(0, 0), "00", [0, 0], "", Table(), false, false);
    assert "00" + "" == "00";
    assert AccAll(0, [0, 0]) == 0 by {
      AccAllValue([0, 0]);
      assert [0, 0][..1] == [0];
    }
    FinishZeroZero();
  }

  /** As written, a one-byte input comes back as four bytes: [0] encodes to
      "00", which is padded to the digits 0, 0, 84, 84, 84 and all four bytes
      of their value are written. */
  lemma TrailerLengthAsWritten()
    ensures Decode(Encode([0], 0), false, false) == Decoded([0, 9, 94, 236], Ok)
  {
    EncodeZeroByte();
    DecodeZeroZeroAsWritten();
  }

  lemma PrependEmptyTail(b: seq<byte>)
    ensures Prepend(b, Decoded([], Ok)) == Decoded(b, Ok)
  {
    assert b + [] == b;
  }

  /** The 32-bit accumulator wraps: "#####" stands for 85^5 - 1, which does
      not fit, and both decoders write the bytes of 85^5 - 1 - 2^32 instead. */
  lemma HashesRead(t: seq<int>)
    requires t == Table() || t == FixedTable()
    ensures IsTable(t) && Reads(t, "#####", Repeat(84, 5))
  {
    TablesAreTables();
    assert t[35] == Row32[3] == Fixed32[3];
  }

  lemma GroupValueWraps(fixed: bool)
    ensures Decode("#####", false, fixed) == Decoded(BytesBE(4437053124 - Modulus, 4), Ok)
  {
    var t := if fixed then FixedTable() else Table();
    HashesRead(t);
    FiveSymbols("#####", Repeat(84, 5), "", t, false, fixed);
    assert "#####" + "" == "#####";
    AccFiveTop();
    PrependEmptyTail(BytesBE(4437053124 - Modulus, 4));
  }
}
