/** The leetspeak tool: characters replaced by look-alike digits and symbols
    at one of three levels, and replacements read back by greedy matching of
    the longest replacement first. */
module Leet {
  import opened CType
  import opened Optional
  import opened Decimal
  import opened CStdlib

  /** One row of a table: a character and the text that replaces it. */
  datatype Entry = Entry(key: char, value: string)

  // The tables, one constant for every few lines of the tables in leet.c.

  const BasicAEI: seq<Entry> :=
    [Entry('a', "4"), Entry('A', "4"), Entry('e', "3"), Entry('E', "3"), Entry('i', "1"), Entry('I', "1")]

  const BasicLOST: seq<Entry> :=
    [Entry('l', "1"), Entry('L', "1"), Entry('o', "0"), Entry('O', "0"),
     Entry('s', "5"), Entry('S', "5"), Entry('t', "7"), Entry('T', "7")]

  const AdvancedABEG: seq<Entry> :=
    [Entry('a', "4"), Entry('A', "4"), Entry('b', "6"), Entry('B', "6"),
     Entry('e', "3"), Entry('E', "3"), Entry('g', "9"), Entry('G', "9")]

  const AdvancedILOS: seq<Entry> :=
    [Entry('i', "1"), Entry('I', "1"), Entry('l', "1"), Entry('L', "1"),
     Entry('o', "0"), Entry('O', "0"), Entry('s', "5"), Entry('S', "5")]

  const AdvancedTZ: seq<Entry> :=
    [Entry('t', "7"), Entry('T', "7"), Entry('z', "2"), Entry('Z', "2")]

  const ExtremeAD: seq<Entry> :=
    [Entry('a', "4"), Entry('A', "@"), Entry('b', "6"), Entry('B', "|3"),
     Entry('c', "<"), Entry('C', "("), Entry('d', "|)"), Entry('D', "|)")]

  const ExtremeEH: seq<Entry> :=
    [Entry('e', "3"), Entry('E', "3"), Entry('f', "|="), Entry('F', "|="),
     Entry('g', "9"), Entry('G', "6"), Entry('h', "#"), Entry('H', "|-|")]

  const ExtremeIL: seq<Entry> :=
    [Entry('i', "1"), Entry('I', "!"), Entry('j', "_|"), Entry('J', "_|"),
     Entry('k', "|<"), Entry('K', "|<"), Entry('l', "1"), Entry('L', "|_")]

  const ExtremeMP: seq<Entry> :=
    [Entry('m', "|\\/|"), Entry('M', "|\\/|"), Entry('n', "|\\|"), Entry('N', "|\\|"),
     Entry('o', "0"), Entry('O', "0"), Entry('p', "|>"), Entry('P', "|>")]

  const ExtremeQT: seq<Entry> :=
    [Entry('q', "9"), Entry('Q', "0_"), Entry('r', "|2"), Entry('R', "|2"),
     Entry('s', "5"), Entry('S', "$"), Entry('t', "7"), Entry('T', "7")]

  const ExtremeUX: seq<Entry> :=
    [Entry('u', "|_|"), Entry('U', "|_|"), Entry('v', "\\/"), Entry('V', "\\/"),
     Entry('w', "VV"), Entry('W', "VV"), Entry('x', "><"), Entry('X', "><")]

  const ExtremeYZ: seq<Entry> :=
    [Entry('y', "`/"), Entry('Y', "`/"), Entry('z', "2"), Entry('Z', "2")]

  /** Level 1. */
  const Basic: seq<Entry> := BasicAEI + BasicLOST

  /** Level 2. */
  const Advanced: seq<Entry> := AdvancedABEG + AdvancedILOS + AdvancedTZ

  /** Level 3. */
  const Extreme: seq<Entry> := ExtremeAD + ExtremeEH + ExtremeIL + ExtremeMP + ExtremeQT + ExtremeUX + ExtremeYZ

  /** The table the encoder and the decoder switch to: 2 and 3 select their
      tables and any other level the basic one. */
  function TableFor(level: int): seq<Entry> {
    if level == 2 then Advanced else if level == 3 then Extreme else Basic
  }

  /** main's -l option: the level is atoi of the argument, and only 1, 2 and
      3 are accepted (None is the error exit). */
  function ParseLevel(arg: string): (r: Option<int>)
    ensures r.Some? ==> 1 <= r.value <= 3
  {
    var v := Atoi(arg);
    if v < 1 || v > 3 then None else Some(v)
  }

  /** A level written in digits is accepted exactly when its value modulo
      2^32, the int that atoi leaves, is 1, 2 or 3; a value too large for a
      long reads as -1 and is refused. */
  lemma ParseLevelDigits(d: string)
    requires |d| > 0 && AllDigits(d)
    ensures Value(d) <= LongMax ==> (ParseLevel(d).Some? <==> 1 <= Value(d) % 0x1_0000_0000 <= 3)
    ensures ParseLevel(d).Some? ==> ParseLevel(d).value == Value(d) % 0x1_0000_0000
    ensures Value(d) > LongMax ==> ParseLevel(d) == None
  {
    StrtolDigits(d);
  }

  /** A level printed in decimal is read modulo 2^32: 2^32 + 2, for one,
      is accepted as level 2. */
  lemma ParseLevelShow(n: nat)
    requires n <= LongMax
    ensures ParseLevel(Show(n)).Some? <==> 1 <= n % 0x1_0000_0000 <= 3
    ensures ParseLevel(Show(n)).Some? ==> ParseLevel(Show(n)).value == n % 0x1_0000_0000
  {
    ValueShow(n);
    ParseLevelDigits(Show(n));
  }

  /** atoi reads a leading number and ignores what follows it; a level
      outside 1 to 3, or no number at all, is refused. */
  lemma ParseLevelAccepts()
    ensures ParseLevel("2") == Some(2)
    ensures ParseLevel(" 3x") == Some(3)
  {
    assert "2"[0..1] == "2";
    assert " 3x"[1..2] == "3";
  }

  lemma ParseLevelRefuses()
    ensures ParseLevel("4") == None
    ensures ParseLevel("0") == None
    ensures ParseLevel("high") == None
  {
    assert "4"[0..1] == "4";
    assert "0"[0..1] == "0";
  }

  // ------------------------------------------------------ lookups

  /** The index of the first entry of t from i on whose key is c, |t| when
      there is none. */
  function FirstWithKey(t: seq<Entry>, c: char, i: nat): (r: nat)
    requires i <= |t|
    ensures i <= r <= |t|
    ensures r < |t| ==> t[r].key == c
    ensures forall j | i <= j < r :: t[j].key != c
    decreases |t| - i
  {
    if i == |t| || t[i].key == c then i else FirstWithKey(t, c, i + 1)
  }

  /** The index of the first entry of t from i on whose value is w. */
  function FirstWithValue(t: seq<Entry>, w: string, i: nat): (r: nat)
    requires i <= |t|
    ensures i <= r <= |t|
    ensures r < |t| ==> t[r].value == w
    ensures forall j | i <= j < r :: t[j].value != w
    decreases |t| - i
  {
    if i == |t| || t[i].value == w then i else FirstWithValue(t, w, i + 1)
  }

  /** find_leet_char: the replacement of the first entry whose key is c,
      compared exactly (so case-sensitively). */
  function FindLeet(t: seq<Entry>, c: char): Option<string> {
    var i := FirstWithKey(t, c, 0);
    if i < |t| then Some(t[i].value) else None
  }

  /** find_normal_char: the key of the first entry whose value is exactly w. */
  function FindNormal(t: seq<Entry>, w: string): Option<char> {
    var i := FirstWithValue(t, w, 0);
    if i < |t| then Some(t[i].key) else None
  }

  /** The lookups find exactly what the table holds: a replacement is the
      value of an entry with that key, a key one with that value, and
      nothing is found only when no entry fits. */
  lemma LookupMeaning(t: seq<Entry>, c: char, w: string)
    ensures FindLeet(t, c).None? <==> forall i | 0 <= i < |t| :: t[i].key != c
    ensures FindLeet(t, c).Some? ==> exists i | 0 <= i < |t| :: t[i] == Entry(c, FindLeet(t, c).value)
    ensures FindNormal(t, w).None? <==> forall i | 0 <= i < |t| :: t[i].value != w
    ensures FindNormal(t, w).Some? ==> exists i | 0 <= i < |t| :: t[i] == Entry(FindNormal(t, w).value, w)
  {
  }

  /** No two entries of t share a key. */
  predicate DistinctKeys(t: seq<Entry>) {
    forall i, j | 0 <= i < j < |t| :: t[i].key != t[j].key
  }

  /** With distinct keys, every entry's key finds that entry's value. */
  lemma FindLeetEntry(t: seq<Entry>, i: nat)
    requires DistinctKeys(t) && i < |t|
    ensures FindLeet(t, t[i].key) == Some(t[i].value)
  {
    var j := FirstWithKey(t, t[i].key, 0);
    assert j == i;
  }

  /** Every replacement is a single character. */
  predicate SingleChars(t: seq<Entry>) {
    forall i | 0 <= i < |t| :: |t[i].value| == 1
  }

  /** Every replacement has one to four characters, the lengths the decoder
      tries. */
  predicate ValuesFit(t: seq<Entry>) {
    forall i | 0 <= i < |t| :: 1 <= |t[i].value| <= 4
  }

  /** A letter's place in the order a, A, b, B, ...; the tables list their
      keys in that order. */
  function Rank(c: char): int {
    if IsLower(c) then 2 * (c as int - 'a' as int)
    else if IsUpper(c) then 2 * (c as int - 'A' as int) + 1
    else -1
  }

  predicate Ranked(t: seq<Entry>) {
    forall i | 0 <= i < |t| - 1 :: Rank(t[i].key) < Rank(t[i + 1].key)
  }

  lemma {:induction false} RankedDistinct(t: seq<Entry>)
    requires Ranked(t)
    ensures DistinctKeys(t)
    ensures forall i, j | 0 <= i < j < |t| :: Rank(t[i].key) < Rank(t[j].key)
    decreases |t|
  {
    if |t| > 1 {
      RankedDistinct(t[1..]);
      forall i, j | 0 <= i < j < |t|
        ensures Rank(t[i].key) < Rank(t[j].key)
      {
        if i > 0 {
          assert t[i] == t[1..][i - 1] && t[j] == t[1..][j - 1];
        } else if j > 1 {
          assert t[1] == t[1..][0] && t[j] == t[1..][j - 1];
        }
      }
    }
  }

  lemma ShapeAppend(a: seq<Entry>, b: seq<Entry>)
    requires |a| > 0 && |b| > 0 && Rank(a[|a| - 1].key) < Rank(b[0].key)
    ensures Ranked(a) && Ranked(b) ==> Ranked(a + b)
    ensures SingleChars(a) && SingleChars(b) ==> SingleChars(a + b)
    ensures ValuesFit(a) && ValuesFit(b) ==> ValuesFit(a + b)
  {
    var ab := a + b;
    assert forall i | |a| <= i < |ab| :: ab[i] == b[i - |a|];
    assert forall i | 0 <= i < |a| :: ab[i] == a[i];
  }

  lemma BasicRowAEI()
    ensures Ranked(BasicAEI) && SingleChars(BasicAEI) && ValuesFit(BasicAEI)
  {
  }

  lemma BasicRowLOST()
    ensures Ranked(BasicLOST) && SingleChars(BasicLOST) && ValuesFit(BasicLOST)
  {
  }

  /** The two single-character tables: keys in order, so distinct, and
      one-character values. */
  lemma BasicShape()
    ensures Ranked(Basic) && SingleChars(Basic) && ValuesFit(Basic)
  {
    BasicRowAEI();
    BasicRowLOST();
    ShapeAppend(BasicAEI, BasicLOST);
  }

  lemma AdvancedRowABEG()
    ensures Ranked(AdvancedABEG) && SingleChars(AdvancedABEG) && ValuesFit(AdvancedABEG)
  {
  }

  lemma AdvancedRowILOS()
    ensures Ranked(AdvancedILOS) && SingleChars(AdvancedILOS) && ValuesFit(AdvancedILOS)
  {
  }

  lemma AdvancedRowTZ()
    ensures Ranked(AdvancedTZ) && SingleChars(AdvancedTZ) && ValuesFit(AdvancedTZ)
  {
  }

  lemma AdvancedShape()
    ensures Ranked(Advanced) && SingleChars(Advanced) && ValuesFit(Advanced)
  {
    AdvancedRowABEG();
    AdvancedRowILOS();
    AdvancedRowTZ();
    ShapeAppend(AdvancedABEG, AdvancedILOS);
    ShapeAppend(AdvancedABEG + AdvancedILOS, AdvancedTZ);
  }

  lemma ExtremeRowsLow()
    ensures ValuesFit(ExtremeAD) && ValuesFit(ExtremeEH)
  {
  }

  lemma ExtremeRowsMiddle()
    ensures ValuesFit(ExtremeIL) && ValuesFit(ExtremeMP)
  {
  }

  lemma ExtremeRowsHigh()
    ensures ValuesFit(ExtremeQT) && ValuesFit(ExtremeUX) && ValuesFit(ExtremeYZ)
  {
  }

  lemma ExtremeFrontFits()
    ensures ValuesFit(ExtremeAD + ExtremeEH + ExtremeIL + ExtremeMP)
  {
    ExtremeRowsLow();
    ExtremeRowsMiddle();
    ShapeAppend(ExtremeAD, ExtremeEH);
    ShapeAppend(ExtremeAD + ExtremeEH, ExtremeIL);
    ShapeAppend(ExtremeAD + ExtremeEH + ExtremeIL, ExtremeMP);
  }

  /** Level 3 has replacements of up to four characters, none longer, and
      not all of them single characters. */
  lemma ExtremeShape()
    ensures ValuesFit(Extreme) && !SingleChars(Extreme)
  {
    var front := ExtremeAD + ExtremeEH + ExtremeIL + ExtremeMP;
    ExtremeFrontFits();
    ExtremeRowsHigh();
    ShapeAppend(front, ExtremeQT);
    ShapeAppend(front + ExtremeQT, ExtremeUX);
    ShapeAppend(front + ExtremeQT + ExtremeUX, ExtremeYZ);
    ExtremeNotSingle();
  }

  lemma ExtremeNotSingle()
    ensures !SingleChars(Extreme)
  {
    assert Extreme[3] == ExtremeAD[3];
  }

  /** The facts the round trip at levels 1 and 2 needs. */
  lemma SingleLevels(level: int)
    requires level == 1 || level == 2
    ensures SingleChars(TableFor(level)) && DistinctKeys(TableFor(level))
  {
    BasicShape();
    AdvancedShape();
    RankedDistinct(TableFor(level));
  }

  // ------------------------------------------------------ encode_leetspeak

  /** One character of encode_leetspeak: its replacement, or itself. */
  function EncodeChar(t: seq<Entry>, c: char): string {
    match FindLeet(t, c)
    case Some(v) => v
    case None => [c]
  }

  function EncodeWith(t: seq<Entry>, s: string): string
    decreases |s|
  {
    if |s| == 0 then "" else EncodeChar(t, s[0]) + EncodeWith(t, s[1..])
  }

  /** encode_leetspeak with the table of the level. */
  function Encode(s: string, level: int): string {
    EncodeWith(TableFor(level), s)
  }

  lemma {:induction false} EncodeWithLength(t: seq<Entry>, s: string)
    requires SingleChars(t)
    ensures |EncodeWith(t, s)| == |s|
    decreases |s|
  {
    if |s| > 0 {
      EncodeWithLength(t, s[1..]);
      LookupMeaning(t, s[0], "");
    }
  }

  /** At levels 1 and 2 every replacement is one character, so encoding
      keeps the length of the text. */
  lemma EncodeLength(s: string, level: int)
    requires level == 1 || level == 2
    ensures |Encode(s, level)| == |s|
  {
    SingleLevels(level);
    EncodeWithLength(TableFor(level), s);
  }

  /** Characters without an entry pass through unchanged. */
  lemma {:induction false} EncodeKeeps(t: seq<Entry>, s: string)
    requires forall k | 0 <= k < |s| :: FindLeet(t, s[k]).None?
    ensures EncodeWith(t, s) == s
    decreases |s|
  {
    if |s| > 0 {
      EncodeKeeps(t, s[1..]);
      assert s == [s[0]] + s[1..];
    }
  }

  // ------------------------------------------------------ decode_leetspeak

  /** The buffer of decode_leetspeak holds 1024 characters, the last one for
      the terminating NUL. */
  const BufferSize: nat := 1024

  /** A match found at the decoder's position: the key it stands for and the
      number of characters it covers. */
  datatype Match = Match(key: char, len: nat)

  /** Some entry's value is the len characters of buf at position i. */
  predicate MatchesAt(t: seq<Entry>, buf: string, i: nat, len: nat) {
    i + len <= |buf| && FindNormal(t, buf[i..i + len]).Some?
  }

  /** The longest match of at most len characters at position i, trying the
      lengths from len down to 1. */
  function Longest(t: seq<Entry>, buf: string, i: nat, len: nat): (r: Option<Match>)
    requires i <= |buf|
    ensures r.Some? ==> 1 <= r.value.len <= len && i + r.value.len <= |buf|
                        && FindNormal(t, buf[i..i + r.value.len]) == Some(r.value.key)
    ensures forall l | (if r.Some? then r.value.len else 0) < l <= len :: !MatchesAt(t, buf, i, l)
    decreases len
  {
    if len == 0 then None
    else if MatchesAt(t, buf, i, len) then
      Some(Match(FindNormal(t, buf[i..i + len]).value, len))
    else Longest(t, buf, i, len - 1)
  }

  /** The decoding loop from position i: the key of the longest match of at
      most four characters, or else the character itself, then the rest. */
  function DecodeFrom(t: seq<Entry>, buf: string, i: nat): string
    requires i <= |buf|
    decreases |buf| - i
  {
    if i == |buf| then ""
    else match Longest(t, buf, i, 4)
      case Some(m) => [m.key] + DecodeFrom(t, buf, i + m.len)
      case None => [buf[i]] + DecodeFrom(t, buf, i + 1)
  }

  /** decode_leetspeak: only the first BufferSize - 1 characters of the input
      are read. */
  function Decode(s: string, level: int): string {
    DecodeWith(TableFor(level), s)
  }

  function DecodeWith(t: seq<Entry>, s: string): string {
    var n := if |s| < BufferSize - 1 then |s| else BufferSize - 1;
    DecodeFrom(t, s[..n], 0)
  }

  /** Input beyond the first 1023 characters is never looked at. */
  lemma DecodeReadsPrefix(s: string, more: string, level: int)
    requires |s| >= BufferSize - 1
    ensures Decode(s + more, level) == Decode(s, level)
  {
    assert (s + more)[..BufferSize - 1] == s[..BufferSize - 1];
  }

  /** One character read back on its own: the key of the first entry whose
      value is that character, or the character itself. */
  function DecodeChar(t: seq<Entry>, c: char): char {
    match FindNormal(t, [c])
    case Some(k) => k
    case None => c
  }

  function DecodeChars(t: seq<Entry>, s: string): (r: string)
    ensures |r| == |s|
    decreases |s|
  {
    if |s| == 0 then "" else [DecodeChar(t, s[0])] + DecodeChars(t, s[1..])
  }

  /** With one-character replacements only one-character matches exist, so
      decoding goes character by character. */
  lemma {:induction false} DecodeFromSingles(t: seq<Entry>, buf: string, i: nat)
    requires SingleChars(t) && i <= |buf|
    ensures DecodeFrom(t, buf, i) == DecodeChars(t, buf[i..])
    decreases |buf| - i
  {
    if i < |buf| {
      DecodeFromSingles(t, buf, i + 1);
      assert buf[i..][1..] == buf[i + 1..];
      LongestSingle(t, buf, i);
    }
  }

  /** With one-character replacements the longest match is the character
      alone, when it matches at all. */
  lemma LongestSingle(t: seq<Entry>, buf: string, i: nat)
    requires SingleChars(t) && i < |buf|
    ensures Longest(t, buf, i, 4) == match FindNormal(t, [buf[i]])
                                     case Some(k) => Some(Match(k, 1))
                                     case None => None
  {
    assert buf[i..i + 1] == [buf[i]];
    var r := Longest(t, buf, i, 4);
    if r.Some? {
      var l := r.value.len;
      LookupMeaning(t, ' ', buf[i..i + l]);
    } else {
      assert !MatchesAt(t, buf, i, 1);
    }
  }

  /** At levels 1 and 2 decoding reads each character on its own. */
  lemma DecodeByChars(s: string, level: int)
    requires level == 1 || level == 2
    requires |s| < BufferSize
    ensures Decode(s, level) == DecodeChars(TableFor(level), s)
  {
    SingleLevels(level);
    DecodeWithSingles(TableFor(level), s);
  }

  lemma DecodeWithSingles(t: seq<Entry>, s: string)
    requires SingleChars(t) && |s| < BufferSize
    ensures DecodeWith(t, s) == DecodeChars(t, s)
  {
    DecodeFromSingles(t, s, 0);
    assert s[..|s|] == s;
    assert s[0..] == s;
  }

  /** Encoding what was decoded from an encoding gives that encoding again:
      a decoded character is one whose replacement is the character read. */
  lemma EncodeDecodedChar(t: seq<Entry>, c: char)
    requires DistinctKeys(t) && SingleChars(t)
    ensures var e := EncodeChar(t, c);
            |e| == 1 && EncodeChar(t, DecodeChar(t, e[0])) == e
  {
    LookupMeaning(t, c, "");
    var e := EncodeChar(t, c);
    assert |e| == 1;
    LookupMeaning(t, ' ', [e[0]]);
    assert [e[0]] == e;
    match FindNormal(t, e) {
      case Some(k) =>
        var i :| 0 <= i < |t| && t[i] == Entry(k, e);
        FindLeetEntry(t, i);
      case None =>
    }
  }

  lemma {:induction false} EncodeDecodeChars(t: seq<Entry>, s: string)
    requires DistinctKeys(t) && SingleChars(t)
    ensures EncodeWith(t, DecodeChars(t, EncodeWith(t, s))) == EncodeWith(t, s)
    decreases |s|
  {
    if |s| > 0 {
      EncodeDecodeChars(t, s[1..]);
      EncodeDecodedChar(t, s[0]);
      var e := EncodeChar(t, s[0]);
      var rest := EncodeWith(t, s[1..]);
      assert EncodeWith(t, s) == e + rest;
      assert (e + rest)[0] == e[0] && (e + rest)[1..] == rest;
      assert DecodeChars(t, e + rest) == [DecodeChar(t, e[0])] + DecodeChars(t, rest);
      var d := DecodeChars(t, rest);
      assert ([DecodeChar(t, e[0])] + d)[1..] == d;
    }
  }

  /** At levels 1 and 2, decoding loses case and merges letters that share a
      replacement (i and l), but encoding the result gives back the same
      leetspeak. */
  lemma EncodeDecodeEncode(s: string, level: int)
    requires level == 1 || level == 2
    requires |s| < BufferSize
    ensures Encode(Decode(Encode(s, level), level), level) == Encode(s, level)
  {
    SingleLevels(level);
    EncodeLength(s, level);
    DecodeByChars(Encode(s, level), level);
    EncodeDecodeChars(TableFor(level), s);
  }

  /** A value absent from the front of a table is looked for in the rest. */
  lemma FirstWithValueAppend(a: seq<Entry>, b: seq<Entry>, w: string)
    requires forall i | 0 <= i < |a| :: a[i].value != w
    ensures FirstWithValue(a + b, w, 0) == |a| + FirstWithValue(b, w, 0)
  {
    var ab := a + b;
    var r := FirstWithValue(ab, w, 0);
    var q := FirstWithValue(b, w, 0);
    assert forall i | |a| <= i < |ab| :: ab[i] == b[i - |a|];
    if |a| + q < |ab| {
      assert ab[|a| + q].value == w;
    }
  }

  /** find_normal_char takes the first entry with the value: at level 1 "1"
      is i (not I, l or L) and "4" is a. */
  lemma FindNormalExamples()
    ensures FindNormal(Basic, "1") == Some('i')
    ensures FindNormal(Basic, "4") == Some('a')
  {
    assert Basic[4] == BasicAEI[4] && Basic[0] == BasicAEI[0];
  }

  /** At level 3 the first entry with "|_|" is u. */
  lemma FindU()
    ensures FindNormal(Extreme, "|_|") == Some('u')
  {
    var front := ExtremeAD + ExtremeEH + ExtremeIL + ExtremeMP + ExtremeQT;
    ExtremeFront();
    assert Extreme == front + (ExtremeUX + ExtremeYZ);
    FirstWithValueAppend(front, ExtremeUX + ExtremeYZ, "|_|");
    assert (ExtremeUX + ExtremeYZ)[0].value == "|_|";
  }

  lemma ExtremeFront()
    ensures forall i | 0 <= i < |ExtremeAD + ExtremeEH + ExtremeIL + ExtremeMP + ExtremeQT| ::
              (ExtremeAD + ExtremeEH + ExtremeIL + ExtremeMP + ExtremeQT)[i].value != "|_|"
  {
    NoValueAppend(ExtremeAD, ExtremeEH, "|_|");
    NoValueAppend(ExtremeAD + ExtremeEH, ExtremeIL, "|_|");
    NoValueAppend(ExtremeAD + ExtremeEH + ExtremeIL, ExtremeMP, "|_|");
    NoValueAppend(ExtremeAD + ExtremeEH + ExtremeIL + ExtremeMP, ExtremeQT, "|_|");
  }

  lemma NoValueAppend(a: seq<Entry>, b: seq<Entry>, w: string)
    requires forall i | 0 <= i < |a| :: a[i].value != w
    requires forall i | 0 <= i < |b| :: b[i].value != w
    ensures forall i | 0 <= i < |a + b| :: (a + b)[i].value != w
  {
    var ab := a + b;
    assert forall i | |a| <= i < |ab| :: ab[i] == b[i - |a|];
  }

  /** Greedy matching: at level 3 "|_|" is read as u, not as L followed by
      a bar, and level 1 reads "1" as i. */
  lemma DecodeExamples()
    ensures Decode("|_|", 3) == "u"
    ensures Decode("1", 1) == "i"
  {
    FindU();
    assert "|_|"[..3] == "|_|";
    assert "|_|"[0..3] == "|_|";
    assert MatchesAt(Extreme, "|_|", 0, 3);
    assert Longest(Extreme, "|_|", 0, 4) == Some(Match('u', 3));
    FindNormalExamples();
    assert "1"[..1] == "1";
    assert "1"[0..1] == "1";
    assert MatchesAt(Basic, "1", 0, 1);
  }
}
