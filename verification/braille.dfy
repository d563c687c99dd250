/** The braille tool: six-dot Grade 1 braille for letters, digits and common
    punctuation, written either as characters of the Unicode braille block
    (U+2800 to U+283F) or as six characters per cell, 'o' for a raised dot
    and '.' for a flat one. */
module Braille {
  import opened CType
  import opened Optional
  import opened Seqs

  /** A cell: bit k is set when dot k + 1 is raised (dots 1 to 3 down the
      left column, dots 4 to 6 down the right one). */
  type Cell = p: int | 0 <= p < 64

  /** One row of the lookup table: a character and its cell. */
  datatype Entry = Entry(ch: char, cell: Cell)

  // The table, one constant per line of the table in braille.c.

  const LettersAF: seq<Entry> :=
    [Entry('A', 0x01), Entry('B', 0x03), Entry('C', 0x09), Entry('D', 0x19), Entry('E', 0x11), Entry('F', 0x0B)]

  const LettersGL: seq<Entry> :=
    [Entry('G', 0x1B), Entry('H', 0x13), Entry('I', 0x0A), Entry('J', 0x1A), Entry('K', 0x05), Entry('L', 0x07)]

  const LettersMR: seq<Entry> :=
    [Entry('M', 0x0D), Entry('N', 0x1D), Entry('O', 0x15), Entry('P', 0x0F), Entry('Q', 0x1F), Entry('R', 0x17)]

  const LettersSX: seq<Entry> :=
    [Entry('S', 0x0E), Entry('T', 0x1E), Entry('U', 0x25), Entry('V', 0x27), Entry('W', 0x3A), Entry('X', 0x2D)]

  const LettersYZ: seq<Entry> :=
    [Entry('Y', 0x3D), Entry('Z', 0x35)]

  const Digits15: seq<Entry> :=
    [Entry('1', 0x01), Entry('2', 0x03), Entry('3', 0x09), Entry('4', 0x19), Entry('5', 0x11)]

  const Digits60: seq<Entry> :=
    [Entry('6', 0x0B), Entry('7', 0x1B), Entry('8', 0x13), Entry('9', 0x0A), Entry('0', 0x1A)]

  const Marks1: seq<Entry> :=
    [Entry('.', 0x2C), Entry(',', 0x02), Entry('?', 0x26), Entry('!', 0x16), Entry(';', 0x06)]

  const Marks2: seq<Entry> :=
    [Entry(':', 0x12), Entry('-', 0x24), Entry('\'', 0x04), Entry('"', 0x10), Entry('(', 0x2E)]

  const Marks3: seq<Entry> :=
    [Entry(')', 0x2E), Entry('/', 0x0C), Entry(' ', 0x00)]

  const Letters: seq<Entry> := LettersAF + LettersGL + LettersMR + LettersSX + LettersYZ

  const Digits: seq<Entry> := Digits15 + Digits60

  const Punctuation: seq<Entry> := Marks1 + Marks2 + Marks3

  /** The table in the order the lookups scan it (the end marker is not an
      entry). The digits reuse the cells of A to J, and ')' that of '('. */
  const Table: seq<Entry> := Letters + Digits + Punctuation

  /** The indicator cells: dot 6 before a capital, dots 3-4-5-6 before a
      run of digits. */
  const CapitalSign: Cell := 0x20
  const NumberSign: Cell := 0x3C

  /** Dots 5-6, the letter sign of Grade 1 braille, which ends a run of
      digits. The tool does not use it; only the corrected codec below does. */
  const LetterSign: Cell := 0x30

  /** The first code point of the Unicode braille block. */
  const BrailleBase: int := 0x2800

  // ------------------------------------------------------ the supported characters

  /** The punctuation of the table, the space included. */
  predicate IsMark(c: char) {
    c == '.' || c == ',' || c == '?' || c == '!' || c == ';' || c == ':' || c == '-'
    || c == '\'' || c == '"' || c == '(' || c == ')' || c == '/' || c == ' '
  }

  /** The characters the tool can write, independently of the table:
      letters of either case, digits and the marks. */
  predicate Supported(c: char) {
    IsAlpha(c) || IsDigit(c) || IsMark(c)
  }

  /** The letters that share their cells with the digits. */
  predicate LetterAJ(c: char) {
    IsAlpha(c) && ToUpper(c) <= 'J'
  }

  // ------------------------------------------------------ positions in the table

  /** The table index of a mark, -1 for any other character. */
  function MarkIndex(u: char): int {
    match u
    case '.' => 36
    case ',' => 37
    case '?' => 38
    case '!' => 39
    case ';' => 40
    case ':' => 41
    case '-' => 42
    case '\'' => 43
    case '"' => 44
    case '(' => 45
    case ')' => 46
    case '/' => 47
    case ' ' => 48
    case _ => -1
  }

  /** The table index of the entry for an upper-case character, -1 when
      there is none, computed without the table. */
  function CharIndex(u: char): int {
    if IsUpper(u) then u as int - 'A' as int
    else if u == '0' then 35
    else if IsDigit(u) then 26 + (u as int - '1' as int)
    else MarkIndex(u)
  }

  /** The table index of the first entry with cell p, -1 when there is none. */
  function CellIndex(p: int): int {
    match p
    case 0x01 => 0
    case 0x03 => 1
    case 0x09 => 2
    case 0x19 => 3
    case 0x11 => 4
    case 0x0B => 5
    case 0x1B => 6
    case 0x13 => 7
    case 0x0A => 8
    case 0x1A => 9
    case 0x05 => 10
    case 0x07 => 11
    case 0x0D => 12
    case 0x1D => 13
    case 0x15 => 14
    case 0x0F => 15
    case 0x1F => 16
    case 0x17 => 17
    case 0x0E => 18
    case 0x1E => 19
    case 0x25 => 20
    case 0x27 => 21
    case 0x3A => 22
    case 0x2D => 23
    case 0x3D => 24
    case 0x35 => 25
    case 0x2C => 36
    case 0x02 => 37
    case 0x26 => 38
    case 0x16 => 39
    case 0x06 => 40
    case 0x12 => 41
    case 0x24 => 42
    case 0x04 => 43
    case 0x10 => 44
    case 0x2E => 45
    case 0x0C => 47
    case 0x00 => 48
    case _ => -1
  }

  /** The index of the first entry whose cell is that of entry i: a digit
      shares the cell of a letter A to J, and ')' that of '('. */
  function FirstSharing(i: int): int {
    if 26 <= i < 36 then i - 26 else if i == 46 then 45 else i
  }

  /** The entries of part, which starts at index base of the table, have the
      character and cell indexes their positions call for. */
  predicate IndexedFrom(part: seq<Entry>, base: nat) {
    forall i | 0 <= i < |part| ::
      CharIndex(part[i].ch) == base + i && CellIndex(part[i].cell) == FirstSharing(base + i)
  }

  lemma IndexedAppend(a: seq<Entry>, b: seq<Entry>, base: nat)
    requires IndexedFrom(a, base) && IndexedFrom(b, base + |a|)
    ensures IndexedFrom(a + b, base)
  {
    forall i | 0 <= i < |a + b|
      ensures CharIndex((a + b)[i].ch) == base + i && CellIndex((a + b)[i].cell) == FirstSharing(base + i)
    {
      if i >= |a| {
        assert (a + b)[i] == b[i - |a|];
      }
    }
  }

  lemma LettersAFIndexed()
    ensures IndexedFrom(LettersAF, 0)
  {
    assert CellIndex(LettersAF[0].cell) == 0;
    assert CellIndex(LettersAF[1].cell) == 1;
    assert CellIndex(LettersAF[2].cell) == 2;
    assert CellIndex(LettersAF[3].cell) == 3;
    assert CellIndex(LettersAF[4].cell) == 4;
    assert CellIndex(LettersAF[5].cell) == 5;
  }

  lemma LettersGLIndexed()
    ensures IndexedFrom(LettersGL, 6)
  {
    assert CellIndex(LettersGL[0].cell) == 6;
    assert CellIndex(LettersGL[1].cell) == 7;
    assert CellIndex(LettersGL[2].cell) == 8;
    assert CellIndex(LettersGL[3].cell) == 9;
    assert CellIndex(LettersGL[4].cell) == 10;
    assert CellIndex(LettersGL[5].cell) == 11;
  }

  lemma LettersMRIndexed()
    ensures IndexedFrom(LettersMR, 12)
  {
    assert CellIndex(LettersMR[0].cell) == 12;
    assert CellIndex(LettersMR[1].cell) == 13;
    assert CellIndex(LettersMR[2].cell) == 14;
    assert CellIndex(LettersMR[3].cell) == 15;
    assert CellIndex(LettersMR[4].cell) == 16;
    assert CellIndex(LettersMR[5].cell) == 17;
  }

  lemma LettersSXIndexed()
    ensures IndexedFrom(LettersSX, 18)
  {
    assert CellIndex(LettersSX[0].cell) == 18;
    assert CellIndex(LettersSX[1].cell) == 19;
    assert CellIndex(LettersSX[2].cell) == 20;
    assert CellIndex(LettersSX[3].cell) == 21;
    assert CellIndex(LettersSX[4].cell) == 22;
    assert CellIndex(LettersSX[5].cell) == 23;
  }

  lemma LettersYZIndexed()
    ensures IndexedFrom(LettersYZ, 24)
  {
    assert CellIndex(LettersYZ[0].cell) == 24;
    assert CellIndex(LettersYZ[1].cell) == 25;
  }

  lemma Digits15Indexed()
    ensures IndexedFrom(Digits15, 26)
  {
    assert CellIndex(Digits15[0].cell) == 0;
    assert CellIndex(Digits15[1].cell) == 1;
    assert CellIndex(Digits15[2].cell) == 2;
    assert CellIndex(Digits15[3].cell) == 3;
    assert CellIndex(Digits15[4].cell) == 4;
  }

  lemma Digits60Indexed()
    ensures IndexedFrom(Digits60, 31)
  {
    assert CellIndex(Digits60[0].cell) == 5;
    assert CellIndex(Digits60[1].cell) == 6;
    assert CellIndex(Digits60[2].cell) == 7;
    assert CellIndex(Digits60[3].cell) == 8;
    assert CellIndex(Digits60[4].cell) == 9;
  }

  lemma Marks1Indexed()
    ensures IndexedFrom(Marks1, 36)
  {
    assert CellIndex(Marks1[0].cell) == 36;
    assert CellIndex(Marks1[1].cell) == 37;
    assert CellIndex(Marks1[2].cell) == 38;
    assert CellIndex(Marks1[3].cell) == 39;
    assert CellIndex(Marks1[4].cell) == 40;
  }

  lemma Marks2Indexed()
    ensures IndexedFrom(Marks2, 41)
  {
    assert CellIndex(Marks2[0].cell) == 41;
    assert CellIndex(Marks2[1].cell) == 42;
    assert CellIndex(Marks2[2].cell) == 43;
    assert CellIndex(Marks2[3].cell) == 44;
    assert CellIndex(Marks2[4].cell) == 45;
  }

  lemma Marks3Indexed()
    ensures IndexedFrom(Marks3, 46)
  {
    assert CellIndex(Marks3[0].cell) == 45;
    assert CellIndex(Marks3[1].cell) == 47;
    assert CellIndex(Marks3[2].cell) == 48;
  }

  /** Every entry's character leads back to the entry, and every entry's
      cell to the first entry sharing it. */
  lemma TableIndexed()
    ensures |Table| == 49
    ensures IndexedFrom(Table, 0)
  {
    LettersAFIndexed();
    LettersGLIndexed();
    LettersMRIndexed();
    LettersSXIndexed();
    LettersYZIndexed();
    Digits15Indexed();
    Digits60Indexed();
    Marks1Indexed();
    Marks2Indexed();
    Marks3Indexed();
    IndexedAppend(LettersAF, LettersGL, 0);
    IndexedAppend(LettersAF + LettersGL, LettersMR, 0);
    IndexedAppend(LettersAF + LettersGL + LettersMR, LettersSX, 0);
    IndexedAppend(LettersAF + LettersGL + LettersMR + LettersSX, LettersYZ, 0);
    IndexedAppend(Digits15, Digits60, 26);
    IndexedAppend(Marks1, Marks2, 36);
    IndexedAppend(Marks1 + Marks2, Marks3, 36);
    IndexedAppend(Letters, Digits, 0);
    IndexedAppend(Letters + Digits, Punctuation, 0);
  }

  /** Entries that share a cell: the digits with A to J, ')' with '('. */
  lemma DigitCellsLow()
    ensures forall k | 0 <= k < 5 :: Digits15[k].cell == LettersAF[k].cell
  {
  }

  lemma DigitCellsHigh()
    ensures Digits60[0].cell == LettersAF[5].cell
    ensures forall k | 1 <= k < 5 :: Digits60[k].cell == LettersGL[k - 1].cell
  {
  }

  lemma SharedCells()
    ensures |Table| == 49
    ensures forall i | 0 <= i < 49 :: Table[FirstSharing(i)].cell == Table[i].cell
  {
    DigitCellsLow();
    DigitCellsHigh();
    assert Marks3[0].cell == Marks2[4].cell;
    forall i | 0 <= i < 49
      ensures Table[FirstSharing(i)].cell == Table[i].cell
    {
      if 26 <= i < 36 {
        assert Table[i] == Digits[i - 26];
        assert Table[i - 26] == Letters[i - 26];
        if i < 31 {
          assert Digits[i - 26] == Digits15[i - 26];
          assert Letters[i - 26] == LettersAF[i - 26];
        } else if i == 31 {
          assert Digits[5] == Digits60[0];
          assert Letters[5] == LettersAF[5];
        } else {
          assert Digits[i - 26] == Digits60[i - 31];
          assert Letters[i - 26] == LettersGL[i - 32];
        }
      } else if i == 46 {
        assert Table[46] == Punctuation[10] == Marks3[0];
        assert Table[45] == Punctuation[9] == Marks2[4];
      }
    }
  }

  /** Two characters at the same table index are the same character. */
  lemma CharIndexInjective(u: char, v: char)
    requires CharIndex(u) == CharIndex(v) >= 0
    ensures u == v
  {
  }

  // ------------------------------------------------------ lookups

  /** The index of the first entry of t from i on whose character is c,
      |t| when there is none. */
  function FirstWithChar(t: seq<Entry>, c: char, i: nat): (r: nat)
    requires i <= |t|
    ensures i <= r <= |t|
    ensures r < |t| ==> t[r].ch == c
    ensures forall j | i <= j < r :: t[j].ch != c
    decreases |t| - i
  {
    if i == |t| || t[i].ch == c then i else FirstWithChar(t, c, i + 1)
  }

  /** The index of the first entry of t from i on whose cell is p. */
  function FirstWithCell(t: seq<Entry>, p: int, i: nat): (r: nat)
    requires i <= |t|
    ensures i <= r <= |t|
    ensures r < |t| ==> t[r].cell == p
    ensures forall j | i <= j < r :: t[j].cell != p
    decreases |t| - i
  {
    if i == |t| || t[i].cell == p then i else FirstWithCell(t, p, i + 1)
  }

  /** char_to_braille: the cell of the upper-cased character; None stands for
      the 0xFF marker returned when the table has no entry for it. */
  function CharToBraille(c: char): Option<Cell> {
    var i := FirstWithChar(Table, ToUpper(c), 0);
    if i < |Table| then Some(Table[i].cell) else None
  }

  /** What braille_to_char returns once it has found an entry with character
      c: in number mode A to I stand for 1 to 9 and J for 0; otherwise the
      character, lower-cased unless a capital was announced. */
  function Reading(c: char, isNumber: bool, isCapital: bool): char {
    if isNumber && 'A' <= c <= 'J' then
      (if c == 'J' then '0' else ('1' as int + (c as int - 'A' as int)) as char)
    else if isCapital then c
    else ToLower(c)
  }

  /** braille_to_char: the reading of the first entry with cell p, '?' when
      no entry has it. */
  function BrailleToChar(p: int, isNumber: bool, isCapital: bool): char {
    var i := FirstWithCell(Table, p, 0);
    if i < |Table| then Reading(Table[i].ch, isNumber, isCapital) else '?'
  }

  /** The supported character c is found at its own index. */
  lemma Lookup(c: char)
    requires Supported(c)
    ensures var u := ToUpper(c);
            && 0 <= CharIndex(u) < |Table|
            && Table[CharIndex(u)].ch == u
            && CharToBraille(c) == Some(Table[CharIndex(u)].cell)
  {
    TableIndexed();
    var u := ToUpper(c);
    var i := CharIndex(u);
    CharIndexInjective(Table[i].ch, u);
    var j := FirstWithChar(Table, u, 0);
    assert CharIndex(Table[j].ch) == j;
  }

  /** Exactly the supported characters have a cell. */
  lemma SupportedIff(c: char)
    ensures CharToBraille(c).Some? <==> Supported(c)
  {
    if Supported(c) {
      Lookup(c);
    } else {
      TableIndexed();
    }
  }

  /** braille_to_char finds, for the cell of entry i, the first entry
      sharing that cell. */
  lemma FindCell(i: nat)
    requires i < |Table|
    ensures FirstWithCell(Table, Table[i].cell, 0) == FirstSharing(i)
  {
    TableIndexed();
    SharedCells();
    var j := FirstWithCell(Table, Table[i].cell, 0);
    assert CellIndex(Table[j].cell) == FirstSharing(j);
  }

  /** No entry has an indicator cell, so the decoders never take a
      character's cell for an indicator. */
  lemma NotASign(i: nat)
    requires i < |Table|
    ensures Table[i].cell != CapitalSign && Table[i].cell != NumberSign && Table[i].cell != LetterSign
  {
    TableIndexed();
    var p := Table[i].cell;
    assert CellIndex(p) >= 0;
    assert CellIndex(CapitalSign) == CellIndex(NumberSign) == CellIndex(LetterSign) == -1;
  }

  /** ')' reads back as '(', since both have the same cell; every other
      supported character reads back as itself. */
  function Shown(c: char): char {
    if c == ')' then '(' else c
  }

  /** A letter reads back with its case when its cell is decoded with a
      capital announced exactly for upper case, unless number mode turns
      A to J into digits. */
  lemma ReadLetter(c: char, numberMode: bool)
    requires IsAlpha(c) && !(numberMode && LetterAJ(c))
    ensures CharToBraille(c).Some?
    ensures CharToBraille(c).value !in {CapitalSign, NumberSign, LetterSign}
    ensures BrailleToChar(CharToBraille(c).value, numberMode, IsUpper(c)) == c
  {
    Lookup(c);
    var i := CharIndex(ToUpper(c));
    FindCell(i);
    NotASign(i);
    ReadingLetter(c, numberMode);
  }

  /** A letter's upper-case form reads as the letter itself, outside number
      mode or past J. */
  lemma ReadingLetter(c: char, numberMode: bool)
    requires IsAlpha(c) && !(numberMode && LetterAJ(c))
    ensures Reading(ToUpper(c), numberMode, IsUpper(c)) == c
  {
  }

  /** In number mode the letters A to J read as the digits 1 to 9 and 0. */
  lemma ReadLetterAsDigit(c: char, isCapital: bool)
    requires LetterAJ(c)
    ensures CharToBraille(c).Some?
    ensures var d := BrailleToChar(CharToBraille(c).value, true, isCapital);
            && IsDigit(d)
            && d == (if ToUpper(c) == 'J' then '0' else ('1' as int + (ToUpper(c) as int - 'A' as int)) as char)
  {
    Lookup(c);
    var i := CharIndex(ToUpper(c));
    FindCell(i);
  }

  /** A digit reads back as itself in number mode. */
  lemma ReadDigit(c: char, isCapital: bool)
    requires IsDigit(c)
    ensures CharToBraille(c).Some?
    ensures CharToBraille(c).value !in {CapitalSign, NumberSign, LetterSign}
    ensures BrailleToChar(CharToBraille(c).value, true, isCapital) == c
  {
    Lookup(c);
    var i := CharIndex(c);
    FindCell(i);
    NotASign(i);
    EntryAt(i - 26);
    ReadingDigit(c, Table[i - 26].ch, isCapital);
  }

  /** The entry at i has the character and cell indexes its position calls for. */
  lemma EntryAt(i: int)
    requires 0 <= i < 49
    ensures |Table| == 49
    ensures CharIndex(Table[i].ch) == i && CellIndex(Table[i].cell) == FirstSharing(i)
  {
    TableIndexed();
  }

  /** The letter sharing a digit's cell reads as that digit in number mode. */
  lemma ReadingDigit(c: char, letter: char, isCapital: bool)
    requires IsDigit(c) && CharIndex(letter) == CharIndex(c) - 26
    ensures Reading(letter, true, isCapital) == c
  {
  }

  /** A mark reads back as itself, ')' as '(', in either mode. */
  lemma ReadMark(c: char, numberMode: bool)
    requires IsMark(c)
    ensures CharToBraille(c).Some?
    ensures CharToBraille(c).value !in {CapitalSign, NumberSign, LetterSign}
    ensures BrailleToChar(CharToBraille(c).value, numberMode, false) == Shown(c)
  {
    Lookup(c);
    TableIndexed();
    var i := CharIndex(c);
    FindCell(i);
    NotASign(i);
    assert CharIndex(Table[FirstSharing(i)].ch) == FirstSharing(i);
  }

  /** A cell no entry has reads as '?'. */
  lemma UnknownCell(p: int, isNumber: bool, isCapital: bool)
    requires CellIndex(p) < 0
    ensures BrailleToChar(p, isNumber, isCapital) == '?'
  {
    TableIndexed();
  }

  // ------------------------------------------------------ cells as text

  /** Whether the dot of weight w (1, 2, 4, 8, 16 or 32) is raised in p. */
  predicate Raised(p: int, w: int)
    requires w > 0
  {
    (p / w) % 2 == 1
  }

  function DotChar(raised: bool): char {
    if raised then 'o' else '.'
  }

  /** Text of raised and flat dots only. */
  predicate IsDots(t: string) {
    forall k | 0 <= k < |t| :: t[k] == 'o' || t[k] == '.'
  }

  /** pattern_to_text: the six dots as two columns read row by row, i.e. in
      the order 1, 4, 2, 5, 3, 6. */
  function PatternToText(p: Cell): (r: string)
    ensures |r| == 6 && IsDots(r)
  {
    [DotChar(Raised(p, 0x01)), DotChar(Raised(p, 0x08)), DotChar(Raised(p, 0x02)),
     DotChar(Raised(p, 0x10)), DotChar(Raised(p, 0x04)), DotChar(Raised(p, 0x20))]
  }

  function Weight(c: char, w: int): int {
    if c == 'o' then w else 0
  }

  /** text_to_pattern: a dot is raised where the text has 'o', whatever else
      stands elsewhere; text shorter than six characters is the empty cell.
      The weights are distinct bits, so the bitwise or is a sum. */
  function TextToPattern(t: string): Cell {
    if |t| >= 6 then
      Weight(t[0], 0x01) + Weight(t[1], 0x08) + Weight(t[2], 0x02)
      + Weight(t[3], 0x10) + Weight(t[4], 0x04) + Weight(t[5], 0x20)
    else 0
  }

  /** A cell survives being written as text and read back. */
  lemma PatternTextRoundTrip(p: Cell)
    ensures TextToPattern(PatternToText(p)) == p
  {
    DotWeight(p, 0x01);
    DotWeight(p, 0x02);
    DotWeight(p, 0x04);
    DotWeight(p, 0x08);
    DotWeight(p, 0x10);
    DotWeight(p, 0x20);
    Bits(p);
  }

  /** The dot written for weight w counts w when read back exactly when
      that bit of p is set. */
  lemma DotWeight(p: Cell, w: int)
    requires w > 0
    ensures Weight(DotChar(Raised(p, w)), w) == w * ((p / w) % 2)
  {
  }

  /** p written in binary, its bits taken one division at a time. */
  lemma Bits(p: Cell)
    ensures p == (p / 1) % 2 + 2 * ((p / 2) % 2) + 4 * ((p / 4) % 2)
                 + 8 * ((p / 8) % 2) + 16 * ((p / 16) % 2) + 32 * ((p / 32) % 2)
  {
    var q1 := p / 2;
    var q2 := q1 / 2;
    var q3 := q2 / 2;
    var q4 := q3 / 2;
    var q5 := q4 / 2;
    assert p / 4 == q2 && p / 8 == q3 && p / 16 == q4 && p / 32 == q5;
  }

  /** Six characters of dots survive being read as a cell and written back. */
  lemma TextPatternRoundTrip(t: string)
    requires |t| == 6 && IsDots(t)
    ensures PatternToText(TextToPattern(t)) == t
  {
    var p := TextToPattern(t);
    BitsBack(Weight(t[0], 1), Weight(t[2], 1), Weight(t[4], 1), Weight(t[1], 1), Weight(t[3], 1), Weight(t[5], 1));
    var r := PatternToText(p);
    assert forall k | 0 <= k < 6 :: r[k] == t[k];
  }

  /** The bits a number is built from are the bits read back from it. */
  lemma BitsBack(b0: int, b1: int, b2: int, b3: int, b4: int, b5: int)
    requires 0 <= b0 <= 1 && 0 <= b1 <= 1 && 0 <= b2 <= 1 && 0 <= b3 <= 1 && 0 <= b4 <= 1 && 0 <= b5 <= 1
    ensures var p := b0 + 2 * b1 + 4 * b2 + 8 * b3 + 16 * b4 + 32 * b5;
            && (p / 1) % 2 == b0 && (p / 2) % 2 == b1 && (p / 4) % 2 == b2
            && (p / 8) % 2 == b3 && (p / 16) % 2 == b4 && (p / 32) % 2 == b5
  {
    var p := b0 + 2 * b1 + 4 * b2 + 8 * b3 + 16 * b4 + 32 * b5;
    assert p / 2 == b1 + 2 * b2 + 4 * b3 + 8 * b4 + 16 * b5;
    assert p / 4 == b2 + 2 * b3 + 4 * b4 + 8 * b5;
    assert p / 8 == b3 + 2 * b4 + 4 * b5;
    assert p / 16 == b4 + 2 * b5;
    assert p / 32 == b5;
  }

  // ------------------------------------------------------ encode_braille

  /** What the encoder writes: a cell, or a line break. */
  datatype Sym = Dots(cell: Cell) | Break

  /** The symbols written for one input character and the number mode after it. */
  datatype EncStep = EncStep(syms: seq<Sym>, numberMode: bool)

  /** One character of encode_braille: a newline is copied and ends number
      mode; an unsupported character is skipped; a digit outside number mode
      is preceded by the number sign and starts it; a space keeps the mode and
      any other character ends it; an upper-case letter is preceded by the
      capital sign. When fixed holds (the corrected codec) a letter A to J
      that ends number mode is preceded by the letter sign. */
  function EncodeChar(numberMode: bool, c: char, fixed: bool): EncStep {
    if c == '\n' then EncStep([Break], false)
    else match CharToBraille(c)
      case None => EncStep([], numberMode)
      case Some(p) =>
        var lead := if IsDigit(c) && !numberMode then [Dots(NumberSign)]
                    else if fixed && numberMode && LetterAJ(c) then [Dots(LetterSign)]
                    else [];
        var mode := if IsDigit(c) then true else if c == ' ' then numberMode else false;
        var capital := if IsUpper(c) && IsAlpha(c) then [Dots(CapitalSign)] else [];
        EncStep(lead + capital + [Dots(p)], mode)
  }

  function EncodeRun(numberMode: bool, s: string, fixed: bool): seq<Sym>
    decreases |s|
  {
    if |s| == 0 then []
    else
      var h := EncodeChar(numberMode, s[0], fixed);
      h.syms + EncodeRun(h.numberMode, s[1..], fixed)
  }

  /** The character of the braille block for cell p. */
  function UnicodeOf(p: Cell): char {
    (BrailleBase + p) as char
  }

  /** The text for a symbol: a cell as its braille character, or as six
      dots in text mode; a break as a newline. */
  function SymText(x: Sym, textMode: bool): string {
    match x
    case Break => "\n"
    case Dots(p) => if textMode then PatternToText(p) else [UnicodeOf(p)]
  }

  function Render(syms: seq<Sym>, textMode: bool): string
    decreases |syms|
  {
    if |syms| == 0 then "" else SymText(syms[0], textMode) + Render(syms[1..], textMode)
  }

  /** encode_braille: the whole input, then a final newline. The tool as
      written is fixed == false. */
  function Encode(s: string, textMode: bool, fixed: bool): string {
    Render(EncodeRun(false, s, fixed), textMode) + "\n"
  }

  /** A character the encoder may write in the given mode. */
  predicate Written(c: char, textMode: bool) {
    c == '\n' || (if textMode then c == 'o' || c == '.' else BrailleBase <= c as int < BrailleBase + 64)
  }

  lemma {:induction false} RenderWritten(syms: seq<Sym>, textMode: bool)
    ensures forall k | 0 <= k < |Render(syms, textMode)| :: Written(Render(syms, textMode)[k], textMode)
    decreases |syms|
  {
    if |syms| > 0 {
      RenderWritten(syms[1..], textMode);
      var h := SymText(syms[0], textMode);
      assert forall k | 0 <= k < |h| :: Written(h[k], textMode);
    }
  }

  /** The encoder writes only newlines and, by mode, dots or braille
      characters, and ends with a newline. */
  lemma EncodeWritten(s: string, textMode: bool, fixed: bool)
    ensures var r := Encode(s, textMode, fixed);
            && |r| > 0 && r[|r| - 1] == '\n'
            && forall k | 0 <= k < |r| :: Written(r[k], textMode)
  {
    RenderWritten(EncodeRun(false, s, fixed), textMode);
  }

  // ------------------------------------------------------ decode_braille

  /** number_mode and capital_next of decode_braille. */
  datatype DecState = DecState(numberMode: bool, capitalNext: bool)

  const DecStart: DecState := DecState(false, false)

  /** Text written for a stretch of symbols and the state after it. */
  datatype Decoded = Decoded(out: string, next: DecState)

  /** One symbol of decode_braille: a break writes a newline and clears both
      modes; the number and capital signs set their mode; any other cell is
      read with the current modes, clears the capital mode, and clears number
      mode unless it read a digit or a space. The corrected codec also takes
      the letter sign as the end of number mode. */
  function DecodeSym(st: DecState, x: Sym, fixed: bool): Decoded {
    match x
    case Break => Decoded("\n", DecStart)
    case Dots(p) =>
      if p == NumberSign then Decoded("", st.(numberMode := true))
      else if p == CapitalSign then Decoded("", st.(capitalNext := true))
      else if fixed && p == LetterSign then Decoded("", st.(numberMode := false))
      else
        var d := BrailleToChar(p, st.numberMode, st.capitalNext);
        Decoded([d], DecState(st.numberMode && (IsDigit(d) || d == ' '), false))
  }

  function DecodeRun(st: DecState, syms: seq<Sym>, fixed: bool): Decoded
    decreases |syms|
  {
    if |syms| == 0 then Decoded("", st)
    else
      var h := DecodeSym(st, syms[0], fixed);
      var t := DecodeRun(h.next, syms[1..], fixed);
      Decoded(h.out + t.out, t.next)
  }

  /** The symbols the Unicode reader sees: a newline is a break, a character
      of the braille block a cell, and anything else is ignored. */
  function UnicodeLex(s: string): seq<Sym>
    decreases |s|
  {
    if |s| == 0 then []
    else
      (if s[0] == '\n' then [Break]
       else if BrailleBase <= s[0] as int < BrailleBase + 64 then [Dots(s[0] as int - BrailleBase)]
       else [])
      + UnicodeLex(s[1..])
  }

  /** The symbols the text-mode reader sees: 'o' and '.' are gathered six at
      a time into a cell; a newline is a break and drops the dots gathered so
      far (there are never six of them: the buffer is emptied as soon as it
      fills); anything else is ignored. */
  function TextLex(pending: string, s: string): seq<Sym>
    requires |pending| < 6
    decreases |s|
  {
    if |s| == 0 then []
    else if s[0] == '\n' then [Break] + TextLex("", s[1..])
    else if s[0] == 'o' || s[0] == '.' then
      var buf := pending + [s[0]];
      if |buf| == 6 then [Dots(TextToPattern(buf))] + TextLex("", s[1..])
      else TextLex(buf, s[1..])
    else TextLex(pending, s[1..])
  }

  /** decode_braille: the decoded text, then a final newline. The tool as
      written is fixed == false. */
  function Decode(s: string, textMode: bool, fixed: bool): (r: string)
    ensures |r| > 0 && r[|r| - 1] == '\n'
  {
    var syms := if textMode then TextLex("", s) else UnicodeLex(s);
    DecodeRun(DecStart, syms, fixed).out + "\n"
  }

  // ------------------------------------------------------ reading back what was written

  lemma {:induction false} UnicodeLexRender(syms: seq<Sym>, rest: string)
    ensures UnicodeLex(Render(syms, false) + rest) == syms + UnicodeLex(rest)
    decreases |syms|
  {
    if |syms| == 0 {
      assert Render(syms, false) + rest == rest;
    } else {
      var h := SymText(syms[0], false);
      var tail := Render(syms[1..], false) + rest;
      ConcatAssoc(h, Render(syms[1..], false), rest);
      assert Render(syms, false) + rest == h + tail;
      assert (h + tail)[1..] == tail;
      UnicodeLexRender(syms[1..], rest);
      assert UnicodeLex(h + tail) == [syms[0]] + UnicodeLex(tail);
      ConcatAssoc([syms[0]], syms[1..], UnicodeLex(rest));
      assert [syms[0]] + syms[1..] == syms;
    }
  }

  /** The dots of one cell, read after the dots pending in the buffer. */
  lemma {:induction false} TextLexCell(pending: string, x: string, rest: string)
    requires |pending| < 6 && |pending| + |x| == 6 && IsDots(x)
    ensures TextLex(pending, x + rest) == [Dots(TextToPattern(pending + x))] + TextLex("", rest)
    decreases |x|
  {
    var buf := pending + [x[0]];
    assert (x + rest)[0] == x[0];
    assert (x + rest)[1..] == x[1..] + rest;
    if |buf| == 6 {
      assert x == [x[0]];
      assert x[1..] + rest == rest;
    } else {
      TextLexCell(buf, x[1..], rest);
      assert buf + x[1..] == pending + x;
    }
  }

  lemma {:induction false} TextLexRender(syms: seq<Sym>, rest: string)
    ensures TextLex("", Render(syms, true) + rest) == syms + TextLex("", rest)
    decreases |syms|
  {
    if |syms| == 0 {
      assert Render(syms, true) + rest == rest;
    } else {
      var h := SymText(syms[0], true);
      var tail := Render(syms[1..], true) + rest;
      ConcatAssoc(h, Render(syms[1..], true), rest);
      assert Render(syms, true) + rest == h + tail;
      TextLexRender(syms[1..], rest);
      match syms[0]
      case Break =>
        assert (h + tail)[1..] == tail;
      case Dots(p) =>
        TextLexCell("", h, tail);
        assert "" + h == h;
        PatternTextRoundTrip(p);
      ConcatAssoc([syms[0]], syms[1..], TextLex("", rest));
      assert [syms[0]] + syms[1..] == syms;
    }
  }

  /** The reader of either mode gives back the symbols the writer rendered. */
  lemma LexRender(syms: seq<Sym>, textMode: bool)
    ensures (if textMode then TextLex("", Render(syms, true) + "\n")
             else UnicodeLex(Render(syms, false) + "\n")) == syms + [Break]
  {
    if textMode {
      TextLexRender(syms, "\n");
      assert TextLex("", "\n") == [Break] + TextLex("", "");
    } else {
      UnicodeLexRender(syms, "\n");
      assert UnicodeLex("\n") == [Break] + UnicodeLex("");
    }
  }

  lemma {:induction false} DecodeRunAppend(st: DecState, a: seq<Sym>, b: seq<Sym>, fixed: bool)
    ensures var ra := DecodeRun(st, a, fixed);
            var rb := DecodeRun(ra.next, b, fixed);
            DecodeRun(st, a + b, fixed) == Decoded(ra.out + rb.out, rb.next)
    decreases |a|
  {
    if |a| == 0 {
      assert a + b == b;
    } else {
      assert (a + b)[0] == a[0];
      assert (a + b)[1..] == a[1..] + b;
      var h := DecodeSym(st, a[0], fixed);
      DecodeRunAppend(h.next, a[1..], b, fixed);
      var ra := DecodeRun(h.next, a[1..], fixed);
      var rb := DecodeRun(ra.next, b, fixed);
      ConcatAssoc(h.out, ra.out, rb.out);
    }
  }

  /** Decoding what the encoder wrote is decoding the encoder's symbols,
      plus the two final newlines. */
  lemma CodecThroughSymbols(s: string, textMode: bool, fixed: bool)
    ensures Decode(Encode(s, textMode, fixed), textMode, fixed)
            == DecodeRun(DecStart, EncodeRun(false, s, fixed), fixed).out + "\n\n"
  {
    var syms := EncodeRun(false, s, fixed);
    LexRender(syms, textMode);
    DecodeRunAppend(DecStart, syms, [Break], fixed);
    var r := DecodeRun(DecStart, syms, fixed);
    assert DecodeRun(r.next, [Break], fixed).out == "\n";
    ConcatAssoc(r.out, "\n", "\n");
  }

  // ------------------------------------------------------ the round trip

  /** What a reader of the braille recovers from one input character,
      defined without the table: a newline is kept, an unsupported character
      is dropped, ')' comes back as '(' and every other supported character
      as itself, case included. */
  function NormalOf(c: char): string {
    if c == '\n' then "\n" else if Supported(c) then [Shown(c)] else ""
  }

  function Normalize(s: string): string
    decreases |s|
  {
    if |s| == 0 then "" else NormalOf(s[0]) + Normalize(s[1..])
  }

  /** Whether some letter A to J of s (either case) follows a digit on the
      same line with nothing but spaces and unsupported characters between;
      open says a digit has been seen in that way before s. */
  predicate LetterAfterDigits(open: bool, s: string)
    decreases |s|
  {
    if |s| == 0 then false
    else
      var c := s[0];
      if c == '\n' then LetterAfterDigits(false, s[1..])
      else if !Supported(c) then LetterAfterDigits(open, s[1..])
      else if open && LetterAJ(c) then true
      else LetterAfterDigits(if IsDigit(c) then true else if c == ' ' then open else false, s[1..])
  }

  lemma DecodeLetter(numberMode: bool, c: char, fixed: bool)
    requires IsAlpha(c) && (fixed || !(numberMode && LetterAJ(c)))
    ensures var e := EncodeChar(numberMode, c, fixed);
            DecodeRun(DecState(numberMode, false), e.syms, fixed) == Decoded([c], DecState(e.numberMode, false))
  {
    var m := numberMode && !LetterAJ(c);
    ReadLetter(c, m);
    var p := CharToBraille(c).value;
    var e := EncodeChar(numberMode, c, fixed);
    var lead := if fixed && numberMode && LetterAJ(c) then [Dots(LetterSign)] else [];
    var capital := if IsUpper(c) then [Dots(CapitalSign)] else [];
    assert e.syms == lead + capital + [Dots(p)];
    ConcatAssoc(lead, capital, [Dots(p)]);
    DecodeRunAppend(DecState(numberMode, false), lead, capital + [Dots(p)], fixed);
    assert DecodeRun(DecState(numberMode, false), lead, fixed) == Decoded("", DecState(m, false));
    DecodeCapitalLetter(m, c, p, fixed);
  }

  lemma DecodeCapitalLetter(m: bool, c: char, p: Cell, fixed: bool)
    requires p !in {CapitalSign, NumberSign, LetterSign}
    requires BrailleToChar(p, m, IsUpper(c)) == c && IsAlpha(c)
    ensures var capital := if IsUpper(c) then [Dots(CapitalSign)] else [];
            DecodeRun(DecState(m, false), capital + [Dots(p)], fixed) == Decoded([c], DecState(false, false))
  {
    var capital := if IsUpper(c) then [Dots(CapitalSign)] else [];
    DecodeRunAppend(DecState(m, false), capital, [Dots(p)], fixed);
    assert DecodeRun(DecState(m, false), capital, fixed) == Decoded("", DecState(m, IsUpper(c)));
    assert DecodeRun(DecState(m, IsUpper(c)), [Dots(p)], fixed) == Decoded([c], DecState(false, false));
  }

  lemma DecodeDigit(numberMode: bool, c: char, fixed: bool)
    requires IsDigit(c)
    ensures var e := EncodeChar(numberMode, c, fixed);
            DecodeRun(DecState(numberMode, false), e.syms, fixed) == Decoded([c], DecState(e.numberMode, false))
  {
    ReadDigit(c, false);
    var p := CharToBraille(c).value;
    var e := EncodeChar(numberMode, c, fixed);
    var lead := if !numberMode then [Dots(NumberSign)] else [];
    assert e.syms == lead + [] + [Dots(p)];
    assert lead + [] == lead;
    DecodeRunAppend(DecState(numberMode, false), lead, [Dots(p)], fixed);
    assert DecodeRun(DecState(numberMode, false), lead, fixed) == Decoded("", DecState(true, false));
    assert DecodeRun(DecState(true, false), [Dots(p)], fixed) == Decoded([c], DecState(true, false));
  }

  lemma DecodeMark(numberMode: bool, c: char, fixed: bool)
    requires IsMark(c)
    ensures var e := EncodeChar(numberMode, c, fixed);
            DecodeRun(DecState(numberMode, false), e.syms, fixed) == Decoded([Shown(c)], DecState(e.numberMode, false))
  {
    ReadMark(c, numberMode);
    var p := CharToBraille(c).value;
    var e := EncodeChar(numberMode, c, fixed);
    assert e.syms == [] + [] + [Dots(p)] == [Dots(p)];
  }

  /** The symbols written for one character decode to what a reader should
      recover from it, and leave the decoder in the encoder's number mode
      with no capital pending, unless the character is a letter A to J that
      the tool as written lets the decoder still read in number mode. */
  lemma DecodeEncodedChar(numberMode: bool, c: char, fixed: bool)
    requires fixed || !(numberMode && LetterAJ(c))
    ensures var e := EncodeChar(numberMode, c, fixed);
            DecodeRun(DecState(numberMode, false), e.syms, fixed) == Decoded(NormalOf(c), DecState(e.numberMode, false))
  {
    SupportedIff(c);
    if c == '\n' {
    } else if IsAlpha(c) {
      DecodeLetter(numberMode, c, fixed);
    } else if IsDigit(c) {
      DecodeDigit(numberMode, c, fixed);
    } else if IsMark(c) {
      DecodeMark(numberMode, c, fixed);
    }
  }

  lemma {:induction false} RoundTripFrom(numberMode: bool, s: string, fixed: bool)
    requires fixed || !LetterAfterDigits(numberMode, s)
    ensures DecodeRun(DecState(numberMode, false), EncodeRun(numberMode, s, fixed), fixed).out == Normalize(s)
    decreases |s|
  {
    if |s| > 0 {
      var c := s[0];
      SupportedIff(c);
      var e := EncodeChar(numberMode, c, fixed);
      DecodeEncodedChar(numberMode, c, fixed);
      RoundTripFrom(e.numberMode, s[1..], fixed);
      DecodeRunAppend(DecState(numberMode, false), e.syms, EncodeRun(e.numberMode, s[1..], fixed), fixed);
    }
  }

  /** The corrected codec gives back every input, in either mode, up to
      unsupported characters and ')' read as '(', followed by the two
      newlines that encoder and decoder each add at the end. */
  lemma RoundTrip(s: string, textMode: bool)
    ensures Decode(Encode(s, textMode, true), textMode, true) == Normalize(s) + "\n\n"
  {
    CodecThroughSymbols(s, textMode, true);
    RoundTripFrom(false, s, true);
  }

  /** The tool as written gives the same round trip, but only for text in
      which no letter A to J follows a run of digits. */
  lemma RoundTripAsWritten(s: string, textMode: bool)
    requires !LetterAfterDigits(false, s)
    ensures Decode(Encode(s, textMode, false), textMode, false) == Normalize(s) + "\n\n"
  {
    CodecThroughSymbols(s, textMode, false);
    RoundTripFrom(false, s, false);
  }

  /** The symbols the encoder writes for "1a". */
  lemma EncodeDigitLetter()
    ensures CharToBraille('1').Some? && CharToBraille('a').Some?
    ensures EncodeRun(false, "1a", false)
            == [Dots(NumberSign), Dots(CharToBraille('1').value), Dots(CharToBraille('a').value)]
  {
    assert "1a"[1..] == "a" && "a"[1..] == "";
    ReadDigit('1', false);
    ReadLetterAsDigit('a', false);
    var p1 := CharToBraille('1').value;
    var pa := CharToBraille('a').value;
    assert EncodeChar(false, '1', false) == EncStep([Dots(NumberSign), Dots(p1)], true);
    assert EncodeChar(true, 'a', false) == EncStep([Dots(pa)], false);
    assert EncodeRun(true, "a", false) == [Dots(pa)];
  }

  /** The decoder reads those symbols as "11". */
  lemma DecodeDigitLetter()
    ensures CharToBraille('1').Some? && CharToBraille('a').Some?
    ensures DecodeRun(DecStart, [Dots(NumberSign), Dots(CharToBraille('1').value), Dots(CharToBraille('a').value)], false).out
            == "11"
  {
    ReadDigit('1', false);
    ReadLetterAsDigit('a', false);
    var p1 := CharToBraille('1').value;
    var pa := CharToBraille('a').value;
    var st := DecState(true, false);
    assert DecodeRun(st, [Dots(pa)], false) == Decoded("1", st);
    assert [Dots(p1), Dots(pa)][1..] == [Dots(pa)];
    assert DecodeRun(st, [Dots(p1), Dots(pa)], false) == Decoded("11", st);
    assert [Dots(NumberSign), Dots(p1), Dots(pa)][1..] == [Dots(p1), Dots(pa)];
  }

  /** As written, "1a" comes back as "11": the encoder leaves number mode at
      the 'a' without writing anything the decoder could see, so the decoder
      reads the cell of 'a', which is that of '1', as a digit. */
  lemma DigitThenLetterMisread(textMode: bool)
    ensures LetterAfterDigits(false, "1a")
    ensures Normalize("1a") == "1a"
    ensures Decode(Encode("1a", textMode, false), textMode, false) == "11\n\n"
  {
    MisreadInput();
    EncodeDigitLetter();
    DecodeDigitLetter();
    CodecThroughSymbols("1a", textMode, false);
  }

  /** "1a" puts a letter A to J after a digit, and reading it back is
      meant to give it unchanged. */
  lemma MisreadInput()
    ensures LetterAfterDigits(false, "1a")
    ensures Normalize("1a") == "1a"
  {
    assert "1a"[1..] == "a" && "a"[1..] == "";
    assert Normalize("a") == "a";
  }
}
