/** The dancing-men cipher: every letter drawn as a stick figure, either in
    three lines or in a compact one-line form, and drawings read back to
    letters by exact comparison with the table. */
module DancingMan {
  import opened CType
  import opened Optional
  import opened CStrings

  /** A letter and the lines of its figure; the tool keeps each figure as
      one string, its lines joined by newlines. */
  datatype Entry = Entry(letter: char, lines: seq<string>)

  function Figure(e: Entry): string {
    Join(e.lines, '\n')
  }

  // The full table: every figure is a head, a body and a pair of legs.

  // dancing_man.c lines 18-23
  const PosesAF: seq<Entry> :=
    [Entry('A', [" O ", "/|\\", "/ \\"]),
     Entry('B', [" O ", "/||", "/ \\"]),
     Entry('C', [" O ", "/| ", "/ \\"]),
     Entry('D', [" O ", " |||", "/ \\"]),
     Entry('E', [" O ", "/|_", "/ \\"]),
     Entry('F', [" O ", "/|_", "/  "])]

  // dancing_man.c lines 24-29
  const PosesGL: seq<Entry> :=
    [Entry('G', [" O ", "/|+", "/ \\"]),
     Entry('H', [" O ", "||||", "/ \\"]),
     Entry('I', [" O ", " | ", "/ \\"]),
     Entry('J', [" O ", "  |", "/ \\"]),
     Entry('K', [" O ", "/|<", "/ \\"]),
     Entry('L', [" O ", "/| ", "/_\\"])]

  // dancing_man.c lines 30-35
  const PosesMR: seq<Entry> :=
    [Entry('M', [" O ", "/|\\\\", "/ \\"]),
     Entry('N', [" O ", "/|/", "/ \\"]),
     Entry('O', [" O ", "/O\\", "/ \\"]),
     Entry('P', [" O ", "/|^", "/ \\"]),
     Entry('Q', [" O ", "/O\\", "/_\\"]),
     Entry('R', [" O ", "/|>", "/ \\"])]

  // dancing_man.c lines 36-41
  const PosesSX: seq<Entry> :=
    [Entry('S', [" O ", "/|~", "/ \\"]),
     Entry('T', [" O ", "-|-", "/ \\"]),
     Entry('U', [" O ", "/||", "\\_/"]),
     Entry('V', [" O ", "/|\\", " \\ "]),
     Entry('W', [" O ", "/|\\\\", "\\ /"]),
     Entry('X', [" O ", "<|>", "/ \\"])]

  // dancing_man.c lines 42-43
  const PosesYZ: seq<Entry> :=
    [Entry('Y', [" O ", "\\|/", " | "]),
     Entry('Z', [" O ", "/|/", "/_\\"])]

  // The compact table: one line per figure, several letters sharing one.

  // dancing_man.c lines 49-54
  const CompactAF: seq<Entry> :=
    [Entry('A', ["O/|\\"]),
     Entry('B', ["O/||"]),
     Entry('C', ["O/|_"]),
     Entry('D', ["O|||"]),
     Entry('E', ["O/|_"]),
     Entry('F', ["O/|^"])]

  // dancing_man.c lines 55-60
  const CompactGL: seq<Entry> :=
    [Entry('G', ["O/|+"]),
     Entry('H', ["O||||"]),
     Entry('I', ["O_|_"]),
     Entry('J', ["O__|"]),
     Entry('K', ["O/|<"]),
     Entry('L', ["O/|_"])]

  // dancing_man.c lines 61-66
  const CompactMR: seq<Entry> :=
    [Entry('M', ["O/|\\\\"]),
     Entry('N', ["O/|/"]),
     Entry('O', ["O/O\\"]),
     Entry('P', ["O/|^"]),
     Entry('Q', ["O/O\\"]),
     Entry('R', ["O/|>"])]

  // dancing_man.c lines 67-72
  const CompactSX: seq<Entry> :=
    [Entry('S', ["O/|~"]),
     Entry('T', ["O-|-"]),
     Entry('U', ["O/||"]),
     Entry('V', ["O/|\\"]),
     Entry('W', ["O/|\\\\"]),
     Entry('X', ["O<|>"])]

  // dancing_man.c lines 73-74
  const CompactYZ: seq<Entry> :=
    [Entry('Y', ["O\\|/"]),
     Entry('Z', ["O/|/"])]

  const Poses: seq<Entry> := PosesAF + PosesGL + PosesMR + PosesSX + PosesYZ

  const Compact: seq<Entry> := CompactAF + CompactGL + CompactMR + CompactSX + CompactYZ

  /** compact_mode picks the table both lookups scan. */
  function TableFor(compact: bool): seq<Entry> {
    if compact then Compact else Poses
  }

  const Newline: set<char> := {'\n'}

  /** The delimiters of the compact decoder's tokens. */
  const Blanks: set<char> := {' ', '\n'}

  /** The decoder reads at most this many characters. */
  const MaxInput: nat := 4095

  // ------------------------------------------------------ figure keys

  /** The characters the figures are drawn with, numbered. */
  function Glyph(c: char): nat {
    match c
    case ' ' => 1
    case '/' => 2
    case '|' => 3
    case '\\' => 4
    case '_' => 5
    case '+' => 6
    case '<' => 7
    case '>' => 8
    case '^' => 9
    case '~' => 10
    case '-' => 11
    case 'O' => 12
    case _ => 0
  }

  /** A number read off a full figure's body and legs; equal lines give
      equal keys. */
  function FullKey(lines: seq<string>): nat {
    if |lines| != 3 || |lines[1]| < 3 || |lines[2]| < 3 then 0
    else
      var b, g := lines[1], lines[2];
      (((((|b| * 13 + Glyph(b[0])) * 13 + Glyph(b[1])) * 13 + Glyph(b[2])) * 13
        + Glyph(g[0])) * 13 + Glyph(g[1])) * 13 + Glyph(g[2])
  }

  /** A number read off a compact figure. */
  function CompactKey(lines: seq<string>): nat {
    if |lines| != 1 || |lines[0]| < 4 then 0
    else
      var f := lines[0];
      ((|f| * 13 + Glyph(f[1])) * 13 + Glyph(f[2])) * 13 + Glyph(f[3])
  }

  /** The index of the full figure with a given key, -1 for none. */
  function FullIndex(key: nat): int {
    match key
    case 15317839 => 0
    case 15315642 => 1
    case 15311248 => 2
    case 19771158 => 3
    case 15320036 => 4
    case 15320033 => 5
    case 15322233 => 6
    case 20513744 => 7
    case 14939955 => 8
    case 14887227 => 9
    case 15324430 => 10
    case 15311300 => 11
    case 20144648 => 12
    case 15313445 => 13
    case 15574888 => 14
    case 15328824 => 15
    case 15574940 => 16
    case 15326627 => 17
    case 15331021 => 18
    case 18674855 => 19
    case 15316030 => 20
    case 15317706 => 21
    case 20144984 => 22
    case 17183092 => 23
    case 16055885 => 24
    case 15313497 => 25
    case _ => -1
  }
  /** The index of the first compact figure with a given key, -1 for none. */
  function CompactIndex(key: nat): int {
    match key
    case 9169 => 0
    case 9168 => 1
    case 9170 => 2
    case 9337 => 3
    case 9174 => 5
    case 9171 => 6
    case 11534 => 7
    case 9677 => 8
    case 9701 => 9
    case 9172 => 10
    case 11366 => 12
    case 9167 => 13
    case 9286 => 14
    case 9173 => 17
    case 9175 => 18
    case 10697 => 19
    case 10018 => 23
    case 9505 => 24
    case _ => -1
  }

  /** The index of the first letter whose compact figure is the figure of
      the letter at index k: V is drawn as A, U as B, E and L as C, P as F,
      W as M, Z as N and Q as O. */
  function CanonIndex(k: int): int {
    match k
    case 21 => 0
    case 20 => 1
    case 4 => 2
    case 11 => 2
    case 15 => 5
    case 22 => 12
    case 25 => 13
    case 16 => 14
    case _ => k
  }

  /** The letter a compact figure reads back as. */
  function Canon(c: char): char {
    if IsUpper(c) then ('A' as int + CanonIndex(c as int - 'A' as int)) as char else c
  }

  /** A line of a figure: not empty, no newline, no bracket (so never a
      marker) and no NUL. */
  predicate Drawn(w: string) {
    w != "" && Free(w, Newline) && '[' !in w && '\0' !in w
  }

  /** The full table's entry k draws the k-th letter in three lines of
      three or four characters. */
  predicate FullDrawn(e: Entry, k: int) {
    && e.letter as int == 'A' as int + k
    && |e.lines| == 3
    && (forall j | 0 <= j < 3 :: Drawn(e.lines[j]) && 3 <= |e.lines[j]| <= 4)
  }

  /** ... and its key leads back to k. */
  predicate FullEntry(e: Entry, k: int) {
    FullDrawn(e, k) && FullIndex(FullKey(e.lines)) == k
  }

  /** The compact table's entry k draws the k-th letter in one line with
      no blank. */
  predicate CompactDrawn(e: Entry, k: int) {
    && e.letter as int == 'A' as int + k
    && |e.lines| == 1
    && Drawn(e.lines[0]) && Free(e.lines[0], Blanks)
  }

  /** ... and its key leads to the first entry drawn the same. */
  predicate CompactEntry(e: Entry, k: int) {
    CompactDrawn(e, k) && CompactIndex(CompactKey(e.lines)) == CanonIndex(k)
  }

  predicate PosesFrom(part: seq<Entry>, base: int) {
    forall i | 0 <= i < |part| :: FullEntry(part[i], base + i)
  }

  predicate CompactFrom(part: seq<Entry>, base: int) {
    forall i | 0 <= i < |part| :: CompactEntry(part[i], base + i)
  }

  lemma PosesAFDrawn()
    ensures forall i | 0 <= i < |PosesAF| :: FullDrawn(PosesAF[i], 0 + i)
  {
  }

  lemma PosesAFKeys()
    ensures forall i | 0 <= i < |PosesAF| :: FullIndex(FullKey(PosesAF[i].lines)) == 0 + i
  {
    assert FullIndex(FullKey(PosesAF[0].lines)) == 0;
    assert FullIndex(FullKey(PosesAF[1].lines)) == 1;
    assert FullIndex(FullKey(PosesAF[2].lines)) == 2;
    assert FullIndex(FullKey(PosesAF[3].lines)) == 3;
    assert FullIndex(FullKey(PosesAF[4].lines)) == 4;
    assert FullIndex(FullKey(PosesAF[5].lines)) == 5;
  }

  lemma PosesGLDrawn()
    ensures forall i | 0 <= i < |PosesGL| :: FullDrawn(PosesGL[i], 6 + i)
  {
  }

  lemma PosesGLKeys()
    ensures forall i | 0 <= i < |PosesGL| :: FullIndex(FullKey(PosesGL[i].lines)) == 6 + i
  {
    assert FullIndex(FullKey(PosesGL[0].lines)) == 6;
    assert FullIndex(FullKey(PosesGL[1].lines)) == 7;
    assert FullIndex(FullKey(PosesGL[2].lines)) == 8;
    assert FullIndex(FullKey(PosesGL[3].lines)) == 9;
    assert FullIndex(FullKey(PosesGL[4].lines)) == 10;
    assert FullIndex(FullKey(PosesGL[5].lines)) == 11;
  }

  lemma PosesMRDrawn()
    ensures forall i | 0 <= i < |PosesMR| :: FullDrawn(PosesMR[i], 12 + i)
  {
  }

  lemma PosesMRKeys()
    ensures forall i | 0 <= i < |PosesMR| :: FullIndex(FullKey(PosesMR[i].lines)) == 12 + i
  {
    assert FullIndex(FullKey(PosesMR[0].lines)) == 12;
    assert FullIndex(FullKey(PosesMR[1].lines)) == 13;
    assert FullIndex(FullKey(PosesMR[2].lines)) == 14;
    assert FullIndex(FullKey(PosesMR[3].lines)) == 15;
    assert FullIndex(FullKey(PosesMR[4].lines)) == 16;
    assert FullIndex(FullKey(PosesMR[5].lines)) == 17;
  }

  lemma PosesSXDrawn()
    ensures forall i | 0 <= i < |PosesSX| :: FullDrawn(PosesSX[i], 18 + i)
  {
  }

  lemma PosesSXKeys()
    ensures forall i | 0 <= i < |PosesSX| :: FullIndex(FullKey(PosesSX[i].lines)) == 18 + i
  {
    assert FullIndex(FullKey(PosesSX[0].lines)) == 18;
    assert FullIndex(FullKey(PosesSX[1].lines)) == 19;
    assert FullIndex(FullKey(PosesSX[2].lines)) == 20;
    assert FullIndex(FullKey(PosesSX[3].lines)) == 21;
    assert FullIndex(FullKey(PosesSX[4].lines)) == 22;
    assert FullIndex(FullKey(PosesSX[5].lines)) == 23;
  }

  lemma PosesYZDrawn()
    ensures forall i | 0 <= i < |PosesYZ| :: FullDrawn(PosesYZ[i], 24 + i)
  {
  }

  lemma PosesYZKeys()
    ensures forall i | 0 <= i < |PosesYZ| :: FullIndex(FullKey(PosesYZ[i].lines)) == 24 + i
  {
    assert FullIndex(FullKey(PosesYZ[0].lines)) == 24;
    assert FullIndex(FullKey(PosesYZ[1].lines)) == 25;
  }

  lemma CompactAFDrawn()
    ensures forall i | 0 <= i < |CompactAF| :: CompactDrawn(CompactAF[i], 0 + i)
  {
  }

  lemma CompactAFKeys()
    ensures forall i | 0 <= i < |CompactAF| :: CompactIndex(CompactKey(CompactAF[i].lines)) == CanonIndex(0 + i)
  {
    assert CompactIndex(CompactKey(CompactAF[0].lines)) == 0;
    assert CompactIndex(CompactKey(CompactAF[1].lines)) == 1;
    assert CompactIndex(CompactKey(CompactAF[2].lines)) == 2;
    assert CompactIndex(CompactKey(CompactAF[3].lines)) == 3;
    assert CompactIndex(CompactKey(CompactAF[4].lines)) == 2;
    assert CompactIndex(CompactKey(CompactAF[5].lines)) == 5;
  }

  lemma CompactGLDrawn()
    ensures forall i | 0 <= i < |CompactGL| :: CompactDrawn(CompactGL[i], 6 + i)
  {
  }

  lemma CompactGLKeys()
    ensures forall i | 0 <= i < |CompactGL| :: CompactIndex(CompactKey(CompactGL[i].lines)) == CanonIndex(6 + i)
  {
    assert CompactIndex(CompactKey(CompactGL[0].lines)) == 6;
    assert CompactIndex(CompactKey(CompactGL[1].lines)) == 7;
    assert CompactIndex(CompactKey(CompactGL[2].lines)) == 8;
    assert CompactIndex(CompactKey(CompactGL[3].lines)) == 9;
    assert CompactIndex(CompactKey(CompactGL[4].lines)) == 10;
    assert CompactIndex(CompactKey(CompactGL[5].lines)) == 2;
  }

  lemma CompactMRDrawn()
    ensures forall i | 0 <= i < |CompactMR| :: CompactDrawn(CompactMR[i], 12 + i)
  {
  }

  lemma CompactMRKeys()
    ensures forall i | 0 <= i < |CompactMR| :: CompactIndex(CompactKey(CompactMR[i].lines)) == CanonIndex(12 + i)
  {
    assert CompactIndex(CompactKey(CompactMR[0].lines)) == 12;
    assert CompactIndex(CompactKey(CompactMR[1].lines)) == 13;
    assert CompactIndex(CompactKey(CompactMR[2].lines)) == 14;
    assert CompactIndex(CompactKey(CompactMR[3].lines)) == 5;
    assert CompactIndex(CompactKey(CompactMR[4].lines)) == 14;
    assert CompactIndex(CompactKey(CompactMR[5].lines)) == 17;
  }

  lemma CompactSXDrawn()
    ensures forall i | 0 <= i < |CompactSX| :: CompactDrawn(CompactSX[i], 18 + i)
  {
  }

  lemma CompactSXKeys()
    ensures forall i | 0 <= i < |CompactSX| :: CompactIndex(CompactKey(CompactSX[i].lines)) == CanonIndex(18 + i)
  {
    assert CompactIndex(CompactKey(CompactSX[0].lines)) == 18;
    assert CompactIndex(CompactKey(CompactSX[1].lines)) == 19;
    assert CompactIndex(CompactKey(CompactSX[2].lines)) == 1;
    assert CompactIndex(CompactKey(CompactSX[3].lines)) == 0;
    assert CompactIndex(CompactKey(CompactSX[4].lines)) == 12;
    assert CompactIndex(CompactKey(CompactSX[5].lines)) == 23;
  }

  lemma CompactYZDrawn()
    ensures forall i | 0 <= i < |CompactYZ| :: CompactDrawn(CompactYZ[i], 24 + i)
  {
  }

  lemma CompactYZKeys()
    ensures forall i | 0 <= i < |CompactYZ| :: CompactIndex(CompactKey(CompactYZ[i].lines)) == CanonIndex(24 + i)
  {
    assert CompactIndex(CompactKey(CompactYZ[0].lines)) == 24;
    assert CompactIndex(CompactKey(CompactYZ[1].lines)) == 13;
  }

  /** Entry k of a table laid out as rows of 6, 6, 6, 6 and 2 letters. */
  lemma RowIndex(af: seq<Entry>, gl: seq<Entry>, mr: seq<Entry>, sx: seq<Entry>, yz: seq<Entry>, k: int)
    requires |af| == 6 && |gl| == 6 && |mr| == 6 && |sx| == 6 && |yz| == 2 && 0 <= k < 26
    ensures |af + gl + mr + sx + yz| == 26
    ensures (af + gl + mr + sx + yz)[k] ==
              if k < 6 then af[k] else if k < 12 then gl[k - 6] else if k < 18 then mr[k - 12]
              else if k < 24 then sx[k - 18] else yz[k - 24]
  {
  }

  lemma PosesAFRow()
    ensures PosesFrom(PosesAF, 0)
  {
    PosesAFDrawn();
    PosesAFKeys();
  }

  lemma PosesGLRow()
    ensures PosesFrom(PosesGL, 6)
  {
    PosesGLDrawn();
    PosesGLKeys();
  }

  lemma PosesMRRow()
    ensures PosesFrom(PosesMR, 12)
  {
    PosesMRDrawn();
    PosesMRKeys();
  }

  lemma PosesSXRow()
    ensures PosesFrom(PosesSX, 18)
  {
    PosesSXDrawn();
    PosesSXKeys();
  }

  lemma PosesYZRow()
    ensures PosesFrom(PosesYZ, 24)
  {
    PosesYZDrawn();
    PosesYZKeys();
  }

  lemma CompactAFRow()
    ensures CompactFrom(CompactAF, 0)
  {
    CompactAFDrawn();
    CompactAFKeys();
  }

  lemma CompactGLRow()
    ensures CompactFrom(CompactGL, 6)
  {
    CompactGLDrawn();
    CompactGLKeys();
  }

  lemma CompactMRRow()
    ensures CompactFrom(CompactMR, 12)
  {
    CompactMRDrawn();
    CompactMRKeys();
  }

  lemma CompactSXRow()
    ensures CompactFrom(CompactSX, 18)
  {
    CompactSXDrawn();
    CompactSXKeys();
  }

  lemma CompactYZRow()
    ensures CompactFrom(CompactYZ, 24)
  {
    CompactYZDrawn();
    CompactYZKeys();
  }

  /** The compact figures of letters that share one are the same line. */
  lemma CompactShared(k: int)
    requires 0 <= k < 26
    ensures 0 <= CanonIndex(k) <= k
    ensures Compact[CanonIndex(k)].lines == Compact[k].lines
  {
    if k == 21 {
      assert Compact[21] == CompactSX[3] && Compact[0] == CompactAF[0];
    } else if k == 20 {
      assert Compact[20] == CompactSX[2] && Compact[1] == CompactAF[1];
    } else if k == 4 {
      assert Compact[4] == CompactAF[4] && Compact[2] == CompactAF[2];
    } else if k == 11 {
      assert Compact[11] == CompactGL[5] && Compact[2] == CompactAF[2];
    } else if k == 15 {
      assert Compact[15] == CompactMR[3] && Compact[5] == CompactAF[5];
    } else if k == 22 {
      assert Compact[22] == CompactSX[4] && Compact[12] == CompactMR[0];
    } else if k == 25 {
      assert Compact[25] == CompactYZ[1] && Compact[13] == CompactMR[1];
    } else if k == 16 {
      assert Compact[16] == CompactMR[4] && Compact[14] == CompactMR[2];
    }
  }

  // ------------------------------------------------------ lookups

  /** The index of the first entry of t from i on for letter c, |t| when
      there is none. */
  function FirstWithLetter(t: seq<Entry>, c: char, i: nat): (r: nat)
    requires i <= |t|
    ensures i <= r <= |t|
    ensures r < |t| ==> t[r].letter == c
    ensures forall j | i <= j < r :: t[j].letter != c
    decreases |t| - i
  {
    if i == |t| || t[i].letter == c then i else FirstWithLetter(t, c, i + 1)
  }

  /** The index of the first entry of t from i on whose figure is f. */
  function FirstWithFigure(t: seq<Entry>, f: string, i: nat): (r: nat)
    requires i <= |t|
    ensures i <= r <= |t|
    ensures r < |t| ==> Figure(t[r]) == f
    ensures forall j | i <= j < r :: Figure(t[j]) != f
    decreases |t| - i
  {
    if i == |t| || Figure(t[i]) == f then i else FirstWithFigure(t, f, i + 1)
  }

  /** find_dancing_man: the figure of the upper-cased character in the
      active table, None when no entry has it. */
  function FindDancingMan(c: char, compact: bool): Option<string> {
    var t := TableFor(compact);
    var i := FirstWithLetter(t, ToUpper(c), 0);
    if i < |t| then Some(Figure(t[i])) else None
  }

  /** find_letter: the letter of the first entry whose figure is exactly f
      (None stands for the 0 the tool returns). */
  function FindLetter(f: string, compact: bool): Option<char> {
    var t := TableFor(compact);
    var i := FirstWithFigure(t, f, 0);
    if i < |t| then Some(t[i].letter) else None
  }

  /** Where a letter sits in the tables. */
  function Place(c: char): int {
    ToUpper(c) as int - 'A' as int
  }

  lemma TableShape(compact: bool)
    ensures |TableFor(compact)| == 26
    ensures forall k | 0 <= k < 26 :: TableFor(compact)[k].letter as int == 'A' as int + k
  {
    forall k | 0 <= k < 26
      ensures TableFor(compact)[k].letter as int == 'A' as int + k
    {
      PoseAt(k);
      CompactEntryAt(k);
    }
    PoseAt(0);
    CompactEntryAt(0);
  }

  /** A figure is found exactly for the letters of either case, and it is
      the figure at the letter's place. */
  lemma FigureLookup(c: char, compact: bool)
    ensures FindDancingMan(c, compact).Some? <==> IsAlpha(c)
    ensures IsAlpha(c) ==> 0 <= Place(c) < |TableFor(compact)|
                           && FindDancingMan(c, compact) == Some(Figure(TableFor(compact)[Place(c)]))
  {
    TableShape(compact);
    var t := TableFor(compact);
    var u := ToUpper(c);
    var i := FirstWithLetter(t, u, 0);
    if IsAlpha(c) {
      assert t[Place(c)].letter == u;
      assert i == Place(c);
    } else {
      assert i == |t|;
    }
  }

  lemma PoseAt(k: int)
    requires 0 <= k < 26
    ensures |Poses| == 26 && FullEntry(Poses[k], k)
  {
    RowIndex(PosesAF, PosesGL, PosesMR, PosesSX, PosesYZ, k);
    if k < 6 {
      PosesAFRow();
    } else if k < 12 {
      PosesGLRow();
    } else if k < 18 {
      PosesMRRow();
    } else if k < 24 {
      PosesSXRow();
    } else {
      PosesYZRow();
    }
  }

  lemma CompactEntryAt(k: int)
    requires 0 <= k < 26
    ensures |Compact| == 26 && CompactEntry(Compact[k], k)
  {
    RowIndex(CompactAF, CompactGL, CompactMR, CompactSX, CompactYZ, k);
    if k < 6 {
      CompactAFRow();
    } else if k < 12 {
      CompactGLRow();
    } else if k < 18 {
      CompactMRRow();
    } else if k < 24 {
      CompactSXRow();
    } else {
      CompactYZRow();
    }
  }

  /** Every full figure reads back as its own letter: no two are drawn
      alike. */
  lemma PoseLetter(k: int)
    requires 0 <= k < 26
    ensures FindLetter(Figure(Poses[k]), false) == Some(Poses[k].letter)
  {
    PoseAt(k);
    var f := Figure(Poses[k]);
    var r := FirstWithFigure(Poses, f, 0);
    assert r <= k;
    PoseAt(r);
    JoinInjective(Poses[r].lines, Poses[k].lines, '\n');
  }

  /** Compact entries drawn alike have the same first entry. */
  lemma SameCompactFigure(a: int, b: int)
    requires 0 <= a < 26 && 0 <= b < 26
    requires Figure(Compact[a]) == Figure(Compact[b])
    ensures CanonIndex(a) == CanonIndex(b)
  {
    CompactEntryAt(a);
    CompactEntryAt(b);
    assert Compact[a].lines == [Compact[a].lines[0]] && Compact[b].lines == [Compact[b].lines[0]];
  }

  /** The first entry drawn as f is at or before any entry drawn as f. */
  lemma FirstFigureBefore(t: seq<Entry>, f: string, j: int)
    requires 0 <= j < |t| && Figure(t[j]) == f
    ensures FirstWithFigure(t, f, 0) <= j && Figure(t[FirstWithFigure(t, f, 0)]) == f
  {
  }

  /** The first compact entry drawn like the one at k is at CanonIndex(k). */
  lemma CompactFirst(k: int)
    requires 0 <= k < 26
    ensures |Compact| == 26 && FirstWithFigure(Compact, Figure(Compact[k]), 0) == CanonIndex(k)
  {
    CompactEntryAt(k);
    CompactShared(k);
    var j := CanonIndex(k);
    var f := Figure(Compact[k]);
    FirstFigureBefore(Compact, f, j);
    var r := FirstWithFigure(Compact, f, 0);
    SameCompactFigure(r, k);
    CompactShared(r);
  }

  /** A compact figure reads back as the first letter drawn like it. */
  lemma CompactLetter(k: int)
    requires 0 <= k < 26
    ensures FindLetter(Figure(Compact[k]), true) == Some(Canon(Compact[k].letter))
  {
    CompactFirst(k);
    CompactEntryAt(k);
    CompactEntryAt(CanonIndex(k));
  }

  /** In compact mode V comes back as A, since its figure is A's. */
  lemma CompactCollision()
    ensures FindDancingMan('v', true).Some?
    ensures FindLetter(FindDancingMan('v', true).value, true) == Some('A')
  {
    FigureLookup('v', true);
    assert Place('v') == 21;
    CompactEntryAt(21);
    CompactLetter(21);
    assert Canon('V') == 'A';
  }

  // ------------------------------------------------------ encode_dancing_man

  const SpaceMark: string := "\n\n[SPACE]\n\n"

  const NewlineMark: string := "\n\n[NEWLINE]\n\n"

  const CompactSpace: string := " [SP] "

  /** The encoding loop: a letter's figure, after a separator unless it is
      the first thing written; a marker for a space, and in full mode for
      a newline; nothing for anything else. */
  function EncodeFrom(s: string, first: bool, compact: bool): string
    decreases |s|
  {
    if |s| == 0 then ""
    else
      var c := s[0];
      if IsAlpha(c) then
        match FindDancingMan(c, compact)
        case Some(f) =>
          (if first then "" else if compact then " " else "\n\n") + f + EncodeFrom(s[1..], false, compact)
        case None => EncodeFrom(s[1..], first, compact)
      else if c == ' ' then
        (if compact then CompactSpace else SpaceMark) + EncodeFrom(s[1..], false, compact)
      else if c == '\n' && !compact then NewlineMark + EncodeFrom(s[1..], false, compact)
      else EncodeFrom(s[1..], first, compact)
  }

  /** encode_dancing_man: full mode ends the output with a newline. */
  function Encode(s: string, compact: bool): string {
    EncodeFrom(s, true, compact) + (if compact then "" else "\n")
  }

  /** What the full encoding keeps: letters, upper-cased, spaces and
      newlines. */
  function FullNormal(s: string): string
    decreases |s|
  {
    if |s| == 0 then ""
    else if IsAlpha(s[0]) then [ToUpper(s[0])] + FullNormal(s[1..])
    else if s[0] == ' ' || s[0] == '\n' then [s[0]] + FullNormal(s[1..])
    else FullNormal(s[1..])
  }

  /** What the compact encoding keeps: letters, as the first letter drawn
      like them, and spaces. */
  function CompactNormal(s: string): string
    decreases |s|
  {
    if |s| == 0 then ""
    else if IsAlpha(s[0]) then [Canon(ToUpper(s[0]))] + CompactNormal(s[1..])
    else if s[0] == ' ' then " " + CompactNormal(s[1..])
    else CompactNormal(s[1..])
  }

  /** A line of a figure holds no NUL, so neither does a figure. */
  lemma {:induction false} JoinAvoids(lines: seq<string>, c: char)
    requires c != '\n'
    requires forall i | 0 <= i < |lines| :: c !in lines[i]
    ensures c !in Join(lines, '\n')
    decreases |lines|
  {
    if |lines| > 1 {
      JoinAvoids(lines[..|lines| - 1], c);
    }
  }

  /** A letter's figure holds no NUL. */
  lemma FigureNoNul(c: char, compact: bool)
    requires IsAlpha(c)
    ensures FindDancingMan(c, compact).Some? && '\0' !in FindDancingMan(c, compact).value
  {
    FigureLookup(c, compact);
    var k := Place(c);
    if compact {
      CompactEntryAt(k);
    } else {
      PoseAt(k);
    }
    JoinAvoids(TableFor(compact)[k].lines, '\0');
  }

  lemma {:induction false} EncodeNoNul(s: string, first: bool, compact: bool)
    ensures '\0' !in EncodeFrom(s, first, compact)
    decreases |s|
  {
    if |s| > 0 {
      EncodeNoNul(s[1..], false, compact);
      EncodeNoNul(s[1..], first, compact);
      if IsAlpha(s[0]) {
        FigureNoNul(s[0], compact);
      }
    }
  }

  // ------------------------------------------------------ decode_dancing_man

  /** The part of the input the decoder sees: at most MaxInput characters,
      up to the first NUL. */
  function Input(s: string): string {
    CStr(if |s| <= MaxInput then s else s[..MaxInput])
  }

  /** A token of the compact decoder: [SP] is a space, a figure its letter,
      anything else nothing. */
  function DecodeToken(tok: string): string {
    if tok == "[SP]" then " "
    else match FindLetter(tok, true)
      case Some(l) => [l]
      case None => ""
  }

  function DecodeTokens(toks: seq<string>): string
    decreases |toks|
  {
    if |toks| == 0 then "" else DecodeToken(toks[0]) + DecodeTokens(toks[1..])
  }

  /** The compact branch of decode_dancing_man. */
  function DecodeCompact(s: string): string {
    DecodeTokens(Strtok(Input(s), Blanks))
  }

  /** strstr(s, p) != NULL. */
  function Contains(s: string, p: string): bool
    decreases |s|
  {
    |p| <= |s| && (s[..|p|] == p || Contains(s[1..], p))
  }

  lemma {:induction false} Avoids(s: string, p: string, c: char)
    requires c in p && c !in s
    ensures !Contains(s, p)
    decreases |s|
  {
    if |p| <= |s| {
      assert s[..|p|] != p by {
        var i :| 0 <= i < |p| && p[i] == c;
        assert s[..|p|][i] == s[i];
      }
      Avoids(s[1..], p, c);
    }
  }

  /** The size of current_figure: 255 characters and the closing NUL. */
  const FigureRoom: nat := 256

  /** The full decoder's state: the text written, the figure being
      gathered, how many lines it has, and whether gathering has ever gone
      past current_figure (a write out of bounds, after which nothing the
      decoder does is defined). */
  datatype Scan = Scan(out: string, figure: string, count: nat, overrun: bool)

  const ScanStart: Scan := Scan("", "", 0, false)

  /** The letter of the gathered figure, when the table has it. */
  function Emit(st: Scan): string {
    match FindLetter(st.figure, false)
    case Some(l) => st.out + [l]
    case None => st.out
  }

  /** One line of the full decoder: an empty line ends the figure, a
      marker line writes a space or a newline, and any other line joins
      the figure. */
  function TakeLine(st: Scan, line: string): Scan {
    if |line| == 0 then (if st.count > 0 then Scan(Emit(st), "", 0, st.overrun) else st)
    else if Contains(line, "[SPACE]") then st.(out := st.out + " ")
    else if Contains(line, "[NEWLINE]") then st.(out := st.out + "\n")
    else
      var f := (if st.count > 0 then st.figure + "\n" else st.figure) + line;
      Scan(st.out, f, st.count + 1, st.overrun || |f| >= FigureRoom)
  }

  function TakeLines(st: Scan, lines: seq<string>): Scan
    decreases |lines|
  {
    if |lines| == 0 then st else TakeLines(TakeLine(st, lines[0]), lines[1..])
  }

  /** After the last line: a figure still being gathered is read. */
  function Finish(st: Scan): string {
    if st.count > 0 then Emit(st) else st.out
  }

  /** The scan of the full branch of decode_dancing_man over its input. As
      written (fixed false) the lines come from strtok, which never returns
      an empty one; fixed reads every line, empty ones included. */
  function Gather(s: string, fixed: bool): Scan {
    var buf := Input(s);
    TakeLines(ScanStart, if fixed then Fields(buf, Newline, "") else Strtok(buf, Newline))
  }

  /** The full branch: None when a figure overran current_figure. */
  function DecodeFull(s: string, fixed: bool): Option<string> {
    var st := Gather(s, fixed);
    if st.overrun then None else Some(Finish(st))
  }

  /** decode_dancing_man: the text written, or None where the source
      writes past current_figure. */
  function Decode(s: string, compact: bool, fixed: bool): Option<string> {
    if compact then Some(DecodeCompact(s)) else DecodeFull(s, fixed)
  }

  /** Input past the first MaxInput characters is never looked at. */
  lemma DecodeReadsPrefix(s: string, more: string, compact: bool, fixed: bool)
    requires |s| >= MaxInput
    ensures Decode(s + more, compact, fixed) == Decode(s, compact, fixed)
  {
    assert (s + more)[..MaxInput] == s[..MaxInput];
    if |s| == MaxInput {
      assert s[..MaxInput] == s;
    }
    assert Input(s + more) == Input(s);
  }

  /** A string with no NUL is its own C string, and the decoder sees all
      of it when it is short enough. */
  lemma InputWhole(s: string)
    requires |s| <= MaxInput && '\0' !in s
    ensures Input(s) == s
  {
    CStrWhole(s);
  }

  // ------------------------------------------------------ compact round trip

  /** The tokens the compact encoding of s splits into: a figure per letter
      and [SP] per space. */
  function CompactTokens(s: string): seq<string>
    decreases |s|
  {
    if |s| == 0 then []
    else if IsAlpha(s[0]) then
      match FindDancingMan(s[0], true)
      case Some(f) => [f] + CompactTokens(s[1..])
      case None => CompactTokens(s[1..])
    else if s[0] == ' ' then ["[SP]"] + CompactTokens(s[1..])
    else CompactTokens(s[1..])
  }

  /** A compact figure is one blank-free line. */
  lemma CompactFigure(c: char)
    requires IsAlpha(c)
    ensures FindDancingMan(c, true).Some?
    ensures var f := FindDancingMan(c, true).value;
            f != "" && Free(f, Blanks) && '[' !in f
    ensures FindLetter(FindDancingMan(c, true).value, true) == Some(Canon(ToUpper(c)))
  {
    FigureLookup(c, true);
    CompactEntryAt(Place(c));
    CompactLetter(Place(c));
  }

  /** The tokens of a figure, with its separator, and what follows it. */
  lemma LetterFields(w: string, e: string, f: string, rest: string, first: bool)
    requires Free(w, Blanks) && (first ==> w == "")
    requires e == (if first then "" else " ") + f + rest
    ensures NonEmpty(Fields(w + e, Blanks, "")) == NonEmpty([w]) + NonEmpty(Fields(f + rest, Blanks, ""))
  {
    if first {
      assert w + e == f + rest;
      OneField(w);
    } else {
      assert w + e == w + [' '] + (f + rest);
      SplitAfter(w, ' ', f + rest, Blanks);
    }
  }

  /** The step of CompactTokensOf at a letter. */
  lemma CompactLetterStep(w: string, s: string, first: bool)
    requires |s| > 0 && IsAlpha(s[0])
    requires first ==> w == ""
    requires Free(w, Blanks)
    ensures FindDancingMan(s[0], true).Some?
    ensures var f := FindDancingMan(s[0], true).value;
            f != "" && Free(f, Blanks) && CompactTokens(s) == [f] + CompactTokens(s[1..]) &&
            NonEmpty(Fields(w + EncodeFrom(s, first, true), Blanks, ""))
            == NonEmpty([w]) + NonEmpty(Fields(f + EncodeFrom(s[1..], false, true), Blanks, ""))
  {
    CompactFigure(s[0]);
    var f := FindDancingMan(s[0], true).value;
    LetterFields(w, EncodeFrom(s, first, true), f, EncodeFrom(s[1..], false, true), first);
  }

  /** The tokens of a space's mark and what follows it. */
  lemma SpaceFields(w: string, e: string, rest: string)
    requires Free(w, Blanks) && e == CompactSpace + rest
    ensures NonEmpty(Fields(w + e, Blanks, "")) == NonEmpty([w]) + ["[SP]"] + NonEmpty(Fields("" + rest, Blanks, ""))
  {
    assert w + e == w + [' '] + ("[SP]" + [' '] + rest);
    assert "" + rest == rest;
    assert Free("[SP]", Blanks);
    SplitTwice(w, ' ', "[SP]", ' ', rest, Blanks);
    OneField("[SP]");
  }

  /** The step of CompactTokensOf at a space. */
  lemma CompactSpaceStep(w: string, s: string, first: bool)
    requires |s| > 0 && s[0] == ' '
    requires Free(w, Blanks)
    ensures NonEmpty(Fields(w + EncodeFrom(s, first, true), Blanks, ""))
            == NonEmpty([w]) + ["[SP]"] + NonEmpty(Fields("" + EncodeFrom(s[1..], false, true), Blanks, ""))
  {
    SpaceFields(w, EncodeFrom(s, first, true), EncodeFrom(s[1..], false, true));
  }

  /** Regrouping the pieces of a split: the step in front, the head it
      adds, and a rest made of e, which is empty, and the tail y. */
  lemma Regroup<T>(a: seq<T>, b: seq<T>, head: seq<T>, x: seq<T>, e: seq<T>, y: seq<T>, c: seq<T>)
    requires a == b + head + x && x == e + y && e == [] && c == head + y
    ensures a == b + c
  {
  }

  /** The same, when the rest starts with a piece equal to h. */
  lemma Rejoin<T>(a: seq<T>, b: seq<T>, x: seq<T>, e: seq<T>, h: seq<T>, y: seq<T>, c: seq<T>)
    requires a == b + x && x == e + y && e == h && c == h + y
    ensures a == b + c
  {
  }

  lemma CompactTokensUnfold(s: string)
    requires |s| > 0 && s[0] == ' '
    ensures CompactTokens(s) == ["[SP]"] + CompactTokens(s[1..])
  {
  }

  /** CompactTokensOf at a letter, given it for the rest. */
  lemma CompactLetterCase(w: string, s: string, first: bool)
    requires |s| > 0 && IsAlpha(s[0])
    requires first ==> w == ""
    requires Free(w, Blanks)
    requires FindDancingMan(s[0], true).Some?
    requires var f := FindDancingMan(s[0], true).value;
             NonEmpty(Fields(f + EncodeFrom(s[1..], false, true), Blanks, "")) == NonEmpty([f]) + CompactTokens(s[1..])
    ensures NonEmpty(Fields(w + EncodeFrom(s, first, true), Blanks, "")) == NonEmpty([w]) + CompactTokens(s)
  {
    CompactLetterStep(w, s, first);
    var f := FindDancingMan(s[0], true).value;
    OneField(f);
    Rejoin(NonEmpty(Fields(w + EncodeFrom(s, first, true), Blanks, "")), NonEmpty([w]),
           NonEmpty(Fields(f + EncodeFrom(s[1..], false, true), Blanks, "")), NonEmpty([f]), [f], CompactTokens(s[1..]),
           CompactTokens(s));
  }

  /** CompactTokensOf at a space, given it for the rest. */
  lemma CompactSpaceCase(w: string, s: string, first: bool)
    requires |s| > 0 && s[0] == ' '
    requires Free(w, Blanks)
    requires NonEmpty(Fields("" + EncodeFrom(s[1..], false, true), Blanks, "")) == NonEmpty([""]) + CompactTokens(s[1..])
    ensures NonEmpty(Fields(w + EncodeFrom(s, first, true), Blanks, "")) == NonEmpty([w]) + CompactTokens(s)
  {
    CompactSpaceStep(w, s, first);
    OneField("");
    CompactTokensUnfold(s);
    Regroup(NonEmpty(Fields(w + EncodeFrom(s, first, true), Blanks, "")), NonEmpty([w]), ["[SP]"],
            NonEmpty(Fields("" + EncodeFrom(s[1..], false, true), Blanks, "")), NonEmpty([""]), CompactTokens(s[1..]),
            CompactTokens(s));
  }

  /** The compact encoding, after a blank-free w that is still open, splits
      into w and the tokens of s. */
  lemma {:induction false} CompactTokensOf(w: string, s: string, first: bool)
    requires first ==> w == ""
    requires Free(w, Blanks)
    ensures NonEmpty(Fields(w + EncodeFrom(s, first, true), Blanks, "")) == NonEmpty([w]) + CompactTokens(s)
    decreases |s|
  {
    if |s| == 0 {
      FieldsFree(w, Blanks, "", "");
      assert w + EncodeFrom(s, first, true) == w + "" && "" + w == w;
    } else if IsAlpha(s[0]) {
      CompactFigure(s[0]);
      CompactTokensOf(FindDancingMan(s[0], true).value, s[1..], false);
      CompactLetterCase(w, s, first);
    } else if s[0] == ' ' {
      CompactTokensOf("", s[1..], false);
      CompactSpaceCase(w, s, first);
    } else {
      CompactTokensOf(w, s[1..], first);
    }
  }

  lemma {:induction false} DecodeCompactTokens(s: string)
    ensures DecodeTokens(CompactTokens(s)) == CompactNormal(s)
    decreases |s|
  {
    if |s| > 0 {
      DecodeCompactTokens(s[1..]);
      var toks := CompactTokens(s);
      if IsAlpha(s[0]) {
        CompactFigure(s[0]);
        var f := FindDancingMan(s[0], true).value;
        assert f != "[SP]" by {
          assert "[SP]"[0] == '[';
        }
        assert toks[1..] == CompactTokens(s[1..]);
      } else if s[0] == ' ' {
        assert toks[1..] == CompactTokens(s[1..]);
      }
    }
  }

  /** strtok's tokens of a compact encoding. */
  lemma CompactSplit(s: string)
    ensures Strtok(EncodeFrom(s, true, true), Blanks) == CompactTokens(s)
  {
    var e := EncodeFrom(s, true, true);
    StrtokFields(e, Blanks);
    CompactTokensOf("", s, true);
    assert "" + e == e;
    OneField("");
  }

  /** Compact mode: decoding an encoding gives the letters, each as the
      first letter drawn like it, and the spaces; newlines and everything
      else are gone. */
  lemma CompactRoundTrip(s: string, fixed: bool)
    requires |Encode(s, true)| <= MaxInput
    ensures Decode(Encode(s, true), true, fixed) == Some(CompactNormal(s))
  {
    var e := EncodeFrom(s, true, true);
    assert Encode(s, true) == e;
    EncodeNoNul(s, true, true);
    InputWhole(e);
    CompactSplit(s);
    DecodeCompactTokens(s);
  }
  // ------------------------------------------------------ full mode, line by line

  /** The full decoder seen one character at a time: the scan so far and
      the line being read. */
  datatype Reader = Reader(scan: Scan, line: string)

  /** A finished line goes to the decoder; keepEmpty false drops the empty
      ones, as strtok does. */
  function Step(st: Scan, line: string, keepEmpty: bool): Scan {
    if !keepEmpty && line == "" then st else TakeLine(st, line)
  }

  function Feed(r: Reader, s: string, keepEmpty: bool): Reader
    decreases |s|
  {
    if |s| == 0 then r
    else if s[0] == '\n' then Feed(Reader(Step(r.scan, r.line, keepEmpty), ""), s[1..], keepEmpty)
    else Feed(Reader(r.scan, r.line + [s[0]]), s[1..], keepEmpty)
  }

  /** The last line, which no newline ends, handed over. */
  function Ended(r: Reader, keepEmpty: bool): Scan {
    Step(r.scan, r.line, keepEmpty)
  }

  lemma {:induction false} FeedAppend(r: Reader, a: string, b: string, keepEmpty: bool)
    ensures Feed(r, a + b, keepEmpty) == Feed(Feed(r, a, keepEmpty), b, keepEmpty)
    decreases |a|
  {
    if |a| == 0 {
      assert a + b == b;
    } else {
      assert (a + b)[0] == a[0] && (a + b)[1..] == a[1..] + b;
      if a[0] == '\n' {
        FeedAppend(Reader(Step(r.scan, r.line, keepEmpty), ""), a[1..], b, keepEmpty);
      } else {
        FeedAppend(Reader(r.scan, r.line + [a[0]]), a[1..], b, keepEmpty);
      }
    }
  }

  lemma {:induction false} FeedFree(r: Reader, w: string, keepEmpty: bool)
    requires Free(w, Newline)
    ensures Feed(r, w, keepEmpty) == Reader(r.scan, r.line + w)
    decreases |w|
  {
    if |w| == 0 {
      assert r.line + w == r.line;
    } else {
      assert w[0] !in Newline;
      FeedFree(Reader(r.scan, r.line + [w[0]]), w[1..], keepEmpty);
      assert r.line + [w[0]] + w[1..] == r.line + w;
    }
  }

  /** Reading the lines one by one is reading the characters one by one. */
  lemma {:induction false} LinesRead(st: Scan, s: string, cur: string, keepEmpty: bool)
    ensures var lines := Fields(s, Newline, cur);
            TakeLines(st, if keepEmpty then lines else NonEmpty(lines))
            == Ended(Feed(Reader(st, cur), s, keepEmpty), keepEmpty)
    decreases |s|
  {
    var lines := Fields(s, Newline, cur);
    if |s| == 0 {
      assert [cur][1..] == [];
      assert NonEmpty([cur]) == (if cur == "" then [] else [cur]) + NonEmpty([]);
    } else if s[0] == '\n' {
      var rest := Fields(s[1..], Newline, "");
      assert lines == [cur] + rest;
      assert lines[1..] == rest;
      LinesRead(Step(st, cur, keepEmpty), s[1..], "", keepEmpty);
      if !keepEmpty {
        assert NonEmpty(lines) == (if cur == "" then [] else [cur]) + NonEmpty(rest);
        if cur == "" {
          assert [] + NonEmpty(rest) == NonEmpty(rest);
        } else {
          assert ([cur] + NonEmpty(rest))[1..] == NonEmpty(rest);
        }
      }
    } else {
      LinesRead(st, s[1..], cur + [s[0]], keepEmpty);
    }
  }

  /** The full decoder, read one character at a time. */
  lemma DecodeFullFeed(s: string, fixed: bool)
    ensures Gather(s, fixed) == Ended(Feed(Reader(ScanStart, ""), Input(s), fixed), fixed)
  {
    StrtokFields(Input(s), Newline);
    LinesRead(ScanStart, Input(s), "", fixed);
  }

  /** Nothing has been read of the figure yet. */
  function Idle(out: string): Reader {
    Reader(Scan(out, "", 0, false), "")
  }

  /** Two lines of the figure of the letter at k gathered, the third being
      read. */
  function Holding(out: string, k: int): Reader
    requires 0 <= k < 26
  {
    PoseAt(k);
    var l := Poses[k].lines;
    Reader(Scan(out, l[0] + "\n" + l[1], 2, false), l[2])
  }

  /** A figure line joins the figure. */
  lemma GatherLine(st: Scan, w: string)
    requires Drawn(w)
    ensures var f := (if st.count > 0 then st.figure + "\n" else st.figure) + w;
            TakeLine(st, w) == Scan(st.out, f, st.count + 1, st.overrun || |f| >= FigureRoom)
  {
    Avoids(w, "[SPACE]", '[');
    Avoids(w, "[NEWLINE]", '[');
  }

  lemma FeedLine(st: Scan, w: string, keepEmpty: bool)
    requires Drawn(w)
    ensures Feed(Reader(st, ""), w + "\n", keepEmpty) == Reader(TakeLine(st, w), "")
  {
    FeedAppend(Reader(st, ""), w, "\n", keepEmpty);
    FeedFree(Reader(st, ""), w, keepEmpty);
    assert "" + w == w;
  }

  /** The three lines of a full figure. */
  lemma PoseText(k: int)
    requires 0 <= k < 26
    ensures var l := Poses[k].lines;
            |l| == 3 && Figure(Poses[k]) == l[0] + "\n" + l[1] + "\n" + l[2]
  {
    PoseAt(k);
    var l := Poses[k].lines;
    assert l[..2][..1] == [l[0]] && l[..2][1] == l[1];
    assert Join(l[..2][..1], '\n') == l[0];
    assert Join(l[..2], '\n') == l[0] + "\n" + l[1];
    assert l[..2] == l[..|l| - 1];
  }

  /** Reading a full figure from the start gathers its first two lines. */
  lemma FeedPose(out: string, k: int, keepEmpty: bool)
    requires 0 <= k < 26
    ensures Feed(Idle(out), Figure(Poses[k]), keepEmpty) == Holding(out, k)
  {
    PoseSize(k);
    PoseText(k);
    PoseAt(k);
    var l := Poses[k].lines;
    assert Figure(Poses[k]) == (l[0] + "\n") + (l[1] + "\n") + l[2];
    FeedAppend(Idle(out), (l[0] + "\n") + (l[1] + "\n"), l[2], keepEmpty);
    FeedAppend(Idle(out), l[0] + "\n", l[1] + "\n", keepEmpty);
    FeedLine(Scan(out, "", 0, false), l[0], keepEmpty);
    GatherLine(Scan(out, "", 0, false), l[0]);
    assert "" + l[0] == l[0];
    FeedLine(Scan(out, l[0], 1, false), l[1], keepEmpty);
    GatherLine(Scan(out, l[0], 1, false), l[1]);
    var r := Reader(Scan(out, l[0] + "\n" + l[1], 2, false), "");
    FeedFree(r, l[2], keepEmpty);
    assert "" + l[2] == l[2];
  }

  /** The empty line after a figure reads its letter. */
  lemma FeedGap(out: string, k: int)
    requires 0 <= k < 26
    ensures Feed(Holding(out, k), "\n\n", true) == Idle(out + [Poses[k].letter])
  {
    PoseSize(k);
    PoseText(k);
    PoseAt(k);
    PoseLetter(k);
    var l := Poses[k].lines;
    GatherLine(Scan(out, l[0] + "\n" + l[1], 2, false), l[2]);
    assert "\n\n"[0] == '\n' && "\n\n"[1..] == "\n";
    assert "\n"[0] == '\n' && "\n"[1..] == "";
  }

  lemma FeedIdleGap(out: string, keepEmpty: bool)
    ensures Feed(Idle(out), "\n\n", keepEmpty) == Idle(out)
  {
    assert "\n\n"[0] == '\n' && "\n\n"[1..] == "\n";
    assert "\n"[0] == '\n' && "\n"[1..] == "";
  }

  /** A one-line mark, with the empty line after it. */
  lemma FeedMark(out: string, mark: string, written: string, keepEmpty: bool)
    requires mark != "" && Free(mark, Newline)
    requires TakeLine(Scan(out, "", 0, false), mark) == Scan(out + written, "", 0, false)
    ensures Feed(Idle(out), mark + "\n\n", keepEmpty) == Idle(out + written)
  {
    FeedAppend(Idle(out), mark, "\n\n", keepEmpty);
    FeedFree(Idle(out), mark, keepEmpty);
    assert "" + mark == mark;
    assert "\n\n"[0] == '\n' && "\n\n"[1..] == "\n";
    assert "\n"[0] == '\n' && "\n"[1..] == "";
  }

  lemma SpaceLine(out: string)
    ensures TakeLine(Scan(out, "", 0, false), "[SPACE]") == Scan(out + " ", "", 0, false)
  {
    assert "[SPACE]"[..|"[SPACE]"|] == "[SPACE]";
  }

  lemma NewlineLine(out: string)
    ensures TakeLine(Scan(out, "", 0, false), "[NEWLINE]") == Scan(out + "\n", "", 0, false)
  {
    Avoids("[NEWLINE]", "[SPACE]", 'S');
    assert "[NEWLINE]"[..|"[NEWLINE]"|] == "[NEWLINE]";
  }

  /** The letter waiting in the reader, if any. */
  function At(out: string, pending: Option<int>): Reader
    requires pending.Some? ==> 0 <= pending.value < 26
  {
    match pending
    case None => Idle(out)
    case Some(k) => Holding(out, k)
  }

  /** The text written once the waiting letter is read. */
  function Value(out: string, pending: Option<int>): string
    requires pending.Some? ==> 0 <= pending.value < 26
  {
    match pending
    case None => out
    case Some(k) => out + [('A' as int + k) as char]
  }

  /** The end of a full encoding: its final newline, then the end of input. */
  function Close(r: Reader): Option<string> {
    var st := Ended(Feed(r, "\n", true), true);
    if st.overrun then None else Some(Finish(st))
  }

  lemma CloseAt(out: string, pending: Option<int>)
    requires pending.Some? ==> 0 <= pending.value < 26
    ensures Close(At(out, pending)) == Some(Value(out, pending))
  {
    assert "\n"[0] == '\n' && "\n"[1..] == "";
    if pending.Some? {
      var k := pending.value;
      PoseSize(k);
      PoseText(k);
      PoseAt(k);
      PoseLetter(k);
      var l := Poses[k].lines;
      GatherLine(Scan(out, l[0] + "\n" + l[1], 2, false), l[2]);
    }
  }

  /** A separator before a figure, or none before the first thing written,
      reads the waiting letter. */
  lemma FeedSeparator(out: string, pending: Option<int>, first: bool)
    requires pending.Some? ==> 0 <= pending.value < 26
    requires first ==> pending.None?
    ensures Feed(At(out, pending), if first then "" else "\n\n", true) == Idle(Value(out, pending))
  {
    match pending
    case None =>
      FeedIdleGap(out, true);
    case Some(k) =>
      PoseAt(k);
      FeedGap(out, k);
  }

  lemma Feed3(r: Reader, a: string, b: string, c: string, keepEmpty: bool)
    ensures Feed(r, a + b + c, keepEmpty) == Feed(Feed(Feed(r, a, keepEmpty), b, keepEmpty), c, keepEmpty)
  {
    FeedAppend(r, a + b, c, keepEmpty);
    FeedAppend(r, a, b, keepEmpty);
  }

  /** The step of FeedEncode at a letter: its figure is gathered. */
  lemma FeedLetterStep(s: string, out: string, pending: Option<int>, first: bool)
    requires |s| > 0 && IsAlpha(s[0])
    requires pending.Some? ==> 0 <= pending.value < 26
    requires first ==> pending.None?
    ensures 0 <= Place(s[0]) < 26
    ensures Feed(At(out, pending), EncodeFrom(s, first, false), true)
            == Feed(At(Value(out, pending), Some(Place(s[0]))), EncodeFrom(s[1..], false, false), true)
    ensures Value(Value(out, pending), Some(Place(s[0]))) == Value(out, pending) + [ToUpper(s[0])]
  {
    FigureLookup(s[0], false);
    var k := Place(s[0]);
    var sep := if first then "" else "\n\n";
    var rest := EncodeFrom(s[1..], false, false);
    assert EncodeFrom(s, first, false) == sep + Figure(Poses[k]) + rest;
    Feed3(At(out, pending), sep, Figure(Poses[k]), rest, true);
    FeedSeparator(out, pending, first);
    FeedPose(Value(out, pending), k, true);
  }

  /** A mark line between empty lines reads the waiting letter and then
      writes what the mark stands for. */
  lemma FeedMarkText(out: string, pending: Option<int>, mark: string, written: string, e: string, rest: string)
    requires pending.Some? ==> 0 <= pending.value < 26
    requires mark != "" && Free(mark, Newline)
    requires TakeLine(Scan(Value(out, pending), "", 0, false), mark) == Scan(Value(out, pending) + written, "", 0, false)
    requires e == "\n\n" + (mark + "\n\n") + rest
    ensures Feed(At(out, pending), e, true) == Feed(Idle(Value(out, pending) + written), rest, true)
  {
    Feed3(At(out, pending), "\n\n", mark + "\n\n", rest, true);
    FeedSeparator(out, pending, false);
    FeedMark(Value(out, pending), mark, written, true);
  }

  /** The marks are a line between empty lines. */
  lemma MarkTexts()
    ensures SpaceMark == "\n\n" + ("[SPACE]" + "\n\n")
    ensures NewlineMark == "\n\n" + ("[NEWLINE]" + "\n\n")
  {
  }

  /** The step of FeedEncode at a space or a newline: its marker is read. */
  lemma FeedMarkerStep(s: string, out: string, pending: Option<int>, first: bool)
    requires |s| > 0 && (s[0] == ' ' || s[0] == '\n')
    requires pending.Some? ==> 0 <= pending.value < 26
    requires first ==> pending.None?
    ensures Feed(At(out, pending), EncodeFrom(s, first, false), true)
            == Feed(Idle(Value(out, pending) + [s[0]]), EncodeFrom(s[1..], false, false), true)
  {
    var v := Value(out, pending);
    var e := EncodeFrom(s, first, false);
    var rest := EncodeFrom(s[1..], false, false);
    MarkTexts();
    if s[0] == ' ' {
      assert e == SpaceMark + rest;
      SpaceLine(v);
      FeedMarkText(out, pending, "[SPACE]", " ", e, rest);
    } else {
      assert e == NewlineMark + rest;
      NewlineLine(v);
      FeedMarkText(out, pending, "[NEWLINE]", "\n", e, rest);
    }
  }

  lemma FullNormalUnfold(s: string)
    requires |s| > 0 && (IsAlpha(s[0]) || s[0] == ' ' || s[0] == '\n')
    ensures FullNormal(s) == [if IsAlpha(s[0]) then ToUpper(s[0]) else s[0]] + FullNormal(s[1..])
  {
  }

  /** The text of a step: what the rest reads back, after the letter. */
  lemma Combine(lhs: Option<string>, mid: Option<string>, v: string, u: string, t: string, all: string)
    requires lhs == mid && mid == Some(v + u + t) && all == u + t
    ensures lhs == Some(v + all)
  {
    assert v + u + t == v + all;
  }

  /** FeedEncode at a letter, given it for the rest. */
  lemma FeedLetterCase(s: string, out: string, pending: Option<int>, first: bool)
    requires |s| > 0 && IsAlpha(s[0])
    requires pending.Some? ==> 0 <= pending.value < 26
    requires first ==> pending.None?
    requires 0 <= Place(s[0]) < 26
    requires Close(Feed(At(Value(out, pending), Some(Place(s[0]))), EncodeFrom(s[1..], false, false), true))
             == Some(Value(Value(out, pending), Some(Place(s[0]))) + FullNormal(s[1..]))
    ensures Close(Feed(At(out, pending), EncodeFrom(s, first, false), true)) == Some(Value(out, pending) + FullNormal(s))
  {
    var v := Value(out, pending);
    FeedLetterStep(s, out, pending, first);
    FullNormalUnfold(s);
    Combine(Close(Feed(At(out, pending), EncodeFrom(s, first, false), true)),
            Close(Feed(At(v, Some(Place(s[0]))), EncodeFrom(s[1..], false, false), true)),
            v, [ToUpper(s[0])], FullNormal(s[1..]), FullNormal(s));
  }

  /** FeedEncode at a space or a newline, given it for the rest. */
  lemma FeedMarkerCase(s: string, out: string, pending: Option<int>, first: bool)
    requires |s| > 0 && (s[0] == ' ' || s[0] == '\n')
    requires pending.Some? ==> 0 <= pending.value < 26
    requires first ==> pending.None?
    requires Close(Feed(Idle(Value(out, pending) + [s[0]]), EncodeFrom(s[1..], false, false), true))
             == Some(Value(out, pending) + [s[0]] + FullNormal(s[1..]))
    ensures Close(Feed(At(out, pending), EncodeFrom(s, first, false), true)) == Some(Value(out, pending) + FullNormal(s))
  {
    var v := Value(out, pending);
    FeedMarkerStep(s, out, pending, first);
    FullNormalUnfold(s);
    Combine(Close(Feed(At(out, pending), EncodeFrom(s, first, false), true)),
            Close(Feed(Idle(v + [s[0]]), EncodeFrom(s[1..], false, false), true)),
            v, [s[0]], FullNormal(s[1..]), FullNormal(s));
  }

  /** Full mode: the decoder reading an encoding, with the empty lines
      kept, writes back every letter (upper-cased), space and newline, and
      never overruns current_figure. */
  lemma {:induction false} FeedEncode(s: string, out: string, pending: Option<int>, first: bool)
    requires pending.Some? ==> 0 <= pending.value < 26
    requires first ==> pending.None?
    ensures Close(Feed(At(out, pending), EncodeFrom(s, first, false), true)) == Some(Value(out, pending) + FullNormal(s))
    decreases |s|
  {
    if |s| == 0 {
      CloseAt(out, pending);
      assert Value(out, pending) + FullNormal(s) == Value(out, pending) + "" == Value(out, pending);
    } else if IsAlpha(s[0]) {
      FigureLookup(s[0], false);
      FeedEncode(s[1..], Value(out, pending), Some(Place(s[0])), false);
      FeedLetterCase(s, out, pending, first);
    } else if s[0] == ' ' || s[0] == '\n' {
      FeedEncode(s[1..], Value(out, pending) + [s[0]], None, false);
      FeedMarkerCase(s, out, pending, first);
    } else {
      FeedEncode(s[1..], out, pending, first);
    }
  }

  /** Full mode, with the figure-ending empty lines kept: decoding an
      encoding stays within current_figure and gives back the letters,
      upper-cased, the spaces and the newlines. */
  lemma FullRoundTrip(s: string)
    requires |Encode(s, false)| <= MaxInput
    ensures Decode(Encode(s, false), false, true) == Some(FullNormal(s))
  {
    var body := EncodeFrom(s, true, false);
    var e := Encode(s, false);
    EncodeNoNul(s, true, false);
    InputWhole(e);
    DecodeFullFeed(e, true);
    FeedAppend(Idle(""), body, "\n", true);
    FeedEncode(s, "", None, true);
    assert "" + FullNormal(s) == FullNormal(s);
  }

  // ------------------------------------------------------ full mode as written

  /** Text made only of spaces and newlines. */
  predicate OnlyBlanks(t: string) {
    forall i | 0 <= i < |t| :: t[i] in Blanks
  }

  /** With no empty line, no figure is ever ended: only markers write. */
  lemma {:induction false} NoEmptyLine(st: Scan, lines: seq<string>)
    requires OnlyBlanks(st.out)
    requires forall i | 0 <= i < |lines| :: lines[i] != ""
    ensures OnlyBlanks(TakeLines(st, lines).out)
    decreases |lines|
  {
    if |lines| > 0 {
      NoEmptyLine(TakeLine(st, lines[0]), lines[1..]);
    }
  }

  /** As written, the full decoder never sees an empty line, since strtok
      skips them, so it writes at most one letter, at the very end: every
      character before the last is a space or a newline. */
  lemma AsWrittenBlanks(s: string)
    ensures var r := Decode(s, false, false);
            r.Some? && |r.value| > 0 ==> OnlyBlanks(r.value[..|r.value| - 1])
  {
    var lines := Strtok(Input(s), Newline);
    StrtokFields(Input(s), Newline);
    NoEmptyLine(ScanStart, lines);
    var st := TakeLines(ScanStart, lines);
    var r := Finish(st);
    assert r == st.out || r == st.out + [r[|r| - 1]];
    if |r| > 0 && r != st.out {
      assert r[..|r| - 1] == st.out;
    }
  }

  /** A full figure has 11 to 14 characters. */
  lemma PoseSize(k: int)
    requires 0 <= k < 26
    ensures 11 <= |Figure(Poses[k])| <= 14
  {
    PoseText(k);
    PoseAt(k);
  }

  /** No full figure is longer than 14 characters. */
  lemma NoLongFigure(f: string)
    requires |f| > 14
    ensures FindLetter(f, false) == None
  {
    PoseAt(0);
    var r := FirstWithFigure(Poses, f, 0);
    if r < |Poses| {
      PoseSize(r);
    }
  }

  /** The empty line after a figure, skipped: the figure stays open. */
  lemma FeedGapSkipped(out: string, k: int)
    requires 0 <= k < 26
    ensures Feed(Holding(out, k), "\n\n", false) == Reader(Scan(out, Figure(Poses[k]), 3, false), "")
  {
    PoseSize(k);
    PoseText(k);
    PoseAt(k);
    var l := Poses[k].lines;
    GatherLine(Scan(out, l[0] + "\n" + l[1], 2, false), l[2]);
    assert "\n\n"[0] == '\n' && "\n\n"[1..] == "\n";
    assert "\n"[0] == '\n' && "\n"[1..] == "";
  }

  /** A figure read while another is open joins it. */
  lemma FeedOnto(st: Scan, k: int)
    requires 0 <= k < 26 && st.count > 0
    ensures var r := Feed(Reader(st, ""), Figure(Poses[k]) + "\n", false);
            r.line == "" && r.scan.out == st.out && r.scan.count == st.count + 3 &&
            |r.scan.figure| == |st.figure| + 1 + |Figure(Poses[k])| &&
            r.scan.overrun == (st.overrun || |r.scan.figure| >= FigureRoom)
  {
    PoseText(k);
    PoseAt(k);
    var l := Poses[k].lines;
    assert Figure(Poses[k]) + "\n" == (l[0] + "\n") + (l[1] + "\n") + (l[2] + "\n");
    Feed3(Reader(st, ""), l[0] + "\n", l[1] + "\n", l[2] + "\n", false);
    var st1 := TakeLine(st, l[0]);
    FeedLine(st, l[0], false);
    GatherLine(st, l[0]);
    var st2 := TakeLine(st1, l[1]);
    FeedLine(st1, l[1], false);
    GatherLine(st1, l[1]);
    FeedLine(st2, l[2], false);
    GatherLine(st2, l[2]);
  }

  /** The full encoding of "AB". */
  lemma EncodeAB()
    ensures Encode("AB", false) == Figure(Poses[0]) + "\n\n" + (Figure(Poses[1]) + "\n")
    ensures FullNormal("AB") == "AB"
  {
    FigureLookup('A', false);
    FigureLookup('B', false);
    assert "AB"[0] == 'A' && "AB"[1..] == "B";
    assert "B"[0] == 'B' && "B"[1..] == "";
  }

  /** As written, the full decoder loses "AB": the empty line between the
      two figures never reaches it, so their six lines make one figure of
      at least 23 characters, which no letter has. Keeping empty lines
      reads it back. */
  lemma MergedFigures()
    ensures Decode(Encode("AB", false), false, false) == Some("")
    ensures Decode(Encode("AB", false), false, true) == Some(FullNormal("AB")) && FullNormal("AB") == "AB"
  {
    EncodeAB();
    var fa := Figure(Poses[0]);
    var e := Encode("AB", false);
    PoseSize(0);
    PoseSize(1);
    EncodeNoNul("AB", true, false);
    assert '\0' !in e;
    InputWhole(e);
    DecodeFullFeed(e, false);
    Feed3(Idle(""), fa, "\n\n", Figure(Poses[1]) + "\n", false);
    FeedPose("", 0, false);
    FeedGapSkipped("", 0);
    FeedOnto(Scan("", fa, 3, false), 1);
    var r := Feed(Idle(""), e, false);
    NoLongFigure(r.scan.figure);
    FullRoundTrip("AB");
  }

  /** Text made only of letters. */
  predicate AllLetters(s: string) {
    forall i | 0 <= i < |s| :: IsAlpha(s[i])
  }

  /** The first letter of a full encoding is its figure, with nothing
      before it. */
  lemma EncodeHead(t: string)
    requires |t| > 0 && IsAlpha(t[0])
    ensures 0 <= Place(t[0]) < 26
    ensures EncodeFrom(t, true, false) == Figure(Poses[Place(t[0])]) + EncodeFrom(t[1..], false, false)
  {
    FigureLookup(t[0], false);
    NoLead(Figure(Poses[Place(t[0])]), EncodeFrom(t[1..], false, false));
  }

  lemma NoLead(f: string, r: string)
    ensures ("" + f) + r == f + r
  {
    assert "" + f == f;
  }

  lemma GapRegroup(a: string, f: string, r: string)
    ensures (a + f) + r == a + (("" + f) + r)
  {
    assert "" + f == f;
  }

  /** A letter after the first is its encoding as a first letter, after
      an empty line. */
  lemma EncodeGap(t: string)
    requires |t| > 0 && IsAlpha(t[0])
    ensures EncodeFrom(t, false, false) == "\n\n" + EncodeFrom(t, true, false)
  {
    FigureLookup(t[0], false);
    GapRegroup("\n\n", Figure(Poses[Place(t[0])]), EncodeFrom(t[1..], false, false));
  }

  /** The full encoding of letters: the first one's figure, then an
      empty line before the encoding of the rest. */
  lemma EncodeLetters(s: string)
    requires |s| > 0 && AllLetters(s)
    ensures 0 <= Place(s[0]) < 26 && AllLetters(s[1..])
    ensures EncodeFrom(s, true, false) == Figure(Poses[Place(s[0])]) + EncodeFrom(s[1..], false, false)
    ensures |s| == 1 ==> EncodeFrom(s[1..], false, false) == ""
    ensures |s| > 1 ==> EncodeFrom(s[1..], false, false) == "\n\n" + EncodeFrom(s[1..], true, false)
  {
    EncodeHead(s);
    TailLetters(s);
    if |s| > 1 {
      EncodeGap(s[1..]);
    } else {
      assert |s[1..]| == 0;
    }
  }

  lemma TailLetters(s: string)
    requires |s| > 0 && AllLetters(s)
    ensures AllLetters(s[1..])
  {
    forall i | 0 <= i < |s[1..]| ensures IsAlpha(s[1..][i]) {
      assert s[1..][i] == s[i + 1];
    }
  }

  /** The text after the first figure, split at its empty line. */
  lemma LetterChain(f: string, x: string)
    ensures f + ("\n\n" + x) + "\n" == (f + "\n") + ("\n" + (x + "\n"))
    ensures f + ("\n\n" + x) + "\n" == f + "\n\n" + (x + "\n")
    ensures f + "" + "\n" == f + "\n"
  {
  }

  /** With empty lines dropped, an empty line changes nothing. */
  lemma SkipEmpty(st: Scan, t: string)
    ensures Feed(Reader(st, ""), "\n" + t, false) == Feed(Reader(st, ""), t, false)
  {
    assert ("\n" + t)[0] == '\n' && ("\n" + t)[1..] == t;
  }

  /** As written, the figures of letters read while one is open all join
      it: each adds a newline and at least 11 characters, and the scan
      overruns exactly when the joined figure reaches current_figure's
      size. */
  lemma {:induction false} OntoLetters(st: Scan, s: string)
    requires |s| > 0 && st.count > 0 && AllLetters(s)
    ensures var r := Feed(Reader(st, ""), EncodeFrom(s, true, false) + "\n", false);
            r.line == "" && r.scan.count > 0 &&
            |r.scan.figure| >= |st.figure| + 12 * |s| &&
            r.scan.overrun == (st.overrun || |r.scan.figure| >= FigureRoom)
    decreases |s|
  {
    EncodeLetters(s);
    var k := Place(s[0]);
    var f := Figure(Poses[k]);
    var x := EncodeFrom(s[1..], true, false);
    PoseSize(k);
    FeedOnto(st, k);
    var r1 := Feed(Reader(st, ""), f + "\n", false);
    assert r1 == Reader(r1.scan, "");
    LetterChain(f, x);
    if |s| > 1 {
      var tail := x + "\n";
      assert EncodeFrom(s, true, false) + "\n" == (f + "\n") + ("\n" + tail);
      FeedAppend(Reader(st, ""), f + "\n", "\n" + tail, false);
      SkipEmpty(r1.scan, tail);
      OntoLetters(r1.scan, s[1..]);
    } else {
      assert EncodeFrom(s, true, false) + "\n" == f + "\n";
    }
  }

  /** As written, 22 letters or more overrun current_figure: with no empty
      line to end a figure, their 66 lines make one figure of at least
      263 characters. Keeping the empty lines reads them back. */
  lemma LettersOverrun(s: string)
    requires |s| >= 22 && AllLetters(s) && |Encode(s, false)| <= MaxInput
    ensures Decode(Encode(s, false), false, false) == None
    ensures Decode(Encode(s, false), false, true) == Some(FullNormal(s))
  {
    var e := Encode(s, false);
    EncodeNoNul(s, true, false);
    InputWhole(e);
    DecodeFullFeed(e, false);
    EncodeLetters(s);
    var k := Place(s[0]);
    var f := Figure(Poses[k]);
    PoseSize(k);
    var tail := EncodeFrom(s[1..], true, false) + "\n";
    LetterChain(f, EncodeFrom(s[1..], true, false));
    Feed3(Idle(""), f, "\n\n", tail, false);
    FeedPose("", k, false);
    FeedGapSkipped("", k);
    OntoLetters(Scan("", f, 3, false), s[1..]);
    FullRoundTrip(s);
  }

  /** Every character costs the full encoding at most 16 characters: an
      empty line and a figure of at most 14, or a marker between empty
      lines. */
  lemma {:induction false} EncodeFullLength(s: string, first: bool)
    ensures |EncodeFrom(s, first, false)| <= 16 * |s|
    decreases |s|
  {
    if |s| > 0 {
      EncodeFullLength(s[1..], false);
      EncodeFullLength(s[1..], first);
      if IsAlpha(s[0]) {
        FigureLookup(s[0], false);
        PoseSize(Place(s[0]));
      }
    }
  }
}
