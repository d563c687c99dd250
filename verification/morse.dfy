/** The morse tool: International Morse Code (ITU-R M.1677-1) for letters,
    digits and common punctuation, encoded from text and decoded back. */
module Morse {
  import opened CType
  import opened Optional
  import opened Seqs

  /** One row of the lookup table: a character and its code of dots and dashes. */
  datatype Entry = Entry(ch: char, code: string)

  // The table, one constant per line of the table in morse.c.

  const LettersAF: seq<Entry> :=
    [Entry('A', ".-"), Entry('B', "-..."), Entry('C', "-.-."), Entry('D', "-.."), Entry('E', "."), Entry('F', "..-.")]

  const LettersGL: seq<Entry> :=
    [Entry('G', "--."), Entry('H', "...."), Entry('I', ".."), Entry('J', ".---"), Entry('K', "-.-"), Entry('L', ".-..")]

  const LettersMR: seq<Entry> :=
    [Entry('M', "--"), Entry('N', "-."), Entry('O', "---"), Entry('P', ".--."), Entry('Q', "--.-"), Entry('R', ".-.")]

  const LettersSX: seq<Entry> :=
    [Entry('S', "..."), Entry('T', "-"), Entry('U', "..-"), Entry('V', "...-"), Entry('W', ".--"), Entry('X', "-..-")]

  const LettersYZ: seq<Entry> :=
    [Entry('Y', "-.--"), Entry('Z', "--..")]

  const Digits04: seq<Entry> :=
    [Entry('0', "-----"), Entry('1', ".----"), Entry('2', "..---"), Entry('3', "...--"), Entry('4', "....-")]

  const Digits59: seq<Entry> :=
    [Entry('5', "....."), Entry('6', "-...."), Entry('7', "--..."), Entry('8', "---.."), Entry('9', "----.")]

  const Marks1: seq<Entry> :=
    [Entry('.', ".-.-.-"), Entry(',', "--..--"), Entry('?', "..--.."), Entry('\'', ".----."), Entry('!', "-.-.--")]

  const Marks2: seq<Entry> :=
    [Entry('/', "-..-."), Entry('(', "-.--."), Entry(')', "-.--.-"), Entry('&', ".-..."), Entry(':', "---...")]

  const Marks3: seq<Entry> :=
    [Entry(';', "-.-.-."), Entry('=', "-...-"), Entry('+', ".-.-."), Entry('-', "-....-"), Entry('_', "..--.-")]

  const Marks4: seq<Entry> :=
    [Entry('"', ".-..-."), Entry('$', "...-..-"), Entry('@', ".--.-.")]

  const Letters: seq<Entry> := LettersAF + LettersGL + LettersMR + LettersSX + LettersYZ

  const Digits: seq<Entry> := Digits04 + Digits59

  const Punctuation: seq<Entry> := Marks1 + Marks2 + Marks3 + Marks4

  /** The space is in the table too, with "/" as its code. */
  const SpaceEntry: Entry := Entry(' ', "/")

  /** The table in the order the lookups scan it (the end marker is not an entry). */
  const Table: seq<Entry> := Letters + Digits + Punctuation + [SpaceEntry]

  // ------------------------------------------------------ distinct codes

  /** A dot, a dash and anything else as the digits 0, 1 and 2. */
  function Trit(c: char): nat {
    if c == '.' then 0 else if c == '-' then 1 else 2
  }

  /** A code of at most seven symbols read as a base-3 number after a
      leading 1, so that codes of different lengths get different keys;
      every code of the table has at most seven symbols. */
  function Key(c: string): nat {
    match |c|
    case 1 => 3 + Trit(c[0])
    case 2 => (3 + Trit(c[0])) * 3 + Trit(c[1])
    case 3 => ((3 + Trit(c[0])) * 3 + Trit(c[1])) * 3 + Trit(c[2])
    case 4 => (((3 + Trit(c[0])) * 3 + Trit(c[1])) * 3 + Trit(c[2])) * 3 + Trit(c[3])
    case 5 => ((((3 + Trit(c[0])) * 3 + Trit(c[1])) * 3 + Trit(c[2])) * 3 + Trit(c[3])) * 3 + Trit(c[4])
    case 6 => (((((3 + Trit(c[0])) * 3 + Trit(c[1])) * 3 + Trit(c[2])) * 3 + Trit(c[3])) * 3 + Trit(c[4])) * 3 + Trit(c[5])
    case 7 => ((((((3 + Trit(c[0])) * 3 + Trit(c[1])) * 3 + Trit(c[2])) * 3 + Trit(c[3])) * 3 + Trit(c[4])) * 3 + Trit(c[5])) * 3 + Trit(c[6])
    case _ => 0
  }

  /** The table index of the entry with a given key, -1 for no entry. */
  function KeyIndex(key: nat): int {
    match key
    case 10 => 0
    case 108 => 1
    case 111 => 2
    case 36 => 3
    case 3 => 4
    case 84 => 5
    case 39 => 6
    case 81 => 7
    case 9 => 8
    case 94 => 9
    case 37 => 10
    case 90 => 11
    case 13 => 12
    case 12 => 13
    case 40 => 14
    case 93 => 15
    case 118 => 16
    case 30 => 17
    case 27 => 18
    case 4 => 19
    case 28 => 20
    case 82 => 21
    case 31 => 22
    case 109 => 23
    case 112 => 24
    case 117 => 25
    case 364 => 26
    case 283 => 27
    case 256 => 28
    case 247 => 29
    case 244 => 30
    case 243 => 31
    case 324 => 32
    case 351 => 33
    case 360 => 34
    case 363 => 35
    case 820 => 36
    case 1057 => 37
    case 765 => 38
    case 849 => 39
    case 1003 => 40
    case 327 => 41
    case 336 => 42
    case 1009 => 43
    case 270 => 44
    case 1080 => 45
    case 1002 => 46
    case 325 => 47
    case 273 => 48
    case 973 => 49
    case 766 => 50
    case 813 => 51
    case 2215 => 52
    case 840 => 53
    case 5 => 54
    case _ => -1
  }

  /** The entries of part lead back, through their keys, to their own
      positions when part starts at index base of the table. */
  predicate KeysFrom(part: seq<Entry>, base: nat) {
    forall i | 0 <= i < |part| :: KeyIndex(Key(part[i].code)) == base + i
  }

  lemma KeysAppend(a: seq<Entry>, b: seq<Entry>, base: nat)
    requires KeysFrom(a, base) && KeysFrom(b, base + |a|)
    ensures KeysFrom(a + b, base)
  {
    forall i | 0 <= i < |a + b|
      ensures KeyIndex(Key((a + b)[i].code)) == base + i
    {
      if i >= |a| {
        assert (a + b)[i] == b[i - |a|];
      }
    }
  }

  lemma LettersAFKeys()
    ensures KeysFrom(LettersAF, 0)
  {
    assert KeyIndex(Key(LettersAF[0].code)) == 0;
    assert KeyIndex(Key(LettersAF[1].code)) == 1;
    assert KeyIndex(Key(LettersAF[2].code)) == 2;
    assert KeyIndex(Key(LettersAF[3].code)) == 3;
    assert KeyIndex(Key(LettersAF[4].code)) == 4;
    assert KeyIndex(Key(LettersAF[5].code)) == 5;
  }

  lemma LettersGLKeys()
    ensures KeysFrom(LettersGL, 6)
  {
    assert KeyIndex(Key(LettersGL[0].code)) == 6;
    assert KeyIndex(Key(LettersGL[1].code)) == 7;
    assert KeyIndex(Key(LettersGL[2].code)) == 8;
    assert KeyIndex(Key(LettersGL[3].code)) == 9;
    assert KeyIndex(Key(LettersGL[4].code)) == 10;
    assert KeyIndex(Key(LettersGL[5].code)) == 11;
  }

  lemma LettersMRKeys()
    ensures KeysFrom(LettersMR, 12)
  {
    assert KeyIndex(Key(LettersMR[0].code)) == 12;
    assert KeyIndex(Key(LettersMR[1].code)) == 13;
    assert KeyIndex(Key(LettersMR[2].code)) == 14;
    assert KeyIndex(Key(LettersMR[3].code)) == 15;
    assert KeyIndex(Key(LettersMR[4].code)) == 16;
    assert KeyIndex(Key(LettersMR[5].code)) == 17;
  }

  lemma LettersSXKeys()
    ensures KeysFrom(LettersSX, 18)
  {
    assert KeyIndex(Key(LettersSX[0].code)) == 18;
    assert KeyIndex(Key(LettersSX[1].code)) == 19;
    assert KeyIndex(Key(LettersSX[2].code)) == 20;
    assert KeyIndex(Key(LettersSX[3].code)) == 21;
    assert KeyIndex(Key(LettersSX[4].code)) == 22;
    assert KeyIndex(Key(LettersSX[5].code)) == 23;
  }

  lemma LettersYZKeys()
    ensures KeysFrom(LettersYZ, 24)
  {
    assert KeyIndex(Key(LettersYZ[0].code)) == 24;
    assert KeyIndex(Key(LettersYZ[1].code)) == 25;
  }

  lemma Digits04Keys()
    ensures KeysFrom(Digits04, 26)
  {
    assert KeyIndex(Key(Digits04[0].code)) == 26;
    assert KeyIndex(Key(Digits04[1].code)) == 27;
    assert KeyIndex(Key(Digits04[2].code)) == 28;
    assert KeyIndex(Key(Digits04[3].code)) == 29;
    assert KeyIndex(Key(Digits04[4].code)) == 30;
  }

  lemma Digits59Keys()
    ensures KeysFrom(Digits59, 31)
  {
    assert KeyIndex(Key(Digits59[0].code)) == 31;
    assert KeyIndex(Key(Digits59[1].code)) == 32;
    assert KeyIndex(Key(Digits59[2].code)) == 33;
    assert KeyIndex(Key(Digits59[3].code)) == 34;
    assert KeyIndex(Key(Digits59[4].code)) == 35;
  }

  lemma Marks1Keys()
    ensures KeysFrom(Marks1, 36)
  {
    assert KeyIndex(Key(Marks1[0].code)) == 36;
    assert KeyIndex(Key(Marks1[1].code)) == 37;
    assert KeyIndex(Key(Marks1[2].code)) == 38;
    assert KeyIndex(Key(Marks1[3].code)) == 39;
    assert KeyIndex(Key(Marks1[4].code)) == 40;
  }

  lemma Marks2Keys()
    ensures KeysFrom(Marks2, 41)
  {
    assert KeyIndex(Key(Marks2[0].code)) == 41;
    assert KeyIndex(Key(Marks2[1].code)) == 42;
    assert KeyIndex(Key(Marks2[2].code)) == 43;
    assert KeyIndex(Key(Marks2[3].code)) == 44;
    assert KeyIndex(Key(Marks2[4].code)) == 45;
  }

  lemma Marks3Keys()
    ensures KeysFrom(Marks3, 46)
  {
    assert KeyIndex(Key(Marks3[0].code)) == 46;
    assert KeyIndex(Key(Marks3[1].code)) == 47;
    assert KeyIndex(Key(Marks3[2].code)) == 48;
    assert KeyIndex(Key(Marks3[3].code)) == 49;
    assert KeyIndex(Key(Marks3[4].code)) == 50;
  }

  lemma Marks4Keys()
    ensures KeysFrom(Marks4, 51)
  {
    assert KeyIndex(Key(Marks4[0].code)) == 51;
    assert KeyIndex(Key(Marks4[1].code)) == 52;
    assert KeyIndex(Key(Marks4[2].code)) == 53;
  }

  /** Every entry's key leads back to the entry. */
  lemma TableKeys()
    ensures forall i | 0 <= i < |Table| :: KeyIndex(Key(Table[i].code)) == i
  {
    LettersAFKeys();
    LettersGLKeys();
    LettersMRKeys();
    LettersSXKeys();
    LettersYZKeys();
    Digits04Keys();
    Digits59Keys();
    Marks1Keys();
    Marks2Keys();
    Marks3Keys();
    Marks4Keys();
    KeysAppend(LettersAF, LettersGL, 0);
    KeysAppend(LettersAF + LettersGL, LettersMR, 0);
    KeysAppend(LettersAF + LettersGL + LettersMR, LettersSX, 0);
    KeysAppend(LettersAF + LettersGL + LettersMR + LettersSX, LettersYZ, 0);
    KeysAppend(Digits04, Digits59, 26);
    KeysAppend(Marks1, Marks2, 36);
    KeysAppend(Marks1 + Marks2, Marks3, 36);
    KeysAppend(Marks1 + Marks2 + Marks3, Marks4, 36);
    KeysAppend(Letters, Digits, 0);
    KeysAppend(Letters + Digits, Punctuation, 0);
    assert KeysFrom([SpaceEntry], 54);
    KeysAppend(Letters + Digits + Punctuation, [SpaceEntry], 0);
  }

  /** No two entries share a code, so the code-to-character lookup can give
      back every character. */
  lemma CodesDistinct()
    ensures DistinctCodes(Table)
  {
    TableKeys();
  }

  // ------------------------------------------------------ characters and codes

  /** The upper-case letters, the digits and the punctuation the table
      supports, the space last. */
  const UpperLetters: string := "ABCDEFGHIJKLMNOPQRSTUVWXYZ"
  const DigitLetters: string := "0123456789"
  const Marks: string := ".,?'!/()&:;=+-_\"$@ "

  /** The characters of part are those of text, in order. */
  predicate Spells(part: seq<Entry>, text: string) {
    |part| == |text| && forall i | 0 <= i < |part| :: part[i].ch == text[i]
  }

  lemma SpellsAppend(a: seq<Entry>, b: seq<Entry>, ta: string, tb: string)
    requires Spells(a, ta) && Spells(b, tb)
    ensures Spells(a + b, ta + tb)
  {
  }

  /** A code the decoder can buffer whole: one to seven dots and dashes. */
  predicate IsCode(w: string) {
    0 < |w| <= 7 && forall k | 0 <= k < |w| :: w[k] == '.' || w[k] == '-'
  }

  predicate Coded(part: seq<Entry>) {
    forall i | 0 <= i < |part| :: IsCode(part[i].code)
  }

  lemma LetterRowsSpell()
    ensures Spells(LettersAF, "ABCDEF") && Spells(LettersGL, "GHIJKL") && Spells(LettersMR, "MNOPQR")
    ensures Spells(LettersSX, "STUVWX") && Spells(LettersYZ, "YZ")
  {
  }

  lemma LettersSpell()
    ensures Spells(Letters, UpperLetters)
  {
    LetterRowsSpell();
    SpellsAppend(LettersAF, LettersGL, "ABCDEF", "GHIJKL");
    SpellsAppend(LettersAF + LettersGL, LettersMR, "ABCDEFGHIJKL", "MNOPQR");
    SpellsAppend(LettersAF + LettersGL + LettersMR, LettersSX, "ABCDEFGHIJKLMNOPQR", "STUVWX");
    SpellsAppend(LettersAF + LettersGL + LettersMR + LettersSX, LettersYZ, "ABCDEFGHIJKLMNOPQRSTUVWX", "YZ");
  }

  lemma DigitsSpell()
    ensures Spells(Digits, DigitLetters)
  {
    assert Spells(Digits04, "01234");
    assert Spells(Digits59, "56789");
    SpellsAppend(Digits04, Digits59, "01234", "56789");
  }

  lemma MarksSpell()
    ensures Spells(Punctuation + [SpaceEntry], Marks)
  {
    assert Spells(Marks1, ".,?'!");
    assert Spells(Marks2, "/()&:");
    assert Spells(Marks3, ";=+-_");
    assert Spells(Marks4, "\"$@");
    SpellsAppend(Marks1, Marks2, ".,?'!", "/()&:");
    SpellsAppend(Marks1 + Marks2, Marks3, ".,?'!/()&:", ";=+-_");
    SpellsAppend(Marks1 + Marks2 + Marks3, Marks4, ".,?'!/()&:;=+-_", "\"$@");
    SpellsAppend(Punctuation, [SpaceEntry], ".,?'!/()&:;=+-_\"$@", " ");
  }

  lemma CodedAppend(a: seq<Entry>, b: seq<Entry>)
    requires Coded(a) && Coded(b)
    ensures Coded(a + b)
  {
    forall i | 0 <= i < |a + b|
      ensures IsCode((a + b)[i].code)
    {
      if i >= |a| {
        assert (a + b)[i] == b[i - |a|];
      }
    }
  }

  lemma LetterRowsCodedLow()
    ensures Coded(LettersAF) && Coded(LettersGL) && Coded(LettersMR)
  {
  }

  lemma LetterRowsCodedHigh()
    ensures Coded(LettersSX) && Coded(LettersYZ)
  {
  }

  lemma LettersCoded()
    ensures Coded(Letters)
  {
    LetterRowsCodedLow();
    LetterRowsCodedHigh();
    CodedAppend(LettersAF, LettersGL);
    CodedAppend(LettersAF + LettersGL, LettersMR);
    CodedAppend(LettersAF + LettersGL + LettersMR, LettersSX);
    CodedAppend(LettersAF + LettersGL + LettersMR + LettersSX, LettersYZ);
  }

  lemma DigitsCoded()
    ensures Coded(Digits)
  {
    assert Coded(Digits04);
    assert Coded(Digits59);
    CodedAppend(Digits04, Digits59);
  }

  lemma MarkRowsCodedLow()
    ensures Coded(Marks1) && Coded(Marks2)
  {
  }

  lemma MarkRowsCodedHigh()
    ensures Coded(Marks3) && Coded(Marks4)
  {
  }

  lemma PunctuationCoded()
    ensures Coded(Punctuation)
  {
    MarkRowsCodedLow();
    MarkRowsCodedHigh();
    CodedAppend(Marks1, Marks2);
    CodedAppend(Marks1 + Marks2, Marks3);
    CodedAppend(Marks1 + Marks2 + Marks3, Marks4);
  }

  /** The characters of the whole table, in order. */
  lemma TableSpells()
    ensures Spells(Table, UpperLetters + DigitLetters + Marks)
  {
    LettersSpell();
    DigitsSpell();
    MarksSpell();
    SpellsAppend(Letters, Digits, UpperLetters, DigitLetters);
    SpellsAppend(Letters + Digits, Punctuation + [SpaceEntry], UpperLetters + DigitLetters, Marks);
    assert Table == Letters + Digits + (Punctuation + [SpaceEntry]);
  }

  /** Every entry but the last (the space) has a code of dots and dashes. */
  lemma TableCoded()
    ensures |Table| == 55 && Coded(Table[..54])
  {
    LettersCoded();
    DigitsCoded();
    PunctuationCoded();
    CodedAppend(Letters, Digits);
    CodedAppend(Letters + Digits, Punctuation);
    assert Table[..54] == Letters + Digits + Punctuation;
  }

  // ------------------------------------------------------ lookups

  /** The index of the first entry of t from i on whose character is c,
      |t| when there is none. */
  function FirstWithChar(t: seq<Entry>, c: char, i: nat): (r: nat)
    requires i <= |t|
    ensures i <= r <= |t|
    ensures r < |t| ==> t[r].ch == c
    ensures forall j | i <= j < r :: t[j].ch != c
    decreases |t| - i
  {
    if i == |t| || t[i].ch == c then i else FirstWithChar(t, c, i + 1)
  }

  /** The index of the first entry of t from i on whose code is code. */
  function FirstWithCode(t: seq<Entry>, code: string, i: nat): (r: nat)
    requires i <= |t|
    ensures i <= r <= |t|
    ensures r < |t| ==> t[r].code == code
    ensures forall j | i <= j < r :: t[j].code != code
    decreases |t| - i
  {
    if i == |t| || t[i].code == code then i else FirstWithCode(t, code, i + 1)
  }

  /** char_to_morse: the code of the character after toupper, None when the
      table has no entry for it. */
  function CharToMorse(c: char): Option<string> {
    var i := FirstWithChar(Table, ToUpper(c), 0);
    if i < |Table| then Some(Table[i].code) else None
  }

  /** A code is found exactly when some entry has the upper-cased character,
      and it is that entry's code. */
  lemma CharToMorseMeaning(c: char)
    ensures CharToMorse(c).Some? <==> exists i | 0 <= i < |Table| :: Table[i].ch == ToUpper(c)
    ensures CharToMorse(c).Some? ==>
              exists i | 0 <= i < |Table| :: Table[i] == Entry(ToUpper(c), CharToMorse(c).value)
  {
  }

  /** morse_to_char: the character of the first entry with this code, '?'
      for a code the table does not have. */
  function MorseToChar(code: string): char {
    var i := FirstWithCode(Table, code, 0);
    if i < |Table| then Table[i].ch else '?'
  }

  /** An unknown code gives '?'; any other answer is the character of an
      entry with that code. */
  lemma MorseToCharMeaning(code: string)
    ensures (forall i | 0 <= i < |Table| :: Table[i].code != code) ==> MorseToChar(code) == '?'
    ensures MorseToChar(code) == '?' || exists i | 0 <= i < |Table| :: Table[i] == Entry(MorseToChar(code), code)
  {
  }

  /** The characters the tool supports, independently of the table: the
      letters of either case, the digits and the listed marks and space. */
  predicate Supported(c: char) {
    var u := ToUpper(c);
    IsUpper(u) || IsDigit(u) || u in Marks
  }

  lemma UpperLettersRange()
    ensures forall i | 0 <= i < 26 :: UpperLetters[i] as int == 'A' as int + i
  {
  }

  lemma DigitLettersRange()
    ensures forall i | 0 <= i < 10 :: DigitLetters[i] as int == '0' as int + i
  {
  }

  /** The table's characters are exactly the supported upper-case ones. */
  lemma SupportedChars(u: char)
    ensures u in UpperLetters + DigitLetters + Marks <==> IsUpper(u) || IsDigit(u) || u in Marks
  {
    if IsUpper(u) || IsDigit(u) || u in Marks {
      SupportedInTable(u);
    }
    if u in UpperLetters + DigitLetters + Marks {
      TableCharsSupported(u);
    }
  }

  lemma SupportedInTable(u: char)
    requires IsUpper(u) || IsDigit(u) || u in Marks
    ensures u in UpperLetters + DigitLetters + Marks
  {
    var all := UpperLetters + DigitLetters + Marks;
    if IsUpper(u) {
      var k := u as int - 'A' as int;
      LetterAt(k);
      assert all[k] == UpperLetters[k];
    } else if IsDigit(u) {
      var k := u as int - '0' as int;
      DigitAt(k);
      assert all[26 + k] == DigitLetters[k];
    } else {
      var k :| 0 <= k < |Marks| && Marks[k] == u;
      assert all[36 + k] == Marks[k];
    }
  }

  lemma LetterAt(k: int)
    requires 0 <= k < 26
    ensures UpperLetters[k] == ('A' as int + k) as char
  {
    UpperLettersRange();
  }

  lemma DigitAt(k: int)
    requires 0 <= k < 10
    ensures DigitLetters[k] == ('0' as int + k) as char
  {
    DigitLettersRange();
  }

  lemma TableCharsSupported(u: char)
    requires u in UpperLetters + DigitLetters + Marks
    ensures IsUpper(u) || IsDigit(u) || u in Marks
  {
    var all := UpperLetters + DigitLetters + Marks;
    var k :| 0 <= k < |all| && all[k] == u;
    if k < 26 {
      UpperLettersRange();
      assert UpperLetters[k] == u;
    } else if k < 36 {
      DigitLettersRange();
      assert DigitLetters[k - 26] == u;
    } else {
      assert Marks[k - 36] == u;
    }
  }

  lemma SpellsHas(t: seq<Entry>, text: string, u: char)
    requires Spells(t, text)
    ensures (exists i | 0 <= i < |t| :: t[i].ch == u) <==> u in text
  {
    if u in text {
      var k :| 0 <= k < |text| && text[k] == u;
      assert t[k].ch == u;
    }
  }

  /** Only letters (either case), digits and the table's marks have a code. */
  lemma SupportedIff(c: char)
    ensures CharToMorse(c).Some? <==> Supported(c)
  {
    CharToMorseMeaning(c);
    TableSpells();
    SpellsHas(Table, UpperLetters + DigitLetters + Marks, ToUpper(c));
    SupportedChars(ToUpper(c));
  }

  /** No two entries of t share a code. */
  predicate DistinctCodes(t: seq<Entry>) {
    forall i, j | 0 <= i < j < |t| :: t[i].code != t[j].code
  }

  lemma FirstWithCodeDistinct(t: seq<Entry>, i: nat)
    requires DistinctCodes(t) && i < |t|
    ensures FirstWithCode(t, t[i].code, 0) == i
  {
  }

  /** Since codes are distinct, every entry's code decodes to its character. */
  lemma MorseToCharEntry(i: nat)
    requires i < |Table|
    ensures MorseToChar(Table[i].code) == Table[i].ch
  {
    CodesDistinct();
    FirstWithCodeDistinct(Table, i);
  }

  /** Decoding the code of a supported character gives it back upper-cased. */
  lemma CharRoundTrip(c: char)
    requires CharToMorse(c).Some?
    ensures MorseToChar(CharToMorse(c).value) == ToUpper(c)
  {
    CharToMorseMeaning(c);
    var i :| 0 <= i < |Table| && Table[i] == Entry(ToUpper(c), CharToMorse(c).value);
    MorseToCharEntry(i);
  }

  // ------------------------------------------------------ encode_morse

  /** The separators main passes when -s and -w are not given. */
  const DefaultSep: string := " "
  const DefaultWordSep: string := " / "

  /** first_char and word_started of encode_morse. */
  datatype EncState = EncState(firstChar: bool, wordStarted: bool)

  const EncStart: EncState := EncState(true, false)

  /** Text written for one input character and the state after it. */
  datatype EncStep = EncStep(text: string, next: EncState)

  /** One character of encode_morse: a newline is copied and starts afresh; an
      unsupported character is skipped; a space writes the word separator
      only when a code has been written since the last one; any other
      character writes its code, after the character separator unless it
      starts a word. */
  function EncodeChar(st: EncState, c: char, sep: string, wordSep: string): EncStep {
    if c == '\n' then EncStep("\n", EncStart)
    else match CharToMorse(c)
      case None => EncStep("", st)
      case Some(code) =>
        if c == ' ' then
          EncStep(if st.wordStarted then wordSep else "", EncState(true, false))
        else
          EncStep((if st.firstChar then "" else sep) + code, EncState(false, true))
  }

  function EncodeRun(st: EncState, s: string, sep: string, wordSep: string): string
    decreases |s|
  {
    if |s| == 0 then ""
    else
      var h := EncodeChar(st, s[0], sep, wordSep);
      h.text + EncodeRun(h.next, s[1..], sep, wordSep)
  }

  /** encode_morse: the whole input, then a final newline. */
  function Encode(s: string, sep: string, wordSep: string): (r: string)
    ensures |r| > 0 && r[|r| - 1] == '\n'
  {
    EncodeRun(EncStart, s, sep, wordSep) + "\n"
  }

  /** The text a reader of the Morse output can recover, defined without the
      table: supported characters upper-cased, other characters dropped,
      spaces at the start of a line dropped and every run of spaces after
      a character squeezed to one. inWord says a character has been kept
      since the last space or newline. */
  function NormalizeFrom(inWord: bool, s: string): string
    decreases |s|
  {
    if |s| == 0 then ""
    else if s[0] == '\n' then "\n" + NormalizeFrom(false, s[1..])
    else if !Supported(s[0]) then NormalizeFrom(inWord, s[1..])
    else if s[0] == ' ' then (if inWord then " " else "") + NormalizeFrom(false, s[1..])
    else [ToUpper(s[0])] + NormalizeFrom(true, s[1..])
  }

  function Normalize(s: string): string {
    NormalizeFrom(false, s)
  }

  /** A character normalized text may hold: a newline or a supported
      character that is not lower-case. */
  predicate NormalChar(c: char) {
    c == '\n' || (Supported(c) && !IsLower(c))
  }

  /** Normalized text holds only newlines and supported characters, none of
      them lower-case. */
  lemma {:induction false} NormalizeChars(inWord: bool, s: string)
    ensures forall i | 0 <= i < |NormalizeFrom(inWord, s)| :: NormalChar(NormalizeFrom(inWord, s)[i])
    decreases |s|
  {
    if |s| > 0 {
      var c := s[0];
      var next := if c == '\n' || (Supported(c) && c == ' ') then false
                  else if !Supported(c) then inWord else true;
      NormalizeChars(next, s[1..]);
      var rest := NormalizeFrom(next, s[1..]);
      var r := NormalizeFrom(inWord, s);
      var head: string;
      if c == '\n' {
        head := "\n";
      } else if !Supported(c) {
        head := "";
      } else if c == ' ' {
        head := if inWord then " " else "";
        assert Marks[18] == ' ';
        assert NormalChar(' ');
      } else {
        head := [ToUpper(c)];
        assert ToUpper(ToUpper(c)) == ToUpper(c);
      }
      assert r == head + rest;
      assert forall i | 0 <= i < |head| :: NormalChar(head[i]);
    }
  }

  /** No space follows a space or a newline in normalized text, and none
      starts it unless a word is open. */
  lemma {:induction false} NormalizeSpaces(inWord: bool, s: string)
    ensures var r := NormalizeFrom(inWord, s);
            && (forall i | 0 <= i < |r| - 1 :: r[i] == ' ' || r[i] == '\n' ==> r[i + 1] != ' ')
            && (!inWord && |r| > 0 ==> r[0] != ' ')
    decreases |s|
  {
    if |s| > 0 {
      var c := s[0];
      var next := if c == '\n' || (Supported(c) && c == ' ') then false
                  else if !Supported(c) then inWord else true;
      NormalizeSpaces(next, s[1..]);
      var rest := NormalizeFrom(next, s[1..]);
      var r := NormalizeFrom(inWord, s);
      if c == '\n' {
        assert r == "\n" + rest;
      } else if !Supported(c) {
      } else if c == ' ' {
        assert r == (if inWord then " " else "") + rest;
      } else {
        assert r == [ToUpper(c)] + rest;
      }
    }
  }

  /** Morse text for normalized text t: newlines kept, a space as the word
      separator, and each other character as its code, preceded by the
      character separator exactly when a code came just before it. */
  function Render(t: string, afterCode: bool, sep: string, wordSep: string): string
    decreases |t|
  {
    if |t| == 0 then ""
    else if t[0] == '\n' then "\n" + Render(t[1..], false, sep, wordSep)
    else if t[0] == ' ' then wordSep + Render(t[1..], false, sep, wordSep)
    else match CharToMorse(t[0])
      case None => Render(t[1..], afterCode, sep, wordSep)
      case Some(code) => (if afterCode then sep else "") + code + Render(t[1..], true, sep, wordSep)
  }

  /** What one character makes the encoder write, by kind of character. */
  lemma EncodeCharCases(st: EncState, c: char, sep: string, wordSep: string)
    ensures var h := EncodeChar(st, c, sep, wordSep);
      if c == '\n' then h == EncStep("\n", EncStart)
      else if !Supported(c) then h == EncStep("", st)
      else if c == ' ' then h == EncStep(if st.wordStarted then wordSep else "", EncState(true, false))
      else CharToMorse(c).Some? &&
           h == EncStep((if st.firstChar then "" else sep) + CharToMorse(c).value, EncState(false, true))
  {
    SupportedIff(c);
  }

  /** The encoder writes exactly the rendering of the normalized text: codes
      within a word are joined by one separator with none before the first,
      a run of spaces gives one word separator and only after a code, and
      unsupported characters leave no trace. */
  lemma {:induction false} EncodeRender(st: EncState, s: string, sep: string, wordSep: string)
    requires st.firstChar == !st.wordStarted
    ensures EncodeRun(st, s, sep, wordSep) == Render(NormalizeFrom(st.wordStarted, s), st.wordStarted, sep, wordSep)
    decreases |s|
  {
    if |s| > 0 {
      var c := s[0];
      var h := EncodeChar(st, c, sep, wordSep);
      EncodeRender(h.next, s[1..], sep, wordSep);
      EncodeCharCases(st, c, sep, wordSep);
      RenderStep(st.wordStarted, s, sep, wordSep);
    }
  }

  /** One step of the normalized text's rendering, by kind of character. */
  lemma RenderStep(inWord: bool, s: string, sep: string, wordSep: string)
    requires |s| > 0
    ensures var c := s[0];
      var r := Render(NormalizeFrom(inWord, s), inWord, sep, wordSep);
      if c == '\n' then r == "\n" + Render(NormalizeFrom(false, s[1..]), false, sep, wordSep)
      else if !Supported(c) then r == Render(NormalizeFrom(inWord, s[1..]), inWord, sep, wordSep)
      else if c == ' ' then
        r == (if inWord then wordSep else "") + Render(NormalizeFrom(false, s[1..]), false, sep, wordSep)
      else
        CharToMorse(c).Some? &&
        r == (if inWord then sep else "") + CharToMorse(c).value + Render(NormalizeFrom(true, s[1..]), true, sep, wordSep)
  {
    var c := s[0];
    if c == '\n' {
      var rest := NormalizeFrom(false, s[1..]);
      assert NormalizeFrom(inWord, s) == "\n" + rest;
      assert ("\n" + rest)[1..] == rest;
    } else if !Supported(c) {
    } else if c == ' ' {
      var rest := NormalizeFrom(false, s[1..]);
      if inWord {
        assert NormalizeFrom(inWord, s) == " " + rest;
        assert (" " + rest)[1..] == rest;
      } else {
        assert NormalizeFrom(inWord, s) == rest;
      }
    } else {
      RenderLetter(inWord, s, sep, wordSep);
    }
  }

  lemma RenderLetter(inWord: bool, s: string, sep: string, wordSep: string)
    requires |s| > 0 && s[0] != '\n' && s[0] != ' ' && Supported(s[0])
    ensures CharToMorse(s[0]).Some?
    ensures Render(NormalizeFrom(inWord, s), inWord, sep, wordSep) ==
      (if inWord then sep else "") + CharToMorse(s[0]).value + Render(NormalizeFrom(true, s[1..]), true, sep, wordSep)
  {
    var c := s[0];
    var rest := NormalizeFrom(true, s[1..]);
    var t := [ToUpper(c)] + rest;
    assert NormalizeFrom(inWord, s) == t;
    assert t[0] == ToUpper(c) && t[1..] == rest;
    SupportedIff(c);
    SupportedIff(ToUpper(c));
    assert CharToMorse(ToUpper(c)) == CharToMorse(c);
  }

  /** Every character but the space has a code of dots and dashes. */
  lemma CodeOfLetter(c: char)
    requires CharToMorse(c).Some? && c != ' '
    ensures IsCode(CharToMorse(c).value)
  {
    CharToMorseMeaning(c);
    var i :| 0 <= i < |Table| && Table[i] == Entry(ToUpper(c), CharToMorse(c).value);
    TableSpells();
    TableCoded();
    assert Table[54].ch == Marks[18] == ' ';
    assert Table[..54][i] == Table[i];
  }

  // ------------------------------------------------------ decode_morse

  /** morse_buffer has room for nine symbols and the terminator. */
  const BufferSize: nat := 9

  /** Text written for a stretch of input and the symbols buffered after it. */
  datatype DecStep = DecStep(out: string, buffer: string)

  /** The buffered code, if any, written as one character. */
  function Flush(buffer: string): string {
    if |buffer| > 0 then [MorseToChar(buffer)] else ""
  }

  /** One character of decode_morse: a space or tab ends a code, '/' ends
      it and writes a space, a newline ends it and is copied, a dot or dash
      is buffered while there is room and dropped otherwise, and anything
      else is ignored. */
  function DecodeChar(buffer: string, c: char): (r: DecStep)
    requires |buffer| <= BufferSize
    ensures |r.buffer| <= BufferSize
  {
    if c == ' ' || c == '\t' then DecStep(Flush(buffer), "")
    else if c == '/' then DecStep(Flush(buffer) + " ", "")
    else if c == '\n' then DecStep(Flush(buffer) + "\n", "")
    else if c == '.' || c == '-' then
      DecStep("", if |buffer| < BufferSize then buffer + [c] else buffer)
    else DecStep("", buffer)
  }

  function Loop(buffer: string, s: string): (r: DecStep)
    requires |buffer| <= BufferSize
    ensures |r.buffer| <= BufferSize
    decreases |s|
  {
    if |s| == 0 then DecStep("", buffer)
    else
      var h := DecodeChar(buffer, s[0]);
      var t := Loop(h.buffer, s[1..]);
      DecStep(h.out + t.out, t.buffer)
  }

  /** Decoding from a given buffer: the loop, the code left in the buffer,
      then a newline. */
  function Run(buffer: string, s: string): (r: string)
    requires |buffer| <= BufferSize
    ensures |r| > 0 && r[|r| - 1] == '\n'
  {
    var d := Loop(buffer, s);
    d.out + Flush(d.buffer) + "\n"
  }

  /** decode_morse. */
  function Decode(s: string): (r: string)
    ensures |r| > 0 && r[|r| - 1] == '\n'
  {
    Run("", s)
  }

  lemma {:induction false} LoopAppend(buffer: string, a: string, b: string)
    requires |buffer| <= BufferSize
    ensures Loop(buffer, a + b) ==
              var x := Loop(buffer, a);
              var y := Loop(x.buffer, b);
              DecStep(x.out + y.out, y.buffer)
    decreases |a|
  {
    if |a| == 0 {
      assert a + b == b;
    } else {
      var h := DecodeChar(buffer, a[0]);
      assert (a + b)[0] == a[0];
      assert (a + b)[1..] == a[1..] + b;
      LoopAppend(h.buffer, a[1..], b);
      var x := Loop(h.buffer, a[1..]);
      var y := Loop(x.buffer, b);
      ConcatAssoc(h.out, x.out, y.out);
    }
  }

  lemma RunAppend(buffer: string, a: string, b: string)
    requires |buffer| <= BufferSize
    ensures Run(buffer, a + b) == Loop(buffer, a).out + Run(Loop(buffer, a).buffer, b)
  {
    LoopAppend(buffer, a, b);
    var x := Loop(buffer, a);
    var y := Loop(x.buffer, b);
    ConcatAssoc(x.out, y.out, Flush(y.buffer));
    ConcatAssoc(x.out, y.out + Flush(y.buffer), "\n");
  }

  /** The characters decode_morse reacts to. */
  predicate Meaningful(c: char) {
    c == ' ' || c == '\t' || c == '/' || c == '\n' || c == '.' || c == '-'
  }

  function Filter(s: string): (r: string)
    ensures forall i | 0 <= i < |r| :: Meaningful(r[i])
    decreases |s|
  {
    if |s| == 0 then ""
    else if Meaningful(s[0]) then [s[0]] + Filter(s[1..])
    else Filter(s[1..])
  }

  /** Characters other than spaces, tabs, slashes, newlines, dots and
      dashes make no difference to the output. */
  lemma {:induction false} LoopFilter(buffer: string, s: string)
    requires |buffer| <= BufferSize
    ensures Loop(buffer, Filter(s)) == Loop(buffer, s)
    decreases |s|
  {
    if |s| > 0 {
      var h := DecodeChar(buffer, s[0]);
      LoopFilter(h.buffer, s[1..]);
      if Meaningful(s[0]) {
        assert ([s[0]] + Filter(s[1..]))[1..] == Filter(s[1..]);
      }
    }
  }

  lemma DecodeIgnores(s: string)
    ensures Decode(Filter(s)) == Decode(s)
  {
    LoopFilter("", s);
  }

  /** Only dots and dashes. */
  predicate AllSymbols(w: string) {
    forall k | 0 <= k < |w| :: w[k] == '.' || w[k] == '-'
  }

  /** The first nine symbols, all of them when there are fewer. */
  function Truncate(w: string): (r: string)
    ensures |r| <= BufferSize
  {
    if |w| <= BufferSize then w else w[..BufferSize]
  }

  /** A run of dots and dashes only fills the buffer, keeping its first
      nine symbols. */
  lemma {:induction false} LoopSymbols(buffer: string, w: string)
    requires |buffer| <= BufferSize && AllSymbols(w)
    ensures Loop(buffer, w) == DecStep("", Truncate(buffer + w))
    decreases |w|
  {
    if |w| > 0 {
      var h := DecodeChar(buffer, w[0]);
      LoopSymbols(h.buffer, w[1..]);
      if |buffer| < BufferSize {
        assert h.buffer + w[1..] == buffer + w;
      } else {
        assert Truncate(buffer + w[1..]) == buffer == Truncate(buffer + w);
      }
    }
  }

  /** A code longer than nine symbols is read as its first nine. */
  lemma DecodeLongCode(w: string)
    requires AllSymbols(w) && |w| > 0
    ensures Decode(w) == [MorseToChar(Truncate(w))] + "\n"
  {
    LoopSymbols("", w);
    assert "" + w == w;
  }

  // ------------------------------------------------------ round trip

  /** The decoder's buffer against the encoder's state: both flags agree, and
      at the start of a word the buffer is empty. */
  predicate InSync(st: EncState, buffer: string) {
    st.firstChar == !st.wordStarted && (!st.wordStarted ==> buffer == "") && |buffer| <= BufferSize
  }

  /** The decoder reads back one character's worth of the encoder's output
      with the default separators. */
  lemma SyncStep(st: EncState, buffer: string, s: string)
    requires InSync(st, buffer) && |s| > 0
    ensures var h := EncodeChar(st, s[0], DefaultSep, DefaultWordSep);
            var d := Loop(buffer, h.text);
            InSync(h.next, d.buffer) &&
            Flush(buffer) + NormalizeFrom(st.wordStarted, s) ==
              d.out + Flush(d.buffer) + NormalizeFrom(h.next.wordStarted, s[1..])
  {
    var c := s[0];
    EncodeCharCases(st, c, DefaultSep, DefaultWordSep);
    if c == '\n' {
      SyncNewline(st, buffer, s);
    } else if !Supported(c) {
      assert Loop(buffer, "") == DecStep("", buffer);
    } else if c == ' ' {
      SyncSpace(st, buffer, s);
    } else {
      SyncLetter(st, buffer, s);
    }
  }

  lemma SyncNewline(st: EncState, buffer: string, s: string)
    requires InSync(st, buffer) && |s| > 0 && s[0] == '\n'
    ensures var d := Loop(buffer, "\n");
            d == DecStep(Flush(buffer) + "\n", "") &&
            Flush(buffer) + NormalizeFrom(st.wordStarted, s) == d.out + Flush(d.buffer) + NormalizeFrom(false, s[1..])
  {
    assert Loop("", "") == DecStep("", "");
    assert NormalizeFrom(st.wordStarted, s) == "\n" + NormalizeFrom(false, s[1..]);
  }

  lemma SyncSpace(st: EncState, buffer: string, s: string)
    requires InSync(st, buffer) && |s| > 0 && s[0] == ' '
    ensures var h := EncodeChar(st, s[0], DefaultSep, DefaultWordSep);
            var d := Loop(buffer, h.text);
            InSync(h.next, d.buffer) &&
            Flush(buffer) + NormalizeFrom(st.wordStarted, s) ==
              d.out + Flush(d.buffer) + NormalizeFrom(h.next.wordStarted, s[1..])
  {
    EncodeCharCases(st, ' ', DefaultSep, DefaultWordSep);
    SupportedIff(' ');
    var rest := NormalizeFrom(false, s[1..]);
    if st.wordStarted {
      assert Loop("", "") == DecStep("", "");
      assert Loop("", " ") == DecStep("", "");
      assert Loop("", "/ ") == DecStep(" ", "");
      assert Loop(buffer, " / ") == DecStep(Flush(buffer) + " ", "");
      assert NormalizeFrom(true, s) == " " + rest;
    } else {
      assert Loop(buffer, "") == DecStep("", buffer);
      assert NormalizeFrom(false, s) == rest;
    }
  }

  lemma SyncLetter(st: EncState, buffer: string, s: string)
    requires InSync(st, buffer) && |s| > 0 && s[0] != '\n' && s[0] != ' ' && Supported(s[0])
    ensures var h := EncodeChar(st, s[0], DefaultSep, DefaultWordSep);
            var d := Loop(buffer, h.text);
            InSync(h.next, d.buffer) &&
            Flush(buffer) + NormalizeFrom(st.wordStarted, s) ==
              d.out + Flush(d.buffer) + NormalizeFrom(h.next.wordStarted, s[1..])
  {
    var c := s[0];
    EncodeCharCases(st, c, DefaultSep, DefaultWordSep);
    var code := CharToMorse(c).value;
    var h := EncodeChar(st, c, DefaultSep, DefaultWordSep);
    assert h.text == (if st.firstChar then "" else DefaultSep) + code && h.next == EncState(false, true);
    CodeOfLetter(c);
    CharRoundTrip(c);
    CodeAfterSeparator(buffer, code, st.firstChar);
    var d := Loop(buffer, h.text);
    assert d.out == Flush(buffer) && d.buffer == code;
    assert Flush(code) == [ToUpper(c)];
    assert NormalizeFrom(st.wordStarted, s) == [ToUpper(c)] + NormalizeFrom(true, s[1..]);
    Regroup(Flush(buffer), d.out, Flush(code), NormalizeFrom(st.wordStarted, s), NormalizeFrom(true, s[1..]));
  }

  /** The text of a step: what was flushed, then the new letter, then the
      rest. */
  lemma Regroup(flushed: string, out: string, letter: string, all: string, rest: string)
    requires out == flushed && all == letter + rest
    ensures flushed + all == out + letter + rest
  {
  }

  /** A code, after the default separator unless it starts a word, flushes
      the previous code and then sits whole in the buffer. */
  lemma CodeAfterSeparator(buffer: string, code: string, first: bool)
    requires |buffer| <= BufferSize && IsCode(code) && (first ==> buffer == "")
    ensures Loop(buffer, (if first then "" else DefaultSep) + code) ==
            DecStep(if first then "" else Flush(buffer), code)
  {
    LoopSymbols("", code);
    assert "" + code == code;
    if !first {
      var t := DefaultSep + code;
      assert t[0] == ' ' && t[1..] == code;
      assert Loop(buffer, t) == DecStep(Flush(buffer) + "", code);
    }
  }

  /** Decoding the encoder's output with the default separators gives back
      the normalized text, followed by the newline the encoder writes at the
      end and the one the decoder writes. */
  lemma {:induction false} RoundTripFrom(st: EncState, buffer: string, s: string)
    requires InSync(st, buffer)
    ensures Run(buffer, EncodeRun(st, s, DefaultSep, DefaultWordSep) + "\n") ==
            Flush(buffer) + NormalizeFrom(st.wordStarted, s) + "\n\n"
    decreases |s|
  {
    if |s| == 0 {
      assert EncodeRun(st, s, DefaultSep, DefaultWordSep) + "\n" == "\n";
      assert Loop("", "") == DecStep("", "");
      assert Loop(buffer, "\n") == DecStep(Flush(buffer) + "\n", "");
      assert Flush(buffer) + "\n" + Flush("") + "\n" == Flush(buffer) + "\n\n";
      assert Flush(buffer) + NormalizeFrom(st.wordStarted, s) == Flush(buffer);
    } else {
      var h := EncodeChar(st, s[0], DefaultSep, DefaultWordSep);
      var rest := EncodeRun(h.next, s[1..], DefaultSep, DefaultWordSep);
      assert EncodeRun(st, s, DefaultSep, DefaultWordSep) == h.text + rest;
      ConcatAssoc(h.text, rest, "\n");
      RunAppend(buffer, h.text, rest + "\n");
      var d := Loop(buffer, h.text);
      SyncStep(st, buffer, s);
      RoundTripFrom(h.next, d.buffer, s[1..]);
      var f := Flush(d.buffer);
      var n := NormalizeFrom(h.next.wordStarted, s[1..]);
      ConcatAssoc(d.out, f + n, "\n\n");
      ConcatAssoc(d.out, f, n);
    }
  }

  lemma RoundTrip(s: string)
    ensures Decode(Encode(s, DefaultSep, DefaultWordSep)) == Normalize(s) + "\n\n"
  {
    RoundTripFrom(EncStart, "", s);
  }
}
