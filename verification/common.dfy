/** Character classes and case mapping of C's <ctype.h> in the "C" locale.
    Every tool reads its input one byte at a time with fgetc; a byte is modelled
    as a Dafny char below 256 when it is text and as a `byte` when it is data. */
module CType {

  type byte = x: int | 0 <= x < 256

  /** isspace: space, tab, newline, vertical tab, form feed, carriage return. */
  predicate IsSpace(c: char) {
    c == ' ' || c == '\t' || c == '\n' || c == '\U{B}' || c == '\U{C}' || c == '\r'
  }

  predicate IsDigit(c: char) { '0' <= c <= '9' }

  predicate IsUpper(c: char) { 'A' <= c <= 'Z' }

  predicate IsLower(c: char) { 'a' <= c <= 'z' }

  predicate IsAlpha(c: char) { IsUpper(c) || IsLower(c) }

  function ToUpper(c: char): char {
    if IsLower(c) then (c as int - 32) as char else c
  }

  function ToLower(c: char): char {
    if IsUpper(c) then (c as int + 32) as char else c
  }

  /** The byte a char stands for when it is written to a binary stream. */
  function ByteOf(c: char): byte
    requires c as int < 256
  {
    c as int
  }

  function CharOf(b: byte): char {
    b as char
  }
}

/** Line wrapping shared by the ascii85, base85, binary and dna encoders:
    each symbol advances a column counter and, when wrapping is on (width > 0)
    and the counter reaches the width, a newline is written and the counter
    goes back to 0. */
module LineWrap {
  import opened Seqs

  /** Text written for a stretch of symbols and the column reached after it. */
  datatype Emitted = Emitted(text: string, col: nat)

  /** The text with its newlines removed, i.e. what a decoder that skips
      newlines actually looks at. */
  function Unwrap(s: string): (r: string)
    ensures |r| <= |s|
    ensures '\n' !in r
  {
    if |s| == 0 then []
    else if s[0] == '\n' then Unwrap(s[1..])
    else [s[0]] + Unwrap(s[1..])
  }

  lemma {:induction false} UnwrapAppend(a: string, b: string)
    ensures Unwrap(a + b) == Unwrap(a) + Unwrap(b)
    decreases |a|
  {
    if |a| == 0 {
      assert a + b == b;
    } else {
      assert (a + b)[1..] == a[1..] + b;
      UnwrapAppend(a[1..], b);
    }
  }

  lemma {:induction false} UnwrapNoNewline(s: string)
    requires '\n' !in s
    ensures Unwrap(s) == s
    decreases |s|
  {
    if |s| > 0 {
      assert '\n' !in s[1..];
      UnwrapNoNewline(s[1..]);
    }
  }

  /** One symbol written at column col (fputc, col++, then the wrap check). */
  function Put(col: nat, width: nat, c: char): Emitted {
    if width > 0 && col + 1 >= width then Emitted([c, '\n'], 0) else Emitted([c], col + 1)
  }

  /** The symbols of s written one after the other from column col. */
  function PutAll(col: nat, width: nat, s: string): (r: Emitted)
    ensures Unwrap(r.text) == Unwrap(s)
    ensures width == 0 ==> r.text == s && r.col == col + |s|
    ensures 0 < width && col < width ==> r.col < width
    decreases |s|
  {
    if |s| == 0 then Emitted([], col)
    else
      var h := Put(col, width, s[0]);
      var t := PutAll(h.col, width, s[1..]);
      UnwrapAppend(h.text, t.text);
      Emitted(h.text + t.text, t.col)
  }

  /** With wrapping on, the column is non-zero exactly when the text written
      so far leaves a line open: the last character written is not a newline
      (or nothing was written and the starting column was already non-zero). */
  lemma {:induction false} PutAllOpenLine(col: nat, width: nat, s: string)
    requires 0 < width && '\n' !in s
    ensures var r := PutAll(col, width, s);
            r.col > 0 <==> if |r.text| == 0 then col > 0 else r.text[|r.text| - 1] != '\n'
    decreases |s|
  {
    if |s| > 0 {
      assert '\n' !in s[1..];
      PutAllOpenLine(Put(col, width, s[0]).col, width, s[1..]);
    }
  }

  /** Reference layout for wrapping from column 0: full lines of exactly
      width symbols, each followed by a newline, then the remainder. */
  function Lines(s: string, width: nat): string
    requires width > 0
    decreases |s|
  {
    if |s| < width then s else s[..width] + "\n" + Lines(s[width..], width)
  }

  /** The layout PutAll is proved to produce from column col. */
  function Layout(col: nat, width: nat, s: string): string
    requires col < width
  {
    if |s| < width - col then s else s[..width - col] + "\n" + Lines(s[width - col..], width)
  }

  /** From column col the first line holds width - col symbols and every
      later line exactly width symbols, each full line ending in a newline. */
  lemma {:induction false} PutAllLayout(col: nat, width: nat, s: string)
    requires col < width
    ensures PutAll(col, width, s).text == Layout(col, width, s)
    decreases |s|
  {
    if |s| == 0 {
    } else if col + 1 >= width {
      PutAllLayout(0, width, s[1..]);
      LayoutAtLineEnd(col, width, s);
    } else {
      PutAllLayout(col + 1, width, s[1..]);
      LayoutInsideLine(col, width, s);
    }
  }

  lemma LayoutAtLineEnd(col: nat, width: nat, s: string)
    requires col < width && col + 1 >= width && |s| > 0
    requires PutAll(0, width, s[1..]).text == Layout(0, width, s[1..])
    ensures PutAll(col, width, s).text == Layout(col, width, s)
  {
    assert PutAll(col, width, s).text == [s[0], '\n'] + PutAll(0, width, s[1..]).text;
    assert Layout(0, width, s[1..]) == Lines(s[1..], width);
    assert s[..width - col] == [s[0]];
    assert s[width - col..] == s[1..];
  }

  lemma LayoutInsideLine(col: nat, width: nat, s: string)
    requires col + 1 < width && |s| > 0
    requires PutAll(col + 1, width, s[1..]).text == Layout(col + 1, width, s[1..])
    ensures PutAll(col, width, s).text == Layout(col, width, s)
  {
    assert PutAll(col, width, s).text == [s[0]] + PutAll(col + 1, width, s[1..]).text;
    if |s| >= width - col {
      LayoutLongLine(col, width, s);
    } else {
      assert [s[0]] + s[1..] == s;
    }
  }

  lemma LayoutLongLine(col: nat, width: nat, s: string)
    requires col + 1 < width && |s| >= width - col
    ensures Layout(col, width, s) == [s[0]] + Layout(col + 1, width, s[1..])
  {
    var k := width - col;
    assert s[..k] == [s[0]] + s[1..][..k - 1];
    assert s[k..] == s[1..][k - 1..];
    ConcatAssoc([s[0]], s[1..][..k - 1], "\n");
    ConcatAssoc([s[0]], s[1..][..k - 1] + "\n", Lines(s[k..], width));
  }

  /** Wrapping a concatenation is wrapping the first part, then the second
      from the column the first part reached. */
  lemma {:induction false} PutAllAppend(col: nat, width: nat, a: string, b: string)
    ensures PutAll(col, width, a + b) ==
              var ra := PutAll(col, width, a);
              var rb := PutAll(ra.col, width, b);
              Emitted(ra.text + rb.text, rb.col)
    decreases |a|
  {
    if |a| == 0 {
      assert a + b == b;
    } else {
      var h := Put(col, width, a[0]);
      assert (a + b)[0] == a[0];
      assert (a + b)[1..] == a[1..] + b;
      PutAllAppend(h.col, width, a[1..], b);
      var ra := PutAll(h.col, width, a[1..]);
      var rb := PutAll(ra.col, width, b);
      ConcatAssoc(h.text, ra.text, rb.text);
    }
  }
}

/** Small facts about sequences used by several codecs. */
module Seqs {

  lemma ConcatAssoc<T>(a: seq<T>, b: seq<T>, c: seq<T>)
    ensures (a + b) + c == a + (b + c)
  {
  }

  /** A non-empty sequence is its prefix followed by its last element. */
  lemma SplitLast<T>(s: seq<T>)
    requires |s| > 0
    ensures s[..|s| - 1] + [s[|s| - 1]] == s
  {
  }
}

/** A value that may be missing: the NULL returns and rejected parses of the
    C code. */
module Optional {
  datatype Option<T> = None | Some(value: T)
}

/** Decimal digit strings: the value strtol, strtoull and atoi read from a
    run of digits, and the digit string of a number. */
module Decimal {
  import opened CType

  predicate AllDigits(s: string) {
    forall i | 0 <= i < |s| :: IsDigit(s[i])
  }

  function DigitValue(c: char): (r: nat)
    requires IsDigit(c)
    ensures r < 10
  {
    c as int - '0' as int
  }

  function DigitChar(d: nat): (r: char)
    requires d < 10
    ensures IsDigit(r) && DigitValue(r) == d
  {
    ('0' as int + d) as char
  }

  /** `value = value * 10 + digit`, first digit first. */
  function Value(s: string): nat
    requires AllDigits(s)
    decreases |s|
  {
    if |s| == 0 then 0 else Value(s[..|s| - 1]) * 10 + DigitValue(s[|s| - 1])
  }

  /** The shortest digit string of n (what printf's %u writes). */
  function Show(n: nat): (r: string)
    ensures |r| > 0 && AllDigits(r)
    decreases n
  {
    if n < 10 then [DigitChar(n)] else Show(n / 10) + [DigitChar(n % 10)]
  }

  /** Reading back the digits of n gives n. */
  lemma {:induction false} ValueShow(n: nat)
    ensures Value(Show(n)) == n
    decreases n
  {
    if n >= 10 {
      ValueShow(n / 10);
      var s := Show(n);
      assert s[..|s| - 1] == Show(n / 10);
    }
  }

  /** The index just past the run of digits that starts at i. */
  function DigitsEnd(s: string, i: nat): (r: nat)
    requires i <= |s|
    ensures i <= r <= |s| && AllDigits(s[i..r])
    ensures r < |s| ==> !IsDigit(s[r])
    decreases |s| - i
  {
    if i < |s| && IsDigit(s[i]) then
      var r := DigitsEnd(s, i + 1);
      assert s[i..r] == [s[i]] + s[i + 1..r];
      r
    else i
  }
}

/** strtol and atoi from <stdlib.h>, in base 10. */
module CStdlib {
  import opened CType
  import opened Decimal

  /** The number of leading whitespace characters strtol skips. */
  function LeadingSpaces(s: string): (r: nat)
    ensures r <= |s| && forall i | 0 <= i < r :: IsSpace(s[i])
    ensures r < |s| ==> !IsSpace(s[r])
  {
    if |s| > 0 && IsSpace(s[0]) then 1 + LeadingSpaces(s[1..]) else 0
  }

  /** The value strtol converts and the index its end pointer is left at. */
  datatype Conversion = Conversion(value: int, end: nat)

  /** strtol(s, &end, 10): optional whitespace, an optional sign, then digits.
      Without any digit nothing is converted and the end pointer is s
      itself. */
  function Strtol(s: string): (r: Conversion)
    ensures r.end <= |s|
    ensures r.end > 0 ==> IsDigit(s[r.end - 1])
  {
    var i := LeadingSpaces(s);
    var neg := i < |s| && s[i] == '-';
    var j := if i < |s| && (s[i] == '-' || s[i] == '+') then i + 1 else i;
    var k := DigitsEnd(s, j);
    if k == j then Conversion(0, 0)
    else
      assert s[j..k][k - j - 1] == s[k - 1];
      var v := Value(s[j..k]);
      Conversion(if neg then -(v as int) else v, k)
  }

  lemma {:induction false} DigitsEndAll(s: string, i: nat)
    requires i <= |s| && AllDigits(s)
    ensures DigitsEnd(s, i) == |s|
    decreases |s| - i
  {
    if i < |s| {
      DigitsEndAll(s, i + 1);
    }
  }

  /** strtol reads a whole digit string as its value. */
  lemma StrtolDigits(s: string)
    requires |s| > 0 && AllDigits(s)
    ensures Strtol(s) == Conversion(Value(s), |s|)
  {
    assert LeadingSpaces(s) == 0 by {
      assert IsDigit(s[0]);
    }
    DigitsEndAll(s, 0);
    assert s[0..|s|] == s;
  }

  const IntMin: int := -0x8000_0000
  const IntMax: int := 0x7fff_ffff
  const LongMin: int := -0x8000_0000_0000_0000
  const LongMax: int := 0x7fff_ffff_ffff_ffff

  /** A long converted to a 32-bit int: its low 32 bits read in two's
      complement (GCC's definition of the conversion). */
  function ToInt(x: int): (r: int)
    ensures IntMin <= r <= IntMax
    ensures r % 0x1_0000_0000 == x % 0x1_0000_0000
    ensures IntMin <= x <= IntMax ==> r == x
  {
    var low := x % 0x1_0000_0000;
    if low <= IntMax then low else low - 0x1_0000_0000
  }

  /** atoi(s), which glibc computes as (int) strtol(s, NULL, 10): strtol
      clamps to the range of a 64-bit long, and the cast to int keeps the
      low 32 bits. */
  function Atoi(s: string): (r: int)
    ensures IntMin <= r <= IntMax
    ensures IntMin <= Strtol(s).value <= IntMax ==> r == Strtol(s).value
    ensures Strtol(s).value > LongMax ==> r == -1
    ensures Strtol(s).value < LongMin ==> r == 0
    ensures LongMin <= Strtol(s).value <= LongMax ==> r % 0x1_0000_0000 == Strtol(s).value % 0x1_0000_0000
  {
    var v := Strtol(s).value;
    ToInt(if v > LongMax then LongMax else if v < LongMin then LongMin else v)
  }
}
