/** The base85 tool's own command-line parser: parse_wrap_value, built on
    strtol in base 10, and parse_arguments. Arguments are C strings, so they
    contain no NUL character. */
module Z85Args {
  import opened CType
  import opened Optional
  import opened Decimal
  import opened CStdlib

  const DefaultWrap: nat := 76
  const MaxWrap: nat := 1000000

  predicate NoNul(s: string) {
    forall i | 0 <= i < |s| :: s[i] != '\0'
  }

  /** parse_wrap_value: the whole string must be converted and the value must
      lie in 0 .. MaxWrap. A value beyond the range of `long` makes strtol
      report an error; here it is simply out of range, with the same result. */
  function ParseWrap(s: string): (r: Option<nat>)
    ensures r.Some? ==> r.value <= MaxWrap
    ensures r.Some? && s != "" ==> IsDigit(s[|s| - 1])
    ensures s == "" ==> r == Some(0)
  {
    var c := Strtol(s);
    if c.end != |s| || c.value < 0 || c.value > MaxWrap then None else Some(c.value)
  }

  /** `--wrap=` with nothing after it sets the width to 0; a lone blank or
      sign is rejected, since strtol converts nothing and stops at once. */
  lemma ParseWrapDegenerate()
    ensures ParseWrap("") == Some(0)
    ensures ParseWrap(" ") == None && ParseWrap("+") == None && ParseWrap("-") == None
  {
    assert Strtol(" ").end == 0;
    assert Strtol("+").end == 0;
    assert Strtol("-").end == 0;
  }

  /** A digit string is read as its value: accepted exactly when the value
      is at most MaxWrap. */
  lemma ParseWrapDigits(s: string)
    requires |s| > 0 && AllDigits(s)
    ensures ParseWrap(s) == if Value(s) <= MaxWrap then Some(Value(s)) else None
  {
    StrtolDigits(s);
  }

  /** Every width the tool accepts is read back from its decimal form. */
  lemma ParseWrapShow(w: nat)
    ensures ParseWrap(Show(w)) == if w <= MaxWrap then Some(w) else None
  {
    ValueShow(w);
    ParseWrapDigits(Show(w));
  }

  /** A sign or leading blanks do not change the value read; a minus sign is
      accepted only in front of zero. */
  lemma ParseWrapPlus(s: string)
    requires |s| > 0 && AllDigits(s)
    ensures ParseWrap("+" + s) == ParseWrap(s)
  {
    ParseWrapDigits(s);
    var p := "+" + s;
    assert LeadingSpaces(p) == 0 by {
      assert p[0] == '+';
    }
    DigitsEndShift('+', s);
    assert p[1..|p|] == s;
  }

  lemma ParseWrapBlank(s: string)
    requires |s| > 0 && AllDigits(s)
    ensures ParseWrap(" " + s) == ParseWrap(s)
  {
    ParseWrapDigits(s);
    var b := " " + s;
    assert LeadingSpaces(b) == 1 by {
      assert b[1..][0] == s[0];
      assert LeadingSpaces(b[1..]) == 0;
    }
    assert b[1] == s[0];
    DigitsEndShift(' ', s);
    assert b[1..|b|] == s;
  }

  lemma ParseWrapMinus(s: string)
    requires |s| > 0 && AllDigits(s)
    ensures ParseWrap("-" + s) == if Value(s) == 0 then Some(0) else None
  {
    var m := "-" + s;
    assert LeadingSpaces(m) == 0 by {
      assert m[0] == '-';
    }
    DigitsEndShift('-', s);
    assert m[1..|m|] == s;
  }

  lemma DigitsEndShift(c: char, s: string)
    requires AllDigits(s)
    ensures DigitsEnd([c] + s, 1) == |s| + 1
  {
    var t := [c] + s;
    forall i | 1 <= i < |t| ensures IsDigit(t[i]) {
      assert t[i] == s[i - 1];
    }
    DigitsEndFrom(t, 1);
  }

  lemma {:induction false} DigitsEndFrom(t: string, i: nat)
    requires 1 <= i <= |t| && forall k | 1 <= k < |t| :: IsDigit(t[k])
    ensures DigitsEnd(t, i) == |t|
    decreases |t| - i
  {
    if i < |t| {
      DigitsEndFrom(t, i + 1);
    }
  }

  /** Anything after the digits makes the value invalid. */
  lemma ParseWrapTrailing(s: string, c: char)
    requires !IsDigit(c)
    ensures ParseWrap(s + [c]) == None
  {
    var t := s + [c];
    assert t[|t| - 1] == c;
  }

  // -------------------------------------------------------- parse_arguments

  datatype Options = Options(decode: bool, ignoreGarbage: bool, wrap: nat, input: Option<string>)

  const Defaults: Options := Options(false, false, DefaultWrap, None)

  datatype ArgError = MissingWrapArgument | InvalidWrap | InvalidOption(name: string) | TooManyArguments

  /** What parse_arguments leads to: options to run with, the help or
      version text (the tool exits at once), or an error. */
  datatype Outcome = Run(opts: Options) | Help | Version | Failed(err: ArgError)

  predicate StartsWith(s: string, p: string) {
    |p| <= |s| && s[..|p|] == p
  }

  /** What one argument is, checked in the order of parse_arguments. */
  datatype Arg =
    | DecodeFlag | IgnoreFlag
    | WrapNext                 // `-w` or `--wrap`: the value is the next argument
    | WrapInline(value: string) // `-wN` or `--wrap=N`
    | HelpFlag | VersionFlag
    | BadOption(name: string)  // any other word of two or more characters starting with `-`
    | Operand

  function Classify(a: string): (r: Arg)
    ensures r.Operand? <==> |a| < 2 || a[0] != '-'
    ensures r.BadOption? ==> r.name == a[1..]
  {
    if a == "-d" || a == "--decode" then DecodeFlag
    else if a == "-i" || a == "--ignore-garbage" then IgnoreFlag
    else if a == "-w" || a == "--wrap" then WrapNext
    else if StartsWith(a, "-w") then WrapInline(a[2..])
    else if StartsWith(a, "--wrap=") then WrapInline(a[7..])
    else if a == "--help" then HelpFlag
    else if a == "--version" then VersionFlag
    else if |a| >= 2 && a[0] == '-' then BadOption(a[1..])
    else Operand
  }

  /** The three spellings of a wrap option with its value attached or
      following, and the words that are neither options nor operands. */
  lemma ClassifyWrap(v: string)
    ensures Classify("-w" + v) == if v == "" then WrapNext else WrapInline(v)
    ensures Classify("--wrap=" + v) == WrapInline(v)
    ensures Classify("-w") == WrapNext && Classify("--wrap") == WrapNext
  {
    ClassifyShort(v);
    ClassifyLong(v);
  }

  lemma ClassifyShort(v: string)
    ensures Classify("-w" + v) == if v == "" then WrapNext else WrapInline(v)
  {
    var s := "-w" + v;
    assert s[..2] == "-w" && s[2..] == v;
    if v != "" {
      assert s[1] == 'w';
      assert s != "-d" && s != "--decode" && s != "-i" && s != "--ignore-garbage" && s != "--wrap";
    } else {
      assert s == "-w";
    }
  }

  lemma ClassifyLong(v: string)
    ensures Classify("--wrap=" + v) == WrapInline(v)
  {
    var l := "--wrap=" + v;
    assert l[..7] == "--wrap=" && l[7..] == v;
    assert l[1] == '-' && l[2] == 'w' && l[6] == '=';
    assert l != "-d" && l != "--decode" && l != "-i" && l != "--ignore-garbage";
    assert l != "-w" && l != "--wrap";
    assert !StartsWith(l, "-w") by {
      assert l[..2][1] == '-';
    }
  }

  /** A wrap value set by an option: the rest of the arguments are parsed on
      when it is valid. */
  function WithWrap(o: Options, v: string, rest: seq<string>): Outcome
    decreases |rest|, 2
  {
    match ParseWrap(v)
    case None => Failed(InvalidWrap)
    case Some(w) => ParseFrom(o.(wrap := w), rest)
  }

  /** The loop of parse_arguments over the remaining arguments. */
  function ParseFrom(o: Options, args: seq<string>): (r: Outcome)
    ensures o.wrap <= MaxWrap && r.Run? ==> r.opts.wrap <= MaxWrap
    decreases |args|, 1
  {
    if |args| == 0 then Run(o)
    else
      match Classify(args[0])
      case DecodeFlag => ParseFrom(o.(decode := true), args[1..])
      case IgnoreFlag => ParseFrom(o.(ignoreGarbage := true), args[1..])
      case WrapNext => if |args| < 2 then Failed(MissingWrapArgument) else WithWrap(o, args[1], args[2..])
      case WrapInline(v) => WithWrap(o, v, args[1..])
      case HelpFlag => Help
      case VersionFlag => Version
      case BadOption(name) => Failed(InvalidOption(name))
      case Operand =>
        if o.input.Some? then Failed(TooManyArguments) else ParseFrom(o.(input := Some(args[0])), args[1..])
  }

  /** parse_arguments over argv[1..]. */
  function ParseArguments(args: seq<string>): (r: Outcome)
    requires forall i | 0 <= i < |args| :: NoNul(args[i])
    ensures r.Run? ==> r.opts.wrap <= MaxWrap
  {
    ParseFrom(Defaults, args)
  }

  /** Parsing is a left-to-right fold: once a prefix has been parsed
      completely, the rest is parsed from the options it produced; a prefix
      that ends the parse (help, version, or an error other than a missing
      wrap value) decides the outcome whatever follows. */
  lemma {:induction false} ParseAppend(o: Options, a: seq<string>, b: seq<string>)
    ensures ParseFrom(o, a).Run? ==> ParseFrom(o, a + b) == ParseFrom(ParseFrom(o, a).opts, b)
    ensures !ParseFrom(o, a).Run? && ParseFrom(o, a) != Failed(MissingWrapArgument) ==>
              ParseFrom(o, a + b) == ParseFrom(o, a)
    decreases |a|
  {
    if |a| == 0 {
      assert a + b == b;
    } else {
      assert (a + b)[0] == a[0] && (a + b)[1..] == a[1..] + b;
      match Classify(a[0])
      case DecodeFlag => ParseAppend(o.(decode := true), a[1..], b);
      case IgnoreFlag => ParseAppend(o.(ignoreGarbage := true), a[1..], b);
      case WrapNext =>
        if |a| >= 2 {
          assert (a + b)[1] == a[1] && (a + b)[2..] == a[2..] + b;
          var w := ParseWrap(a[1]);
          if w.Some? {
            ParseAppend(o.(wrap := w.value), a[2..], b);
          }
        }
      case WrapInline(v) =>
        var w := ParseWrap(v);
        if w.Some? {
          ParseAppend(o.(wrap := w.value), a[1..], b);
        }
      case HelpFlag =>
      case VersionFlag =>
      case BadOption(_) =>
      case Operand =>
        if o.input.None? {
          ParseAppend(o.(input := Some(a[0])), a[1..], b);
        }
    }
  }

  /** One trailing argument after a complete parse. */
  lemma ParseLast(a: seq<string>, x: seq<string>)
    requires ParseFrom(Defaults, a).Run?
    ensures ParseFrom(Defaults, a + x) == ParseFrom(ParseFrom(Defaults, a).opts, x)
  {
    ParseAppend(Defaults, a, x);
  }

  /** The last wrap option wins, in any of its three spellings. */
  lemma LastWrapWins(a: seq<string>, v: string, w: nat)
    requires ParseFrom(Defaults, a).Run? && ParseWrap(v) == Some(w)
    ensures ParseFrom(Defaults, a + ["--wrap=" + v]) == Run(ParseFrom(Defaults, a).opts.(wrap := w))
    ensures v != "" ==> ParseFrom(Defaults, a + ["-w" + v]) == Run(ParseFrom(Defaults, a).opts.(wrap := w))
    ensures ParseFrom(Defaults, a + ["-w", v]) == Run(ParseFrom(Defaults, a).opts.(wrap := w))
  {
    var o := ParseFrom(Defaults, a).opts;
    ClassifyWrap(v);
    ParseLast(a, ["--wrap=" + v]);
    ParseLast(a, ["-w" + v]);
    ParseLast(a, ["-w", v]);
    WrapLast(o, "--wrap=" + v, v, w);
    if v != "" {
      WrapLast(o, "-w" + v, v, w);
    }
    assert ["-w", v][2..] == [];
    assert ParseFrom(o, ["-w", v]) == WithWrap(o, v, []);
  }

  lemma WrapLast(o: Options, x: string, v: string, w: nat)
    requires Classify(x) == WrapInline(v) && ParseWrap(v) == Some(w)
    ensures ParseFrom(o, [x]) == Run(o.(wrap := w))
  {
    assert [x][1..] == [];
    assert WithWrap(o, v, []) == ParseFrom(o.(wrap := w), []);
  }

  /** `-w` with nothing after it: the value is never taken from the empty
      remainder of the same word. */
  lemma WrapMissing(a: seq<string>)
    requires ParseFrom(Defaults, a).Run?
    ensures ParseFrom(Defaults, a + ["-w"]) == Failed(MissingWrapArgument)
    ensures ParseFrom(Defaults, a + ["--wrap"]) == Failed(MissingWrapArgument)
  {
    ClassifyWrap("");
    ParseLast(a, ["-w"]);
    ParseLast(a, ["--wrap"]);
  }

  /** An invalid value is refused in every spelling. */
  lemma WrapInvalid(a: seq<string>, v: string, rest: seq<string>)
    requires ParseFrom(Defaults, a).Run? && ParseWrap(v).None?
    ensures ParseFrom(Defaults, a + (["-w", v] + rest)) == Failed(InvalidWrap)
    ensures ParseFrom(Defaults, a + (["--wrap=" + v] + rest)) == Failed(InvalidWrap)
    ensures ParseFrom(Defaults, a + (["-w" + v] + rest)) == Failed(InvalidWrap)
  {
    ClassifyWrap(v);
    assert v != "" by {
      ParseWrapDegenerate();
    }
    ParseLast(a, ["-w", v] + rest);
    ParseLast(a, ["--wrap=" + v] + rest);
    ParseLast(a, ["-w" + v] + rest);
    assert (["-w", v] + rest)[1] == v;
  }

  /** Operands: the first word that is not an option (`-` included) names
      the input, a second one is refused, and any other word starting with
      `-` is an invalid option. */
  lemma OperandRules(a: seq<string>, f: string, rest: seq<string>)
    requires ParseFrom(Defaults, a).Run? && Classify(f).Operand?
    ensures ParseFrom(Defaults, a + ([f] + rest)) ==
              if ParseFrom(Defaults, a).opts.input.Some? then Failed(TooManyArguments)
              else ParseFrom(ParseFrom(Defaults, a).opts.(input := Some(f)), rest)
  {
    ParseLast(a, [f] + rest);
    assert ([f] + rest)[1..] == rest;
  }

  lemma DashIsOperand()
    ensures Classify("-").Operand?
    ensures ParseArguments(["-"]) == Run(Defaults.(input := Some("-")))
  {
  }

  lemma BadOptionRule(a: seq<string>, x: string, rest: seq<string>)
    requires ParseFrom(Defaults, a).Run? && Classify(x).BadOption?
    ensures ParseFrom(Defaults, a + ([x] + rest)) == Failed(InvalidOption(x[1..]))
    ensures |x| >= 2 && x[0] == '-'
  {
    ParseLast(a, [x] + rest);
  }
}
