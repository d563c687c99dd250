/** Splitting C strings at delimiters: strtok's tokens, the fields between
    delimiters that a reader keeping empty lines sees, lines joined back
    with a separator, and the end of a C string at its first NUL. */
module CStrings {

  /** A string holding none of the delimiters. */
  predicate Free(w: string, delims: set<char>) {
    forall i | 0 <= i < |w| :: w[i] !in delims
  }

  /** The fields of s between delimiters, the first one continuing cur: one
      more field than there are delimiters, and two adjacent delimiters
      leave an empty field between them. */
  function Fields(s: string, delims: set<char>, cur: string): (r: seq<string>)
    ensures |r| >= 1
    decreases |s|
  {
    if |s| == 0 then [cur]
    else if s[0] in delims then [cur] + Fields(s[1..], delims, "")
    else Fields(s[1..], delims, cur + [s[0]])
  }

  /** The non-empty strings of xs, in order. */
  function NonEmpty(xs: seq<string>): (r: seq<string>)
    ensures forall i | 0 <= i < |r| :: r[i] != ""
  {
    if |xs| == 0 then []
    else (if xs[0] == "" then [] else [xs[0]]) + NonEmpty(xs[1..])
  }

  /** The length of the run of non-delimiters at the front of s. */
  function Span(s: string, delims: set<char>): (r: nat)
    ensures r <= |s|
    ensures Free(s[..r], delims)
    ensures r < |s| ==> s[r] in delims
    decreases |s|
  {
    if |s| == 0 || s[0] in delims then 0 else 1 + Span(s[1..], delims)
  }

  /** strtok called on s and then on NULL until it returns NULL: each call
      skips delimiters and returns the run up to the next one. */
  function Strtok(s: string, delims: set<char>): seq<string>
    decreases |s|
  {
    if |s| == 0 then []
    else if s[0] in delims then Strtok(s[1..], delims)
    else
      var n := Span(s, delims);
      assert s[..n][0] == s[0];
      [s[..n]] + Strtok(s[n..], delims)
  }

  /** A run with no delimiter only extends the current field. */
  lemma {:induction false} FieldsFree(w: string, delims: set<char>, cur: string, rest: string)
    requires Free(w, delims)
    ensures Fields(w + rest, delims, cur) == Fields(rest, delims, cur + w)
    decreases |w|
  {
    if |w| > 0 {
      assert (w + rest)[1..] == w[1..] + rest;
      assert cur + w == (cur + [w[0]]) + w[1..];
      FieldsFree(w[1..], delims, cur + [w[0]], rest);
    } else {
      assert w + rest == rest;
      assert cur + w == cur;
    }
  }

  /** A delimiter closes the field in progress and starts a fresh one. */
  lemma {:induction false} FieldsAppend(a: string, d: char, b: string, delims: set<char>, cur: string)
    requires d in delims
    ensures Fields(a + [d] + b, delims, cur) == Fields(a, delims, cur) + Fields(b, delims, "")
    decreases |a|
  {
    if |a| == 0 {
      assert a + [d] + b == [d] + b;
      assert ([d] + b)[1..] == b;
    } else {
      assert (a + [d] + b)[1..] == a[1..] + [d] + b;
      if a[0] in delims {
        FieldsAppend(a[1..], d, b, delims, "");
      } else {
        FieldsAppend(a[1..], d, b, delims, cur + [a[0]]);
      }
    }
  }

  lemma {:induction false} NonEmptyAppend(xs: seq<string>, ys: seq<string>)
    ensures NonEmpty(xs + ys) == NonEmpty(xs) + NonEmpty(ys)
    decreases |xs|
  {
    if |xs| > 0 {
      assert (xs + ys)[1..] == xs[1..] + ys;
      NonEmptyAppend(xs[1..], ys);
    } else {
      assert xs + ys == ys;
    }
  }

  /** strtok's tokens are the non-empty fields. */
  lemma {:induction false} StrtokFields(s: string, delims: set<char>)
    ensures Strtok(s, delims) == NonEmpty(Fields(s, delims, ""))
    decreases |s|
  {
    if |s| == 0 {
    } else if s[0] in delims {
      StrtokFields(s[1..], delims);
    } else {
      var n := Span(s, delims);
      if n == |s| {
        assert s[..n] == s && s[n..] == "";
        FieldsFree(s, delims, "", "");
        assert s + "" == s && "" + s == s;
        assert [s][1..] == [];
      } else {
        StrtokFields(s[n + 1..], delims);
        TokenThenRest(s, n, delims);
      }
    }
  }

  /** The step of StrtokFields where a token ends at a delimiter. */
  lemma TokenThenRest(s: string, n: nat, delims: set<char>)
    requires 0 < n < |s| && n == Span(s, delims)
    ensures Strtok(s, delims) == [s[..n]] + Strtok(s[n + 1..], delims)
    ensures NonEmpty(Fields(s, delims, "")) == [s[..n]] + NonEmpty(Fields(s[n + 1..], delims, ""))
  {
    var t := s[n + 1..];
    assert s[n..][0] == s[n] && s[n..][1..] == t;
    assert s[..n][0] == s[0];
    assert s == s[..n] + [s[n]] + t;
    FieldsAppend(s[..n], s[n], t, delims, "");
    FieldsFree(s[..n], delims, "", "");
    assert s[..n] + "" == s[..n] && "" + s[..n] == s[..n];
    NonEmptyAppend([s[..n]], Fields(t, delims, ""));
  }

  /** The lines of lines, sep between each two; the text grows line by
      line, as a figure does when its lines are appended one at a time. */
  function Join(lines: seq<string>, sep: char): (r: string)
    decreases |lines|
  {
    if |lines| == 0 then ""
    else if |lines| == 1 then lines[0]
    else Join(lines[..|lines| - 1], sep) + [sep] + lines[|lines| - 1]
  }

  /** Joined lines come apart again at the separator. */
  lemma {:induction false} FieldsJoin(lines: seq<string>, sep: char, delims: set<char>)
    requires |lines| >= 1 && sep in delims
    requires forall i | 0 <= i < |lines| :: Free(lines[i], delims)
    ensures Fields(Join(lines, sep), delims, "") == lines
    decreases |lines|
  {
    var n := |lines|;
    var last := lines[n - 1];
    FieldsFree(last, delims, "", "");
    assert last + "" == last && "" + last == last;
    if n > 1 {
      var front := lines[..n - 1];
      FieldsJoin(front, sep, delims);
      FieldsAppend(Join(front, sep), sep, last, delims, "");
      assert front + [last] == lines;
    }
  }

  /** Different lines never join to the same text. */
  lemma JoinInjective(a: seq<string>, b: seq<string>, sep: char)
    requires |a| >= 1 && |b| >= 1
    requires forall i | 0 <= i < |a| :: Free(a[i], {sep})
    requires forall i | 0 <= i < |b| :: Free(b[i], {sep})
    requires Join(a, sep) == Join(b, sep)
    ensures a == b
  {
    FieldsJoin(a, sep, {sep});
    FieldsJoin(b, sep, {sep});
  }

  /** The C string held in s: everything before the first NUL. */
  function CStr(s: string): (r: string)
    ensures |r| <= |s| && '\0' !in r
    ensures r == s[..|r|]
    ensures |r| < |s| ==> s[|r|] == '\0'
    decreases |s|
  {
    if |s| == 0 || s[0] == '\0' then "" else [s[0]] + CStr(s[1..])
  }

  /** One field, empty or not. */
  lemma OneField(w: string)
    ensures NonEmpty([w]) == if w == "" then [] else [w]
  {
    assert [w][1..] == [];
  }

  /** A delimiter after a delimiter-free w: w is a token of its own, if it
      is not empty, and the rest splits on its own. */
  lemma SplitAfter(w: string, d: char, rest: string, delims: set<char>)
    requires d in delims && Free(w, delims)
    ensures NonEmpty(Fields(w + [d] + rest, delims, "")) == NonEmpty([w]) + NonEmpty(Fields(rest, delims, ""))
  {
    FieldsAppend(w, d, rest, delims, "");
    FieldsFree(w, delims, "", "");
    assert w + "" == w && "" + w == w;
    NonEmptyAppend(Fields(w, delims, ""), Fields(rest, delims, ""));
  }

  /** A string with no NUL is its own C string. */
  lemma {:induction false} CStrWhole(s: string)
    requires '\0' !in s
    ensures CStr(s) == s
    decreases |s|
  {
    if |s| > 0 {
      assert forall c | c in s[1..] :: c in s;
      CStrWhole(s[1..]);
    }
  }

  /** Two fields split off at the front. */
  lemma SplitTwice(w: string, d: char, v: string, e: char, rest: string, delims: set<char>)
    requires d in delims && e in delims && Free(w, delims) && Free(v, delims)
    ensures NonEmpty(Fields(w + [d] + (v + [e] + rest), delims, ""))
            == NonEmpty([w]) + NonEmpty([v]) + NonEmpty(Fields(rest, delims, ""))
  {
    SplitAfter(w, d, v + [e] + rest, delims);
    SplitAfter(v, e, rest, delims);
  }
}
