/** The JavaScript string operations the interview application relies on,
    written out on `seq<char>`: trimming, prefix and suffix tests, searching,
    first-occurrence replacement, decimal conversion of non-negative
    integers, `padStart` and splitting on line breaks. */
module JsText {
  import opened Options

  /** The code points that `String.prototype.trim` removes and that the
      regular-expression class `\s` matches: ECMAScript's WhiteSpace
      (tab, vertical tab, form feed, the byte-order mark and every space
      separator) and LineTerminator (line feed, carriage return, line and
      paragraph separators). */
  predicate IsSpace(c: char) {
    || c == '\t' || c == '\n' || c == '\U{B}' || c == '\U{C}' || c == '\r'
    || c == ' ' || c == '\U{A0}' || c == '\U{1680}'
    || ('\U{2000}' <= c <= '\U{200A}')
    || c == '\U{2028}' || c == '\U{2029}' || c == '\U{202F}' || c == '\U{205F}'
    || c == '\U{3000}' || c == '\U{FEFF}'
  }

  predicate AllSpace(s: string) {
    forall k :: 0 <= k < |s| ==> IsSpace(s[k])
  }

  /** Leading white space removed: what is left is a suffix of `s` that
      does not start with white space. */
  function TrimStart(s: string): (r: string)
    ensures |r| <= |s| && r == s[|s| - |r|..]
    ensures r == [] || !IsSpace(r[0])
  {
    if s != [] && IsSpace(s[0]) then TrimStart(s[1..]) else s
  }

  /** Everything `TrimStart` drops is white space. */
  lemma {:induction false} TrimStartDropsSpace(s: string)
    ensures AllSpace(s[..|s| - |TrimStart(s)|])
    decreases |s|
  {
    if s != [] && IsSpace(s[0]) {
      TrimStartDropsSpace(s[1..]);
      var n := |s| - |TrimStart(s)|;
      forall k | 0 <= k < n ensures IsSpace(s[k]) {
        if k > 0 {
          assert s[k] == s[1..][..n - 1][k - 1];
        }
      }
    }
  }

  /** Trailing white space removed: a prefix of `s` that does not end with
      white space. */
  function TrimEnd(s: string): (r: string)
    ensures |r| <= |s| && r == s[..|r|]
    ensures r == [] || !IsSpace(r[|r| - 1])
  {
    if s != [] && IsSpace(s[|s| - 1]) then TrimEnd(s[..|s| - 1]) else s
  }

  /** Everything `TrimEnd` drops is white space. */
  lemma {:induction false} TrimEndDropsSpace(s: string)
    ensures AllSpace(s[|TrimEnd(s)|..])
    decreases |s|
  {
    if s != [] && IsSpace(s[|s| - 1]) {
      var t := s[..|s| - 1];
      TrimEndDropsSpace(t);
      var m := |TrimEnd(s)|;
      forall k | m <= k < |s| ensures IsSpace(s[k]) {
        if k < |s| - 1 {
          assert s[k] == t[m..][k - m];
        }
      }
    }
  }

  /** `String.prototype.trim`: neither end of the result is white space. */
  function Trim(s: string): (r: string)
    ensures |r| <= |s|
    ensures r == [] || (!IsSpace(r[0]) && !IsSpace(r[|r| - 1]))
  {
    TrimEnd(TrimStart(s))
  }

  /** Text that neither starts nor ends with white space is its own trim. */
  lemma TrimUnspaced(s: string)
    requires s == [] || (!IsSpace(s[0]) && !IsSpace(s[|s| - 1]))
    ensures Trim(s) == s
  {
    assert TrimStart(s) == s;
    assert TrimEnd(s) == s;
  }

  /** Trimming leaves nothing exactly when the text is all white space. */
  lemma TrimEmptyIffAllSpace(s: string)
    ensures Trim(s) == [] <==> AllSpace(s)
  {
    var t := TrimStart(s);
    var r := TrimEnd(t);
    if r == [] {
      TrimStartDropsSpace(s);
      TrimEndDropsSpace(t);
      assert t[|r|..] == t;
      assert t == [];
      assert s[..|s| - |t|] == s;
    } else {
      assert s[|s| - |t|] == t[0] && !IsSpace(t[0]);
    }
  }

  /** Trimming twice is trimming once. */
  lemma {:induction false} TrimIdempotent(s: string)
    ensures Trim(Trim(s)) == Trim(s)
  {
    var r := Trim(s);
    if r != [] {
      assert TrimStart(r) == r;
      assert TrimEnd(r) == r;
    }
  }

  /** `String.prototype.startsWith` with the position argument left out. */
  predicate StartsWith(s: string, p: string) {
    |p| <= |s| && s[..|p|] == p
  }

  /** `String.prototype.endsWith` with the length argument left out. */
  predicate EndsWith(s: string, p: string) {
    |p| <= |s| && s[|s| - |p|..] == p
  }

  /** `p` occurs in `s` starting at index `k`. */
  predicate At(s: string, p: string, k: int) {
    0 <= k && k + |p| <= |s| && s[k..k + |p|] == p
  }

  /** `s.indexOf(p, from)`: the least index at or after `from` where `p`
      occurs, or `None` (JavaScript's -1) when there is none. */
  function IndexOf(s: string, p: string, from: nat): (r: Option<nat>)
    ensures r.Some? ==> from <= r.value && At(s, p, r.value)
    ensures r.Some? ==> forall k :: from <= k < r.value ==> !At(s, p, k)
    ensures r.None? ==> forall k :: from <= k ==> !At(s, p, k)
    decreases |s| - from
  {
    if from + |p| > |s| then None
    else if s[from..from + |p|] == p then Some(from)
    else IndexOf(s, p, from + 1)
  }

  /** Positions where `p` does not occur can be skipped before searching. */
  lemma {:induction false} IndexOfSkip(s: string, p: string, from: nat, to: nat)
    requires from <= to
    requires forall q :: from <= q < to ==> !At(s, p, q)
    ensures IndexOf(s, p, to) == IndexOf(s, p, from)
    decreases (to as int) - (from as int)
  {
    if from < to {
      assert !At(s, p, from);
      IndexOfSkip(s, p, from + 1, to);
    }
  }

  /** A character that does not occur in `s` is not found. */
  lemma AbsentCharNotFound(s: string, c: char)
    requires forall k :: 0 <= k < |s| ==> s[k] != c
    ensures IndexOf(s, [c], 0).None?
  {
    forall k | 0 <= k ensures !At(s, [c], k) {
      if k + 1 <= |s| {
        assert s[k..k + 1][0] == s[k];
      }
    }
  }

  /** `s.includes(p)`. */
  predicate Includes(s: string, p: string) {
    IndexOf(s, p, 0).Some?
  }

  /** `p` occurs in `s` (the mathematical statement of `Includes`). */
  ghost predicate Occurs(s: string, p: string) {
    exists k :: At(s, p, k)
  }

  lemma IncludesIsOccurs(s: string, p: string)
    ensures Includes(s, p) <==> Occurs(s, p)
  {
    if Includes(s, p) {
      assert At(s, p, IndexOf(s, p, 0).value);
    }
  }

  /** `p` occurs inside `a + p + b`. */
  lemma OccursInMiddle(a: string, p: string, b: string)
    ensures Occurs(a + p + b, p)
  {
    assert (a + p + b)[|a|..|a| + |p|] == p;
    assert At(a + p + b, p, |a|);
  }

  /** `p` occurs at the end of `a + p`. */
  lemma OccursAtEnd(a: string, p: string)
    ensures Occurs(a + p, p)
  {
    assert (a + p)[|a|..|a| + |p|] == p;
    assert At(a + p, p, |a|);
  }

  /** An occurrence survives appending text. */
  lemma OccursExtended(x: string, y: string, p: string)
    requires Occurs(x, p)
    ensures Occurs(x + y, p)
  {
    var k :| At(x, p, k);
    assert (x + y)[k..k + |p|] == x[k..k + |p|];
    assert At(x + y, p, k);
  }

  /** An occurrence survives prepending text. */
  lemma OccursPrepended(x: string, y: string, p: string)
    requires Occurs(y, p)
    ensures Occurs(x + y, p)
  {
    var k :| At(y, p, k);
    assert (x + y)[|x| + k..|x| + k + |p|] == y[k..k + |p|];
    assert At(x + y, p, |x| + k);
  }

  /** ASCII upper-case letters mapped to lower case, everything else kept.
      For the suffix tests `.pdf` and `.docx` this agrees with the full
      `String.prototype.toLowerCase`: no non-ASCII code point lower-cases to
      one of the characters of those suffixes. */
  function ToLowerAscii(s: string): (r: string)
    ensures |r| == |s|
    ensures forall k :: 0 <= k < |s| ==> r[k] == (if 'A' <= s[k] <= 'Z' then s[k] - 'A' + 'a' else s[k])
  {
    seq(|s|, k requires 0 <= k < |s| => if 'A' <= s[k] <= 'Z' then s[k] - 'A' + 'a' else s[k])
  }

  // ---------------------------------------------------------------------
  // First-occurrence replacement: `s.replace(p, v)` with a string pattern.

  /** Replacement of the first occurrence of `p` by the literal text `v`;
      `s` unchanged when `p` does not occur. */
  function ReplaceFirst(s: string, p: string, v: string): (r: string)
    ensures IndexOf(s, p, 0).None? ==> r == s
    ensures IndexOf(s, p, 0).Some? ==>
      var i := IndexOf(s, p, 0).value;
      |r| == |s| - |p| + |v| && r[..i] == s[..i] && r[i..i + |v|] == v && r[i + |v|..] == s[i + |p|..]
  {
    match IndexOf(s, p, 0)
    case None => s
    case Some(i) => s[..i] + v + s[i + |p|..]
  }

  /** Only the first occurrence is replaced: every occurrence of `p` that
      starts after the replaced one is still there, shifted by the change
      in length. */
  lemma ReplaceFirstKeepsLaterOccurrences(s: string, p: string, v: string, k: nat)
    requires IndexOf(s, p, 0).Some? && IndexOf(s, p, 0).value + |p| <= k
    requires At(s, p, k)
    ensures At(ReplaceFirst(s, p, v), p, k - |p| + |v|)
  {
    var i := IndexOf(s, p, 0).value;
    var r := ReplaceFirst(s, p, v);
    var j := k - |p| + |v|;
    assert r[i + |v|..] == s[i + |p|..];
    assert r[j..j + |p|] == r[i + |v|..][j - (i + |v|)..j - (i + |v|) + |p|];
    assert s[k..k + |p|] == s[i + |p|..][k - (i + |p|)..k - (i + |p|) + |p|];
  }

  /** An occurrence with no occurrence before it is the one `indexOf`
      finds. */
  lemma IndexOfFirst(s: string, p: string, i: nat)
    requires At(s, p, i)
    requires forall k :: 0 <= k < i ==> !At(s, p, k)
    ensures IndexOf(s, p, 0) == Some(i)
  {
  }

  /** When the first character of `p` does not occur in `a`, the first
      occurrence of `p` in `a + p` is the one right after `a`. */
  lemma ReplaceAfterFreePrefix(a: string, p: string, v: string)
    requires p != [] && p[0] !in a
    ensures IndexOf(a + p, p, 0) == Some(|a|)
    ensures ReplaceFirst(a + p, p, v) == a + v
  {
    var s := a + p;
    assert s[|a|..|a| + |p|] == p;
    forall k | 0 <= k < |a| ensures !At(s, p, k) {
      assert s[k] == a[k];
    }
    IndexOfFirst(s, p, |a|);
    assert s[..|a|] == a;
  }

  /** Whether `p` occurs at `k`, for an occurrence that ends inside `x`,
      does not depend on what follows `x`. */
  lemma AtWithin(x: string, y: string, p: string, k: nat)
    requires k + |p| <= |x|
    ensures At(x + y, p, k) <==> At(x, p, k)
  {
    assert (x + y)[k..k + |p|] == x[k..k + |p|];
  }

  /** Text appended after an occurrence of `p` does not change which
      occurrence is the first. */
  lemma IndexOfWithin(x: string, y: string, p: string)
    requires IndexOf(x, p, 0).Some?
    ensures IndexOf(x + y, p, 0) == IndexOf(x, p, 0)
  {
    var i := IndexOf(x, p, 0).value;
    AtWithin(x, y, p, i);
    forall k | 0 <= k < i ensures !At(x + y, p, k) {
      AtWithin(x, y, p, k);
    }
    IndexOfFirst(x + y, p, i);
  }

  /** ... and the appended text is kept after the replacement. */
  lemma ReplaceFirstWithin(x: string, y: string, p: string, v: string)
    requires IndexOf(x, p, 0).Some?
    ensures IndexOf(x + y, p, 0) == IndexOf(x, p, 0)
    ensures ReplaceFirst(x + y, p, v) == ReplaceFirst(x, p, v) + y
  {
    IndexOfWithin(x, y, p);
    var i := IndexOf(x, p, 0).value;
    ReplaceFirstAt(x, p, v, i);
    ReplaceFirstAt(x + y, p, v, i);
    SplitAppended(x, y, i, i + |p|);
  }

  /** `ReplaceFirst` at a known first occurrence. */
  lemma ReplaceFirstAt(s: string, p: string, v: string, i: nat)
    requires IndexOf(s, p, 0) == Some(i)
    ensures ReplaceFirst(s, p, v) == s[..i] + v + s[i + |p|..]
  {
  }

  /** Cutting `x + y` at two points inside `x`. */
  lemma SplitAppended(x: string, y: string, i: nat, j: nat)
    requires i <= j <= |x|
    ensures forall v: string {:trigger (x + y)[..i] + v} :: (x + y)[..i] + v + (x + y)[j..] == x[..i] + v + x[j..] + y
  {
    assert (x + y)[..i] == x[..i];
    assert (x + y)[j..] == x[j..] + y;
  }

  /** The replacement value `v` for a string pattern, as
      the GetSubstitution operation of ECMA-262 expands it when
      there are no capture groups: `$$` gives `$`, `$&` the matched text,
      `` $` `` the text before the match, `$'` the text after it, and every
      other `$` (`$1`, `$<`, a `$` at the end) stands for itself. */
  function Substitute(v: string, matched: string, before: string, after: string): string
    decreases |v|
  {
    if v == [] then []
    else if v[0] == '$' && |v| >= 2 && v[1] == '$' then "$" + Substitute(v[2..], matched, before, after)
    else if v[0] == '$' && |v| >= 2 && v[1] == '&' then matched + Substitute(v[2..], matched, before, after)
    else if v[0] == '$' && |v| >= 2 && v[1] == '`' then before + Substitute(v[2..], matched, before, after)
    else if v[0] == '$' && |v| >= 2 && v[1] == '\'' then after + Substitute(v[2..], matched, before, after)
    else [v[0]] + Substitute(v[1..], matched, before, after)
  }

  /** `s.replace(p, v)` exactly as JavaScript evaluates it for a string
      pattern and a string value: the first occurrence of `p` is replaced by
      the expansion of `v`. */
  function ReplaceFirstAsWritten(s: string, p: string, v: string): string
  {
    match IndexOf(s, p, 0)
    case None => s
    case Some(i) => s[..i] + Substitute(v, p, s[..i], s[i + |p|..]) + s[i + |p|..]
  }

  /** A value without `$` is inserted verbatim. */
  lemma {:induction false} SubstituteWithoutDollar(v: string, matched: string, before: string, after: string)
    requires '$' !in v
    ensures Substitute(v, matched, before, after) == v
    decreases |v|
  {
    if v != [] {
      assert '$' !in v[1..];
      SubstituteWithoutDollar(v[1..], matched, before, after);
    }
  }

  /** With a value free of `$` the two replacements agree. */
  lemma ReplaceFirstAgreesWithoutDollar(s: string, p: string, v: string)
    requires '$' !in v
    ensures ReplaceFirstAsWritten(s, p, v) == ReplaceFirst(s, p, v)
  {
    match IndexOf(s, p, 0)
    case None =>
    case Some(i) =>
      SubstituteWithoutDollar(v, p, s[..i], s[i + |p|..]);
      ReplaceFirstAt(s, p, v, i);
  }

  /** The discrepancy: a value consisting of `$&` puts the placeholder
      itself back, so the template comes out unchanged, whereas the literal
      replacement inserts the two characters `$&`. */
  lemma DollarAmpersandRestoresPlaceholder(s: string, p: string)
    requires Includes(s, p) && p != "$&"
    ensures ReplaceFirstAsWritten(s, p, "$&") == s
    ensures ReplaceFirst(s, p, "$&") != s
  {
    var i := IndexOf(s, p, 0).value;
    var v := "$&";
    assert v[2..] == [];
    assert Substitute(v, p, s[..i], s[i + |p|..]) == p;
    assert s == s[..i] + p + s[i + |p|..];
    var r := ReplaceFirst(s, p, v);
    assert r[i..i + 2] == v;
    if |p| == 2 {
      assert s[i..i + 2] == p;
    } else {
      assert |r| != |s|;
    }
  }

  // ---------------------------------------------------------------------
  // Decimal text of non-negative integers: `String(n)` and its inverse.

  predicate IsDigit(c: char) { '0' <= c <= '9' }

  predicate AllDigits(s: string) {
    forall k :: 0 <= k < |s| ==> IsDigit(s[k])
  }

  function DigitChar(d: nat): (c: char)
    requires d < 10
    ensures IsDigit(c) && c as int - '0' as int == d
  {
    '0' + d as char
  }

  /** `String(n)` for a non-negative integer: its decimal digits, most
      significant first, with no leading zero. */
  function DecimalString(n: nat): (r: string)
    ensures 1 <= |r| && AllDigits(r)
    ensures |r| > 1 ==> r[0] != '0'
    ensures n < 10 <==> |r| == 1
  {
    if n < 10 then [DigitChar(n)] else DecimalString(n / 10) + [DigitChar(n % 10)]
  }

  /** The value of a string of decimal digits, read most significant first. */
  function DecimalValue(s: string): nat
    requires AllDigits(s)
  {
    if s == [] then 0 else 10 * DecimalValue(s[..|s| - 1]) + (s[|s| - 1] as int - '0' as int)
  }

  /** Reading back the decimal text of `n` gives `n`. */
  lemma {:induction false} DecimalRoundTrip(n: nat)
    ensures DecimalValue(DecimalString(n)) == n
  {
    if n >= 10 {
      var r := DecimalString(n);
      assert r[..|r| - 1] == DecimalString(n / 10);
      DecimalRoundTrip(n / 10);
    }
  }

  /** Leading zeros do not change the value of a digit string. */
  lemma {:induction false} LeadingZeroIgnored(s: string)
    requires AllDigits(s)
    ensures AllDigits("0" + s) && DecimalValue("0" + s) == DecimalValue(s)
    decreases |s|
  {
    if s != [] {
      var t := "0" + s;
      assert t[..|t| - 1] == "0" + s[..|s| - 1];
      LeadingZeroIgnored(s[..|s| - 1]);
    }
  }

  /** `s.padStart(n, c)` for a one-character fill string: `s` unchanged when
      it is already `n` characters or longer, otherwise enough copies of `c`
      in front to reach exactly `n`. */
  function PadStart(s: string, n: nat, c: char): (r: string)
    ensures |r| == if |s| >= n then |s| else n
    ensures r[|r| - |s|..] == s
    ensures forall k :: 0 <= k < |r| - |s| ==> r[k] == c
    decreases n - |s|
  {
    if |s| >= n then s else PadStart([c] + s, n, c)
  }

  // ---------------------------------------------------------------------
  // `s.split(/\r?\n/)`.

  /** `x` with one trailing carriage return removed. */
  function DropCarriageReturn(x: string): string {
    if x != [] && x[|x| - 1] == '\r' then x[..|x| - 1] else x
  }

  /** The pieces of `s` between line breaks, where a line break is `\n`
      optionally preceded by `\r`; an `s` with no line feed is one piece. */
  function SplitLines(s: string): (lines: seq<string>)
    ensures |lines| >= 1
    ensures forall k :: 0 <= k < |lines| ==> '\n' !in lines[k]
    decreases |s|
  {
    match IndexOf(s, "\n", 0)
    case None =>
      assert forall k :: 0 <= k < |s| ==> s[k] != '\n' by {
        forall k | 0 <= k < |s| ensures s[k] != '\n' { assert !At(s, "\n", k); }
      }
      [s]
    case Some(i) =>
      var head := DropCarriageReturn(s[..i]);
      assert '\n' !in head by {
        forall k | 0 <= k < |head| ensures head[k] != '\n' { assert !At(s, "\n", k); }
      }
      [head] + SplitLines(s[i + 1..])
  }

  /** `lines.join("\n")`. */
  function JoinLines(lines: seq<string>): string
    requires |lines| >= 1
  {
    if |lines| == 1 then lines[0] else lines[0] + "\n" + JoinLines(lines[1..])
  }

  /** `s` with the carriage return of every `\r\n` removed, read character
      by character. */
  function DropCrBeforeLf(s: string): string
    decreases |s|
  {
    if s == [] then []
    else if s[0] == '\r' && |s| >= 2 && s[1] == '\n' then DropCrBeforeLf(s[1..])
    else [s[0]] + DropCrBeforeLf(s[1..])
  }

  /** Joining the pieces back with line feeds gives the text, less the
      carriage returns that belonged to its line breaks: nothing else is
      lost or reordered by the split. */
  lemma {:induction false} SplitLinesJoin(s: string)
    ensures JoinLines(SplitLines(s)) == DropCrBeforeLf(s)
    decreases |s|
  {
    match IndexOf(s, "\n", 0)
    case None =>
      NoLineFeedKept(s);
    case Some(i) =>
      var a := s[..i];
      var rest := s[i + 1..];
      assert s[i..i + 1] == "\n";
      assert s == a + ['\n'] + rest;
      assert '\n' !in a by {
        forall k | 0 <= k < |a| ensures a[k] != '\n' {
          assert s[k..k + 1][0] == a[k];
          assert !At(s, "\n", k);
        }
      }
      DropCrConcat(a, rest);
      SplitLinesJoin(rest);
      var lines := SplitLines(s);
      assert lines == [DropCarriageReturn(a)] + SplitLines(rest);
      assert lines[1..] == SplitLines(rest);
  }

  /** A text without line feeds is kept whole. */
  lemma {:induction false} NoLineFeedKept(s: string)
    requires IndexOf(s, "\n", 0).None?
    ensures SplitLines(s) == [s] && DropCrBeforeLf(s) == s
  {
    NoLineFeedUnchanged(s);
  }

  lemma {:induction false} NoLineFeedUnchanged(s: string)
    requires forall k :: 0 <= k ==> !At(s, "\n", k)
    ensures DropCrBeforeLf(s) == s
    decreases |s|
  {
    if s != [] {
      if |s| >= 2 {
        assert s[1..2] == [s[1]];
        assert s[1] != '\n' by { assert !At(s, "\n", 1); }
      }
      forall k | 0 <= k ensures !At(s[1..], "\n", k) {
        if k + 1 <= |s[1..]| {
          assert s[1..][k..k + 1] == s[k + 1..k + 2];
          assert !At(s, "\n", k + 1);
        }
      }
      NoLineFeedUnchanged(s[1..]);
    }
  }

  /** The first line break of `a + "\n" + rest`, when `a` holds no line
      feed: the line is `a` less a trailing carriage return. */
  lemma {:induction false} DropCrConcat(a: string, rest: string)
    requires '\n' !in a
    ensures DropCrBeforeLf(a + ['\n'] + rest) == DropCarriageReturn(a) + ['\n'] + DropCrBeforeLf(rest)
    decreases |a|
  {
    var s := a + ['\n'] + rest;
    if a == [] {
      assert s == ['\n'] + rest;
      assert s[1..] == rest;
    } else if |a| == 1 {
      assert s[1..] == ['\n'] + rest;
      assert (['\n'] + rest)[1..] == rest;
    } else {
      assert s[0] == a[0] && s[1] == a[1] && a[1] != '\n';
      assert s[1..] == a[1..] + ['\n'] + rest;
      DropCrConcat(a[1..], rest);
      assert a[1..][|a[1..]| - 1] == a[|a| - 1];
      assert a[1..][..|a[1..]| - 1] == a[..|a| - 1][1..];
    }
  }
}
