/** `extractQuestionsFromContent` of the question-generation route: recovers a
    list of interview questions from the free text a language model replied
    with, trying a fixed chain of strategies and never failing.

    The regular expressions of the source are written as scanners. Each one
    returns what the JavaScript engine's leftmost, backtracking match returns;
    the doc comment of each scanner says why the scan finds the same match. */
module QuestionExtraction {
  import opened Options
  import opened JsText
  import opened Json

  /** The argument of the extractor: the reply may be something other than a
      string, which the extractor treats as empty. */
  datatype Content = Text(s: string) | NotText

  const Fence: string := "```"

  // ---------------------------------------------------------------------
  // Scanning helpers.

  /** The first index at or after `from` that is not white space (`|s|`
      when there is none): where a greedy `\s*` that starts at `from` stops. */
  function SkipSpace(s: string, from: nat): (r: nat)
    requires from <= |s|
    ensures from <= r <= |s|
    ensures forall k :: from <= k < r ==> IsSpace(s[k])
    ensures r == |s| || !IsSpace(s[r])
    decreases |s| - from
  {
    if from < |s| && IsSpace(s[from]) then SkipSpace(s, from + 1) else from
  }

  /** `word` (written in lower case) occurs at `k`, ignoring the case of
      ASCII letters: the `i` flag, under which a non-ASCII character never
      matches an ASCII one. */
  predicate CaseInsensitiveAt(s: string, word: string, k: nat) {
    k + |word| <= |s| && ToLowerAscii(s[k..k + |word|]) == word
  }

  /** No occurrence of `p` lies wholly inside `s[from..to]` when the first
      occurrence at or after `from` starts at `to`. */
  lemma NothingBeforeFirst(s: string, p: string, from: nat, to: nat)
    requires p != [] && IndexOf(s, p, from) == Some(to)
    ensures !Occurs(s[from..to], p)
  {
    var t := s[from..to];
    if Occurs(t, p) {
      var k :| At(t, p, k);
      assert s[from + k..from + k + |p|] == t[k..k + |p|];
      assert At(s, p, from + k);
      assert false;
    }
  }

  // ---------------------------------------------------------------------
  // The three regular expressions.

  /** The capture of /```json\s*([\s\S]*?)```|```\s*([\s\S]*?)```/i, taken as
      `fence[1] || fence[2] || ''`.

      Both alternatives start with three backticks, and the closing fence
      of any match lies after the opening one, so the leftmost match, if any,
      starts at the first fence in the text: a match starting at a later
      fence would also close after the first one. There the first
      alternative is tried (the tag `json` in any case, then a greedy `\s*`;
      giving back white space cannot help, since a fence never starts with
      white space), then the second. The lazy body ends at the first fence
      after it. An empty first-alternative capture yields '' as well, since
      the second group did not take part. */
  function FenceMatch(text: string): (body: Option<string>)
    ensures body.Some? ==> Includes(text, Fence) && !Occurs(body.value, Fence)
  {
    match IndexOf(text, Fence, 0)
    case None => None
    case Some(i) =>
      var tagged := if CaseInsensitiveAt(text, "json", i + 3) then FenceFrom(text, SkipSpace(text, i + 3 + 4)) else None;
      if tagged.Some? then tagged else FenceFrom(text, SkipSpace(text, i + 3))
  }

  /** The lazy body that starts at `b` and the closing fence after it: the
      text up to the first fence at or after `b`. */
  function FenceFrom(text: string, b: nat): (body: Option<string>)
    requires b <= |text|
    ensures body.Some? <==> IndexOf(text, Fence, b).Some?
    ensures body.Some? ==> body.value == text[b..IndexOf(text, Fence, b).value] && !Occurs(body.value, Fence)
  {
    match IndexOf(text, Fence, b)
    case Some(j) => NothingBeforeFirst(text, Fence, b, j); Some(text[b..j])
    case None => None
  }

  /** The trimmed fenced body, '' when there is no fenced block. */
  function FencedBody(text: string): string {
    match FenceMatch(text)
    case None => ""
    case Some(body) => Trim(body)
  }

  /** Where the fenced capture lies: `b` is where the body starts, after
      the first fence, the tag `json` when it follows (in any case) and the
      white space after that, and `j` is the first fence at or after `b`. */
  predicate FenceCapture(text: string, b: nat, j: nat, body: string) {
    && IndexOf(text, Fence, 0).Some?
    && var i := IndexOf(text, Fence, 0).value;
    && i + 3 <= b <= j && j + 3 <= |text| && !IsSpace(text[b])
    && IndexOf(text, Fence, b) == Some(j)
    && body == text[b..j]
    && if CaseInsensitiveAt(text, "json", i + 3) then i + 7 <= b && AllSpace(text[i + 7..b])
       else AllSpace(text[i + 3..b])
  }

  /** The fenced capture exists exactly when a second fence follows the
      end of the first one. It is then the text from after the opening fence,
      its optional `json` tag and the white space after them, up to the next
      fence. */
  lemma FenceMatchPlacement(text: string)
    ensures FenceMatch(text).None? <==>
      IndexOf(text, Fence, 0).None? || IndexOf(text, Fence, IndexOf(text, Fence, 0).value + 3).None?
    ensures FenceMatch(text).Some? ==>
      exists b: nat, j: nat :: FenceCapture(text, b, j, FenceMatch(text).value)
  {
    match IndexOf(text, Fence, 0)
    case None =>
    case Some(i) =>
      assert At(text, Fence, i);
      if CaseInsensitiveAt(text, "json", i + 3) {
        TaggedFence(text, i);
      } else {
        UntaggedFence(text, i);
      }
  }

  /** After a fence tagged `json`, the body starts past the tag and the white
      space after it; without a closing fence there, the untagged
      alternative finds none either. */
  lemma TaggedFence(text: string, i: nat)
    requires IndexOf(text, Fence, 0) == Some(i) && CaseInsensitiveAt(text, "json", i + 3)
    ensures FenceMatch(text).None? <==> IndexOf(text, Fence, i + 3).None?
    ensures FenceMatch(text).Some? ==>
      exists b: nat, j: nat :: FenceCapture(text, b, j, FenceMatch(text).value)
  {
    var b1 := SkipSpace(text, i + 7);
    var b2 := SkipSpace(text, i + 3);
    NoBacktickInTag(text, i + 3);
    forall q | i + 3 <= q < b1 ensures text[q] != '`' {
    }
    SkipNoFence(text, i + 3, b1);
    SkipNoFence(text, i + 3, b2);
    if IndexOf(text, Fence, b1).Some? {
      var j := IndexOf(text, Fence, b1).value;
      SpaceSlice(text, i + 7, b1);
      assert FenceCapture(text, b1, j, text[b1..j]);
    }
  }

  lemma UntaggedFence(text: string, i: nat)
    requires IndexOf(text, Fence, 0) == Some(i) && i + 3 <= |text| && !CaseInsensitiveAt(text, "json", i + 3)
    ensures FenceMatch(text).None? <==> IndexOf(text, Fence, i + 3).None?
    ensures FenceMatch(text).Some? ==>
      exists b: nat, j: nat :: FenceCapture(text, b, j, FenceMatch(text).value)
  {
    var b2 := SkipSpace(text, i + 3);
    SkipNoFence(text, i + 3, b2);
    if IndexOf(text, Fence, b2).Some? {
      var j := IndexOf(text, Fence, b2).value;
      SpaceSlice(text, i + 3, b2);
      assert FenceCapture(text, b2, j, text[b2..j]);
    }
  }

  /** The four characters of a `json` tag, in any case, are letters. */
  lemma NoBacktickInTag(text: string, k: nat)
    requires CaseInsensitiveAt(text, "json", k)
    ensures forall q :: k <= q < k + 4 ==> text[q] != '`' && !IsSpace(text[q])
  {
    var tag := ToLowerAscii(text[k..k + 4]);
    forall q | k <= q < k + 4 ensures text[q] != '`' && !IsSpace(text[q]) {
      assert tag[q - k] == "json"[q - k];
      assert text[k..k + 4][q - k] == text[q];
    }
  }

  /** What `SkipSpace` passes over is white space. */
  lemma SpaceSlice(text: string, from: nat, to: nat)
    requires from <= to <= |text| && forall q :: from <= q < to ==> IsSpace(text[q])
    ensures AllSpace(text[from..to])
  {
    forall q | 0 <= q < to - from ensures IsSpace(text[from..to][q]) {
      assert text[from..to][q] == text[from + q];
    }
  }

  /** Skipping characters other than a backtick does not change where the
      next fence is found. */
  lemma SkipNoFence(text: string, from: nat, to: nat)
    requires from <= to <= |text|
    requires forall q :: from <= q < to ==> text[q] != '`'
    ensures IndexOf(text, Fence, to) == IndexOf(text, Fence, from)
  {
    forall q | from <= q < to ensures !At(text, Fence, q) {
      if q + 3 <= |text| {
        assert text[q..q + 3][0] == text[q];
      }
    }
    IndexOfSkip(text, Fence, from, to);
  }

  /** The assignment match at `k`: the name, then white space, `=`, white
      space and the `[` at `n` that opens the capture, which runs from there
      to the first `]`. */
  predicate AssignedAt(text: string, k: nat, n: nat) {
    && CaseInsensitiveAt(text, "interviewquestions", k)
    && k + 18 < n < |text| && text[n] == '['
    && exists e :: k + 18 <= e < n && text[e] == '='
         && (forall q :: k + 18 <= q < e ==> IsSpace(text[q]))
         && (forall q :: e < q < n ==> IsSpace(text[q]))
  }

  /** Where the assignment capture lies. */
  lemma AssignmentAtPlacement(text: string, k: nat)
    ensures AssignmentAt(text, k).Some? ==>
      exists n: nat :: AssignedAt(text, k, n) && n + |AssignmentAt(text, k).value| <= |text|
        && AssignmentAt(text, k).value == text[n..n + |AssignmentAt(text, k).value|]
  {
    if AssignmentAt(text, k).Some? {
      var m := SkipSpace(text, k + 18);
      var n := SkipSpace(text, m + 1);
      assert AssignedAt(text, k, n);
    }
  }

  /** Position `m`, at or after `k`, has the capture `span`, and no
      position from `k` up to it has one. */
  predicate FirstAssignment(text: string, k: nat, m: nat, span: Option<string>) {
    k <= m && AssignmentAt(text, m) == span
    && forall q :: k <= q < m ==> AssignmentAt(text, q).None?
  }

  /** The assignment capture searched from `k` is the match at the first
      position from `k` on that has one. */
  lemma {:induction false} AssignedArrayFirst(text: string, k: nat)
    ensures AssignedArrayFrom(text, k).Some? ==>
      exists m: nat :: FirstAssignment(text, k, m, AssignedArrayFrom(text, k))
    decreases |text| - k
  {
    if k + 18 <= |text| {
      if AssignmentAt(text, k).Some? {
        FirstAssignmentHere(text, k);
      } else {
        var rest := AssignedArrayFrom(text, k + 1);
        AssignedArrayFirst(text, k + 1);
        if rest.Some? {
          var m: nat :| FirstAssignment(text, k + 1, m, rest);
          FirstAssignmentStep(text, k, m, rest);
        }
      }
    }
  }

  /** A match at `k` itself is the first one from `k`. */
  lemma FirstAssignmentHere(text: string, k: nat)
    requires AssignmentAt(text, k).Some?
    ensures FirstAssignment(text, k, k, AssignedArrayFrom(text, k))
  {
  }

  /** A position without a match does not change which match is first. */
  lemma FirstAssignmentStep(text: string, k: nat, m: nat, span: Option<string>)
    requires AssignmentAt(text, k).None? && FirstAssignment(text, k + 1, m, span)
    ensures FirstAssignment(text, k, m, span) && AssignedArrayFrom(text, k) == AssignedArrayFrom(text, k + 1)
  {
  }

  /** There is no assignment capture searched from `k` only when no
      position from `k` on has a match. */
  lemma {:induction false} AssignedArrayNone(text: string, k: nat)
    ensures AssignedArrayFrom(text, k).None? ==> forall q :: k <= q ==> AssignmentAt(text, q).None?
    decreases |text| - k
  {
    if k + 18 > |text| {
      forall q | k <= q ensures AssignmentAt(text, q).None? {
        AssignmentNeedsRoom(text, q);
      }
    } else if AssignmentAt(text, k).None? {
      AssignedArrayNone(text, k + 1);
      NoAssignmentStep(text, k);
    }
  }

  /** A position without a match before a stretch without one. */
  lemma NoAssignmentStep(text: string, k: nat)
    requires AssignmentAt(text, k).None?
    requires AssignedArrayFrom(text, k + 1).None? ==> forall q :: k + 1 <= q ==> AssignmentAt(text, q).None?
    ensures AssignedArrayFrom(text, k).None? ==> forall q :: k <= q ==> AssignmentAt(text, q).None?
  {
  }

  /** No match starts within the last 17 characters: the name alone is 18. */
  lemma AssignmentNeedsRoom(text: string, q: nat)
    requires q + 18 > |text|
    ensures AssignmentAt(text, q).None?
  {
    assert !CaseInsensitiveAt(text, "interviewquestions", q);
  }

  /** The first `]` at or after `from`, and the span from `open` to it:
      the lazy `[\s\S]*?\]` that follows an opening bracket at `open`. */
  function SpanToClose(text: string, open: nat, from: nat): (span: Option<string>)
    requires open < from <= |text| && text[open] == '['
    requires forall q :: open < q < from ==> text[q] != ']'
    ensures span.Some? ==> 2 <= |span.value| && span.value[0] == '['
    ensures span.Some? ==> span.value[|span.value| - 1] == ']' && ']' !in span.value[..|span.value| - 1]
    ensures span.Some? ==> open + |span.value| <= |text| && span.value == text[open..open + |span.value|]
    ensures span.None? <==> forall q :: open < q < |text| ==> text[q] != ']'
    decreases |text| - from
  {
    if from == |text| then None
    else if text[from] == ']' then
      var span := text[open..from + 1];
      assert forall q :: 0 <= q < |span| - 1 ==> span[q] != ']' by {
        forall q | 0 <= q < |span| - 1 ensures span[q] != ']' {
          assert span[q] == text[open + q];
        }
      }
      Some(span)
    else SpanToClose(text, open, from + 1)
  }

  /** The match of /interviewQuestions\s*=\s*(\[[\s\S]*?\])/i starting at
      position `k`, if any. The name is compared without regard to case,
      then come greedy white space, `=`, white space and `[` (white space
      never matches `=` or `[`, so no backtracking helps), then the lazy span
      up to the first `]`. */
  function AssignmentAt(text: string, k: nat): (span: Option<string>)
    ensures span.Some? ==> 2 <= |span.value| && span.value[0] == '['
    ensures span.Some? ==> span.value[|span.value| - 1] == ']' && ']' !in span.value[..|span.value| - 1]
  {
    if !CaseInsensitiveAt(text, "interviewquestions", k) then None
    else
      var m := SkipSpace(text, k + 18);
      if m == |text| || text[m] != '=' then None
      else
        var n := SkipSpace(text, m + 1);
        if n == |text| || text[n] != '[' then None
        else SpanToClose(text, n, n + 1)
  }

  /** The capture of /interviewQuestions\s*=\s*(\[[\s\S]*?\])/i, searched
      from position `k` on: the match at the first position that has one. */
  function AssignedArrayFrom(text: string, k: nat): (span: Option<string>)
    ensures span.Some? ==> 2 <= |span.value| && span.value[0] == '['
    ensures span.Some? ==> span.value[|span.value| - 1] == ']' && ']' !in span.value[..|span.value| - 1]
    decreases |text| - k
  {
    if k + 18 > |text| then None
    else if AssignmentAt(text, k).Some? then AssignmentAt(text, k)
    else AssignedArrayFrom(text, k + 1)
  }

  function AssignedArray(text: string): Option<string> {
    AssignedArrayFrom(text, 0)
  }

  /** The match of /\[[\s\S]*?\]/: from the first `[` to the first `]` after
      it. When that `]` is missing there is no `]` after any later `[`
      either, so there is no match. */
  function FirstBracketSpan(text: string): (span: Option<string>)
    ensures span.Some? ==> 2 <= |span.value| && span.value[0] == '['
    ensures span.Some? ==> span.value[|span.value| - 1] == ']' && ']' !in span.value[..|span.value| - 1]
    ensures span.Some? <==> exists i, j :: 0 <= i < j < |text| && text[i] == '[' && text[j] == ']'
    ensures span.Some? ==>
      && IndexOf(text, "[", 0).Some?
      && IndexOf(text, "[", 0).value + |span.value| <= |text|
      && span.value == text[IndexOf(text, "[", 0).value..IndexOf(text, "[", 0).value + |span.value|]
  {
    match IndexOf(text, "[", 0)
    case None =>
      NoneAt(text, '[', 0);
      None
    case Some(i) =>
      assert text[i..i + 1] == "[";
      NoneAt(text, '[', 0);
      var span := SpanToClose(text, i, i + 1);
      if span.Some? then
        var j := i + |span.value| - 1;
        assert text[j] == span.value[|span.value| - 1];
        span
      else span
  }

  /** When the one-character text `[c]` is not found from `from` on, `c`
      does not occur before the found index (or at all). */
  lemma NoneAt(text: string, c: char, from: nat)
    ensures IndexOf(text, [c], from).None? ==> forall q :: from <= q < |text| ==> text[q] != c
    ensures IndexOf(text, [c], from).Some? ==> forall q :: from <= q < IndexOf(text, [c], from).value ==> text[q] != c
  {
    forall q | from <= q < |text| && text[q] == c
      ensures IndexOf(text, [c], from).Some? && IndexOf(text, [c], from).value <= q
    {
      assert text[q..q + 1] == [c];
      assert At(text, [c], q);
    }
  }

  // ---------------------------------------------------------------------
  // The bulleted-list fallback: split, trim, keep marked lines, strip the
  // marker, drop empty lines.

  function Map<A, B>(xs: seq<A>, f: A -> B): (ys: seq<B>)
    ensures |ys| == |xs| && forall k :: 0 <= k < |xs| ==> ys[k] == f(xs[k])
  {
    seq(|xs|, k requires 0 <= k < |xs| => f(xs[k]))
  }

  function Filter<A>(xs: seq<A>, keep: A -> bool): (ys: seq<A>)
    ensures |ys| <= |xs|
    ensures forall y :: y in ys ==> y in xs && keep(y)
  {
    if xs == [] then [] else (if keep(xs[0]) then [xs[0]] else []) + Filter(xs[1..], keep)
  }

  /** Filtering commutes with concatenation, so it keeps the source order. */
  lemma {:induction false} FilterConcat<A>(a: seq<A>, b: seq<A>, keep: A -> bool)
    ensures Filter(a + b, keep) == Filter(a, keep) + Filter(b, keep)
    decreases |a|
  {
    if a != [] {
      var head := if keep(a[0]) then [a[0]] else [];
      assert (a + b)[0] == a[0];
      assert (a + b)[1..] == a[1..] + b;
      assert Filter(a + b, keep) == head + Filter(a[1..] + b, keep);
      FilterConcat(a[1..], b, keep);
      assert Filter(a, keep) == head + Filter(a[1..], keep);
    } else {
      assert a + b == b;
    }
  }

  lemma MapConcat<A, B>(a: seq<A>, b: seq<A>, f: A -> B)
    ensures Map(a + b, f) == Map(a, f) + Map(b, f)
  {
    var l, r := Map(a + b, f), Map(a, f) + Map(b, f);
    assert |l| == |r|;
    forall k | 0 <= k < |l| ensures l[k] == r[k] {
      if k < |a| { assert (a + b)[k] == a[k]; } else { assert (a + b)[k] == b[k - |a|]; }
    }
  }

  /** Filtering with a test every element passes changes nothing. */
  lemma {:induction false} FilterKeepsAll<A>(xs: seq<A>, keep: A -> bool)
    requires forall x :: x in xs ==> keep(x)
    ensures Filter(xs, keep) == xs
    decreases |xs|
  {
    if xs != [] {
      FilterKeepsAll(xs[1..], keep);
    }
  }

  /** `l.startsWith('- ') || l.startsWith('* ')`. */
  predicate IsMarked(l: string) {
    StartsWith(l, "- ") || StartsWith(l, "* ")
  }

  /** `l.replace(/^[-*]\s+/, '')`: a leading `-` or `*` and all the white
      space after it removed, when there is at least one white-space
      character; the line unchanged otherwise. */
  function StripMarker(l: string): string {
    if |l| >= 2 && (l[0] == '-' || l[0] == '*') && IsSpace(l[1]) then TrimStart(l[1..]) else l
  }

  predicate NonEmpty(l: string) { l != "" }

  /** The question texts the bullet chain keeps from a list of lines. */
  function BulletsOf(lines: seq<string>): seq<string> {
    Filter(Map(Filter(Map(lines, Trim), IsMarked), StripMarker), NonEmpty)
  }

  function BulletLines(text: string): seq<string> {
    BulletsOf(SplitLines(text))
  }

  /** A question of the fallback: the stripped line with type 'General'. */
  function BulletQuestion(line: string): JsonValue {
    JObject(map["question" := JString(line), "type" := JString("General")])
  }

  /** A trimmed line that passes the marker test keeps a non-empty text
      after its marker, which does not start with white space. */
  lemma StrippedMarkedLine(l: string)
    requires l == Trim(l) && IsMarked(l)
    ensures StripMarker(l) != "" && !IsSpace(StripMarker(l)[0])
  {
    assert l[..2] == "- " || l[..2] == "* ";
    assert l[1] == ' ';
    var t := l[1..];
    assert !IsSpace(l[|l| - 1]);
    assert t[|t| - 1] == l[|l| - 1];
    TrimStartDropsSpace(t);
  }

  /** The final `filter(Boolean)` drops nothing: trimming happens before the
      marker test, so every kept line has text after its marker. */
  lemma FinalFilterDropsNothing(lines: seq<string>)
    ensures BulletsOf(lines) == Map(Filter(Map(lines, Trim), IsMarked), StripMarker)
  {
    var marked := Filter(Map(lines, Trim), IsMarked);
    var stripped := Map(marked, StripMarker);
    forall x | x in stripped ensures NonEmpty(x) {
      var k :| 0 <= k < |stripped| && stripped[k] == x;
      assert marked[k] in Map(lines, Trim);
      TrimmedLineIsFixed(lines, marked[k]);
      StrippedMarkedLine(marked[k]);
    }
    FilterKeepsAll(stripped, NonEmpty);
  }

  /** What one line contributes: its stripped text when the trimmed line is
      marked, nothing otherwise. */
  lemma BulletsOfOneLine(l: string)
    ensures BulletsOf([l]) == if IsMarked(Trim(l)) then [StripMarker(Trim(l))] else []
  {
    FinalFilterDropsNothing([l]);
    assert Map([l], Trim) == [Trim(l)];
    assert Filter([Trim(l)], IsMarked) == (if IsMarked(Trim(l)) then [Trim(l)] else []) + Filter([], IsMarked);
  }

  /** The chain keeps source order: the questions of `a + b` are those of `a`
      followed by those of `b`. */
  lemma BulletsOfConcat(a: seq<string>, b: seq<string>)
    ensures BulletsOf(a + b) == BulletsOf(a) + BulletsOf(b)
  {
    MapConcat(a, b, Trim);
    FilterConcat(Map(a, Trim), Map(b, Trim), IsMarked);
    var fa := Filter(Map(a, Trim), IsMarked);
    var fb := Filter(Map(b, Trim), IsMarked);
    MapConcat(fa, fb, StripMarker);
    FilterConcat(Map(fa, StripMarker), Map(fb, StripMarker), NonEmpty);
  }

  /** Every question of the fallback is non-empty text that starts with
      neither white space nor a line break. */
  lemma BulletQuestionsWellFormed(text: string, q: string)
    requires q in BulletLines(text)
    ensures q != "" && !IsSpace(q[0])
  {
    BulletsWellFormed(SplitLines(text), q);
  }

  lemma BulletsWellFormed(lines: seq<string>, q: string)
    requires q in BulletsOf(lines)
    ensures q != "" && !IsSpace(q[0])
  {
    var trimmed := Map(lines, Trim);
    var marked := Filter(trimmed, IsMarked);
    var stripped := Map(marked, StripMarker);
    assert q in stripped;
    var k :| 0 <= k < |stripped| && stripped[k] == q;
    var l := marked[k];
    assert l in trimmed && IsMarked(l);
    TrimmedLineIsFixed(lines, l);
    StrippedMarkedLine(l);
  }

  /** A line of `Map(lines, Trim)` is its own trim. */
  lemma TrimmedLineIsFixed(lines: seq<string>, l: string)
    requires l in Map(lines, Trim)
    ensures l == Trim(l)
  {
    var trimmed := Map(lines, Trim);
    var m :| 0 <= m < |trimmed| && trimmed[m] == l;
    TrimIdempotent(lines[m]);
  }

  // ---------------------------------------------------------------------
  // The strategy chain.

  /** One direct-parse candidate: only a trimmed text starting with `[` or
      `{` is handed to `JSON.parse`; a parsed array is the answer, and so is
      the `interviewQuestions` member of a parsed value when it is an array. */
  function CandidateQuestions(cand: string, parse: string -> Option<JsonValue>): Option<seq<JsonValue>> {
    var t := Trim(cand);
    if !(StartsWith(t, "[") || StartsWith(t, "{")) then None
    else
      match parse(t)
      case None => None
      case Some(obj) =>
        if obj.JArray? then Some(obj.items)
        else if Truthy(obj) && Member(obj, "interviewQuestions").Some?
                && Member(obj, "interviewQuestions").value.JArray? then
          Some(Member(obj, "interviewQuestions").value.items)
        else None
  }

  /** A matched span, parsed, when it is an array. */
  function ParsedArray(span: Option<string>, parse: string -> Option<JsonValue>): Option<seq<JsonValue>> {
    if span.Some? && parse(span.value).Some? && parse(span.value).value.JArray? then
      Some(parse(span.value).value.items)
    else None
  }

  /** The direct-parse candidates, in order: the fenced body when non-empty,
      then the whole text. */
  function Candidates(text: string): seq<string> {
    CandidatesOf(FencedBody(text), text)
  }

  function CandidatesOf(fenced: string, text: string): (cs: seq<string>)
    ensures 1 <= |cs| <= 2 && cs[|cs| - 1] == text
  {
    (if fenced != "" then [fenced] else []) + [text]
  }

  /** The direct-parse outcomes, one per candidate. */
  function CandidateResults(cs: seq<string>, parse: string -> Option<JsonValue>): (rs: seq<Option<seq<JsonValue>>>)
    ensures |rs| == |cs| && forall m :: 0 <= m < |cs| ==> rs[m] == CandidateQuestions(cs[m], parse)
  {
    seq(|cs|, m requires 0 <= m < |cs| => CandidateQuestions(cs[m], parse))
  }

  /** The first outcome that is a list, if any. */
  function FirstFound(rs: seq<Option<seq<JsonValue>>>): Option<seq<JsonValue>> {
    if rs == [] then None else if rs[0].Some? then rs[0] else FirstFound(rs[1..])
  }

  /** The strategies tried once no candidate parsed, in order: the
      `interviewQuestions = [...]` assignment, the first bracketed span,
      the bulleted list; the empty list when all of them fail. */
  function Fallbacks(text: string, parse: string -> Option<JsonValue>): seq<JsonValue> {
    var fromAssignment := ParsedArray(AssignedArray(text), parse);
    var bracketed := ParsedArray(FirstBracketSpan(text), parse);
    var bullets := BulletLines(text);
    if fromAssignment.Some? then fromAssignment.value
    else if bracketed.Some? then bracketed.value
    else if bullets != [] then Map(bullets, BulletQuestion)
    else []
  }

  /** The answer of the strategy chain for a trimmed, non-empty reply. */
  function ChainAnswer(text: string, parse: string -> Option<JsonValue>): seq<JsonValue> {
    var direct := FirstFound(CandidateResults(Candidates(text), parse));
    if direct.Some? then direct.value else Fallbacks(text, parse)
  }

  /** The reply text the strategies work on: the trimmed string, or '' for
      a reply that is not a string. */
  function ReplyText(content: Content): string {
    if content.Text? then Trim(content.s) else ""
  }

  /** What `extractQuestionsFromContent` returns. */
  function ExtractedQuestions(content: Content, parse: string -> Option<JsonValue>): seq<JsonValue> {
    var text := ReplyText(content);
    if text == "" then [] else ChainAnswer(text, parse)
  }

  /** The first success is the outcome at the first index that succeeds. */
  lemma {:induction false} FirstFoundAt(rs: seq<Option<seq<JsonValue>>>, k: nat)
    requires k < |rs| && rs[k].Some?
    requires forall m :: 0 <= m < k ==> rs[m].None?
    ensures FirstFound(rs) == rs[k]
    decreases k
  {
    if k > 0 {
      FirstFoundAt(rs[1..], k - 1);
    }
  }

  /** Nothing is found when every outcome fails. */
  lemma {:induction false} FirstFoundNone(rs: seq<Option<seq<JsonValue>>>)
    requires forall m :: 0 <= m < |rs| ==> rs[m].None?
    ensures FirstFound(rs).None?
    decreases |rs|
  {
    if rs != [] {
      FirstFoundNone(rs[1..]);
    }
  }

  // ---------------------------------------------------------------------
  // The extractor.

  /** The loop over the candidates: the first candidate that yields a
      list, or `None` when every candidate falls through. */
  method TryCandidates(candidates: seq<string>, parse: string -> Option<JsonValue>) returns (found: Option<seq<JsonValue>>)
    ensures found == FirstFound(CandidateResults(candidates, parse))
  {
    ghost var rs := CandidateResults(candidates, parse);
    for k := 0 to |candidates|
      invariant forall m :: 0 <= m < k ==> rs[m].None?
    {
      assert rs[k] == CandidateQuestions(candidates[k], parse);
      var trimmed := Trim(candidates[k]);
      if StartsWith(trimmed, "[") || StartsWith(trimmed, "{") {
        var obj := parse(trimmed);
        if obj.Some? {
          if obj.value.JArray? {
            FirstFoundAt(rs, k);
            return Some(obj.value.items);
          }
          var member := Member(obj.value, "interviewQuestions");
          if Truthy(obj.value) && member.Some? && member.value.JArray? {
            FirstFoundAt(rs, k);
            return Some(member.value.items);
          }
        }
      }
    }
    FirstFoundNone(rs);
    return None;
  }

  /** `extractQuestionsFromContent(content)`, with `JSON.parse` given as
      `parse`. It is total: every input yields a list. */
  method ExtractQuestions(content: Content, parse: string -> Option<JsonValue>) returns (qs: seq<JsonValue>)
    ensures qs == ExtractedQuestions(content, parse)
  {
    var text := if content.Text? then Trim(content.s) else "";
    if text == "" {
      return [];
    }

    var fencedBody := FencedBody(text);
    var candidates: seq<string> := [];
    if fencedBody != "" {
      candidates := candidates + [fencedBody];
      assert candidates == [fencedBody];
    }
    candidates := candidates + [text];
    assert candidates == CandidatesOf(fencedBody, text) by {
      if fencedBody != "" {
        assert candidates == [fencedBody] + [text];
      } else {
        assert candidates == [] + [text];
      }
    }
    var direct := TryCandidates(candidates, parse);
    ExtractedFromParts(content, parse, direct);
    if direct.Some? {
      return direct.value;
    }
    qs := TryFallbacks(ReplyText(content), parse);
  }

  /** The answer for a non-blank reply, in terms of the candidate loop's
      outcome. */
  lemma ExtractedFromParts(content: Content, parse: string -> Option<JsonValue>, direct: Option<seq<JsonValue>>)
    requires ReplyText(content) != ""
    requires direct == FirstFound(CandidateResults(Candidates(ReplyText(content)), parse))
    ensures ExtractedQuestions(content, parse) == if direct.Some? then direct.value else Fallbacks(ReplyText(content), parse)
  {
  }

  /** The strategies after the candidate loop, each returning as soon as it
      yields a list. */
  method TryFallbacks(text: string, parse: string -> Option<JsonValue>) returns (qs: seq<JsonValue>)
    ensures qs == Fallbacks(text, parse)
  {
    var ivq := AssignedArray(text);
    if ivq.Some? {
      var arr := parse(ivq.value);
      if arr.Some? && arr.value.JArray? {
        return arr.value.items;
      }
    }

    var anyArray := FirstBracketSpan(text);
    if anyArray.Some? {
      var arr := parse(anyArray.value);
      if arr.Some? && arr.value.JArray? {
        return arr.value.items;
      }
    }

    var bullets := BulletLines(text);
    if |bullets| > 0 {
      return Map(bullets, BulletQuestion);
    }
    return [];
  }

  // ---------------------------------------------------------------------
  // Properties of the chain.

  /** A reply that is not a string, is empty or is only white space yields
      no questions. */
  lemma BlankReplyYieldsNothing(content: Content, parse: string -> Option<JsonValue>)
    requires content.NotText? || AllSpace(content.s)
    ensures ExtractedQuestions(content, parse) == []
  {
    if content.Text? {
      TrimEmptyIffAllSpace(content.s);
    }
  }

  /** The fenced body, when there is one, is tried before the whole text:
      when it parses to a list of questions, that list is the answer,
      whatever the whole text would give. */
  lemma FencedBodyFirst(text: string, parse: string -> Option<JsonValue>, xs: seq<JsonValue>)
    requires FencedBody(text) != ""
    requires CandidateQuestions(FencedBody(text), parse) == Some(xs)
    ensures ChainAnswer(text, parse) == xs
  {
    FirstFoundAt(CandidateResults(Candidates(text), parse), 0);
  }

  /** Without a usable fenced body, a whole text that parses to a list of
      questions gives that list. */
  lemma WholeTextSecond(text: string, parse: string -> Option<JsonValue>, xs: seq<JsonValue>)
    requires FencedBody(text) == "" || CandidateQuestions(FencedBody(text), parse).None?
    requires CandidateQuestions(text, parse) == Some(xs)
    ensures ChainAnswer(text, parse) == xs
  {
    WholeTextAfter(FencedBody(text), text, parse, xs);
  }

  lemma WholeTextAfter(fenced: string, text: string, parse: string -> Option<JsonValue>, xs: seq<JsonValue>)
    requires fenced == "" || CandidateQuestions(fenced, parse).None?
    requires CandidateQuestions(text, parse) == Some(xs)
    ensures FirstFound(CandidateResults(CandidatesOf(fenced, text), parse)) == Some(xs)
  {
    if fenced == "" {
      assert CandidatesOf(fenced, text) == [text];
      FoundInOne(CandidateQuestions(text, parse));
    } else {
      assert CandidatesOf(fenced, text) == [fenced, text];
      FoundInTwo(CandidateQuestions(fenced, parse), CandidateQuestions(text, parse));
    }
  }

  lemma FoundInOne(a: Option<seq<JsonValue>>)
    ensures FirstFound([a]) == a
  {
    assert [a][1..] == [];
  }

  lemma FoundInTwo(a: Option<seq<JsonValue>>, b: Option<seq<JsonValue>>)
    ensures FirstFound([a, b]) == if a.Some? then a else b
  {
    assert [a, b][1..] == [b];
    FoundInOne(b);
  }

  /** Only a candidate whose trimmed text starts with `[` or `{` is parsed:
      for any other the parser is never consulted. */
  lemma OnlyBracketedCandidatesParsed(cand: string, p1: string -> Option<JsonValue>, p2: string -> Option<JsonValue>)
    requires !StartsWith(Trim(cand), "[") && !StartsWith(Trim(cand), "{")
    ensures CandidateQuestions(cand, p1) == CandidateQuestions(cand, p2) == None
  {
  }

  /** A candidate that does not parse, or parses to something that is
      neither an array nor a value with an `interviewQuestions` array, falls
      through: the answer is then that of the later strategies. */
  lemma FailedCandidatesFallThrough(text: string, parse: string -> Option<JsonValue>)
    requires forall c :: c in Candidates(text) ==>
      var p := parse(Trim(c));
      p.None? || (!p.value.JArray? && !(Member(p.value, "interviewQuestions").Some? && Member(p.value, "interviewQuestions").value.JArray?))
    ensures ChainAnswer(text, parse) == Fallbacks(text, parse)
  {
    var cs := Candidates(text);
    var rs := CandidateResults(cs, parse);
    forall m | 0 <= m < |rs| ensures rs[m].None? {
      assert cs[m] in cs;
    }
    FirstFoundNone(rs);
  }

  /** When no strategy succeeds the answer is the empty list. */
  lemma NoStrategyYieldsEmpty(text: string, parse: string -> Option<JsonValue>)
    requires forall c :: c in Candidates(text) ==> CandidateQuestions(c, parse).None?
    requires ParsedArray(AssignedArray(text), parse).None? && ParsedArray(FirstBracketSpan(text), parse).None?
    requires BulletLines(text) == []
    ensures ChainAnswer(text, parse) == []
  {
    CandidatesFallThrough(text, parse);
  }

  /** The bulleted-list fallback: when every earlier strategy fails and some
      trimmed line is marked, the answer is one 'General' question per
      marked line, in source order, each holding the line's text after the
      marker. */
  lemma BulletFallback(text: string, parse: string -> Option<JsonValue>)
    requires forall c :: c in Candidates(text) ==> CandidateQuestions(c, parse).None?
    requires ParsedArray(AssignedArray(text), parse).None? && ParsedArray(FirstBracketSpan(text), parse).None?
    requires BulletLines(text) != []
    ensures ChainAnswer(text, parse) == Map(BulletLines(text), BulletQuestion)
    ensures forall q :: q in ChainAnswer(text, parse) ==>
      q.JObject? && q.members["type"] == JString("General") && q.members["question"].JString?
  {
    CandidatesFallThrough(text, parse);
    GeneralQuestions(BulletLines(text));
  }

  /** When no candidate yields a list, the later strategies answer. */
  lemma CandidatesFallThrough(text: string, parse: string -> Option<JsonValue>)
    requires forall c :: c in Candidates(text) ==> CandidateQuestions(c, parse).None?
    ensures ChainAnswer(text, parse) == Fallbacks(text, parse)
  {
    var cs := Candidates(text);
    var rs := CandidateResults(cs, parse);
    forall m | 0 <= m < |rs| ensures rs[m].None? {
      assert cs[m] in cs;
    }
    FirstFoundNone(rs);
  }

  /** Every bullet question is an object whose type is 'General' and whose
      question is a string. */
  lemma GeneralQuestions(lines: seq<string>)
    ensures forall q :: q in Map(lines, BulletQuestion) ==>
      q.JObject? && q.members["type"] == JString("General") && q.members["question"].JString?
  {
    var qs := Map(lines, BulletQuestion);
    forall q | q in qs ensures q.JObject? && q.members["type"] == JString("General") && q.members["question"].JString? {
      var k :| 0 <= k < |qs| && qs[k] == q;
      assert q == BulletQuestion(lines[k]);
    }
  }
}
