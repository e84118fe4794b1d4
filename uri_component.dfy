/** `encodeURIComponent`, written out: every character outside the set
    ECMAScript leaves alone is replaced by the percent-encoding (section 2.1
    of RFC 3986) of its UTF-8 bytes (RFC 3629), with upper-case hexadecimal
    digits. `Decode` is `decodeURIComponent`, the inverse the link's receiver
    applies, and `Fields` splits a query string on its `&` separators the
    way a receiver reads its parameters. */
module UriComponent {
  import opened Options

  /** The characters `encodeURIComponent` copies unchanged: ASCII letters,
      digits and `- _ . ! ~ * ' ( )`. */
  predicate Unreserved(c: char) {
    || ('A' <= c <= 'Z') || ('a' <= c <= 'z') || ('0' <= c <= '9')
    || c == '-' || c == '_' || c == '.' || c == '!' || c == '~'
    || c == '*' || c == '\'' || c == '(' || c == ')'
  }

  /** The characters an encoded text is made of. */
  predicate EncodedChar(c: char) {
    Unreserved(c) || c == '%'
  }

  predicate AllEncoded(s: string) {
    forall k :: 0 <= k < |s| ==> EncodedChar(s[k])
  }

  /** An upper-case hexadecimal digit. */
  function HexDigit(d: nat): (c: char)
    requires d < 16
    ensures Unreserved(c)
  {
    if d < 10 then ('0' as int + d) as char else ('A' as int + d - 10) as char
  }

  predicate IsHex(c: char) {
    ('0' <= c <= '9') || ('A' <= c <= 'F') || ('a' <= c <= 'f')
  }

  function HexValue(c: char): (d: nat)
    requires IsHex(c)
    ensures d < 16
  {
    if c <= '9' then c as int - '0' as int
    else if c <= 'F' then c as int - 'A' as int + 10
    else c as int - 'a' as int + 10
  }

  lemma HexRoundTrip(d: nat)
    requires d < 16
    ensures IsHex(HexDigit(d)) && HexValue(HexDigit(d)) == d
  {
  }

  /** Byte values. */
  predicate Bytes(bs: seq<nat>) {
    forall k :: 0 <= k < |bs| ==> bs[k] < 256
  }

  /** The UTF-8 encoding of a code point: one byte below 0x80, otherwise a
      lead byte carrying the high bits and continuation bytes `10xxxxxx`
      carrying six bits each. */
  function Utf8(c: char): (bs: seq<nat>)
    ensures 1 <= |bs| <= 4 && Bytes(bs)
  {
    var n := c as int;
    if n < 0x80 then [n]
    else if n < 0x800 then [0xC0 + n / 0x40, 0x80 + n % 0x40]
    else if n < 0x1_0000 then [0xE0 + n / 0x1000, 0x80 + n / 0x40 % 0x40, 0x80 + n % 0x40]
    else [0xF0 + n / 0x4_0000, 0x80 + n / 0x1000 % 0x40, 0x80 + n / 0x40 % 0x40, 0x80 + n % 0x40]
  }

  /** `%XX` for every byte. */
  function Percent(bs: seq<nat>): (r: string)
    requires Bytes(bs)
    ensures |r| == 3 * |bs| && AllEncoded(r)
  {
    if bs == [] then []
    else ['%', HexDigit(bs[0] / 16), HexDigit(bs[0] % 16)] + Percent(bs[1..])
  }

  function EncodeChar(c: char): (r: string)
    ensures |r| >= 1 && AllEncoded(r)
  {
    if Unreserved(c) then [c] else Percent(Utf8(c))
  }

  /** `encodeURIComponent(s)`. The result holds nothing but unreserved
      characters and `%`: no `&`, `=`, `?` or `#` of the text survives to
      break the URL it is put in. */
  function Encode(s: string): (r: string)
    ensures |r| >= |s| && AllEncoded(r)
  {
    if s == [] then [] else EncodeChar(s[0]) + Encode(s[1..])
  }

  /** Encoding works character by character. */
  lemma {:induction false} EncodeAppend(a: string, b: string)
    ensures Encode(a + b) == Encode(a) + Encode(b)
    decreases |a|
  {
    if a != [] {
      assert (a + b)[0] == a[0];
      assert (a + b)[1..] == a[1..] + b;
      EncodeAppend(a[1..], b);
    } else {
      assert a + b == b;
    }
  }

  /** Text made of unreserved characters only is left as it is, and any
      other text is changed. */
  lemma {:induction false} EncodeFixesExactlyUnreserved(s: string)
    ensures Encode(s) == s <==> forall k :: 0 <= k < |s| ==> Unreserved(s[k])
    decreases |s|
  {
    if s != [] {
      EncodeFixesExactlyUnreserved(s[1..]);
      if Unreserved(s[0]) {
        assert Encode(s) == [s[0]] + Encode(s[1..]);
        if Encode(s[1..]) == s[1..] {
          assert s == [s[0]] + s[1..];
        } else {
          assert Encode(s)[1..] == Encode(s[1..]);
        }
        assert (forall k :: 1 <= k < |s| ==> Unreserved(s[k])) ==
          (forall k :: 0 <= k < |s[1..]| ==> Unreserved(s[1..][k]));
      } else {
        assert |EncodeChar(s[0])| >= 3;
      }
    }
  }

  // ---------------------------------------------------------------------
  // Decoding.

  /** The byte written as `%XX` at index `i` of `t`, if one is written
      there. */
  function ByteAt(t: string, i: nat): (r: Option<nat>)
    ensures r.Some? ==> r.value < 256
  {
    if i + 3 <= |t| && t[i] == '%' && IsHex(t[i + 1]) && IsHex(t[i + 2])
    then Some(HexValue(t[i + 1]) * 16 + HexValue(t[i + 2]))
    else None
  }

  /** The length of the UTF-8 sequence a lead byte starts, and the code
      point bits the lead byte carries. */
  function LeadByte(b: nat): Option<(nat, nat)> {
    if 0xC0 <= b < 0xE0 then Some((2, b - 0xC0))
    else if 0xE0 <= b < 0xF0 then Some((3, b - 0xE0))
    else if 0xF0 <= b < 0xF8 then Some((4, b - 0xF0))
    else None
  }

  /** The bits of `count` continuation bytes, written as `%XX` from index
      `i` on, appended to `bits`. */
  function Continuation(t: string, i: nat, count: nat, bits: nat): Option<nat>
    decreases count
  {
    if count == 0 then Some(bits)
    else match ByteAt(t, i)
      case Some(b) =>
        if 0x80 <= b < 0xC0 then Continuation(t, i + 3, count - 1, bits * 0x40 + (b - 0x80)) else None
      case None => None
  }

  /** The least code point a sequence of `n` bytes may encode: anything
      smaller is an overlong encoding. */
  function MinCodePoint(n: nat): nat {
    if n == 2 then 0x80 else if n == 3 then 0x800 else 0x1_0000
  }

  /** A Unicode scalar value: a code point that is not a surrogate. */
  predicate ScalarValue(n: int) {
    (0 <= n < 0xD800) || (0xE000 <= n < 0x11_0000)
  }

  function Prefixed(c: char, r: Option<string>): Option<string> {
    if r.Some? then Some([c] + r.value) else None
  }

  /** `decodeURIComponent(t)`, `None` where it throws a `URIError`: a `%`
      not followed by two hexadecimal digits, a byte sequence that is not
      well-formed UTF-8, an overlong form, a surrogate or a code point past
      U+10FFFF. */
  function Decode(t: string): Option<string>
    decreases |t|
  {
    if t == [] then Some([])
    else if t[0] != '%' then Prefixed(t[0], Decode(t[1..]))
    else match ByteAt(t, 0)
      case None => None
      case Some(b) =>
        if b < 0x80 then Prefixed(b as char, Decode(t[3..]))
        else match LeadByte(b)
          case None => None
          case Some((n, bits)) =>
            match Continuation(t, 3, n - 1, bits)
              case None => None
              case Some(cp) =>
                if MinCodePoint(n) <= cp && ScalarValue(cp) && 3 * n <= |t|
                then Prefixed(cp as char, Decode(t[3 * n..]))
                else None
  }

  /** Reading a byte behind a three-character prefix. */
  lemma ByteAtShift(h: string, r: string, t: string, i: nat)
    requires |h| == 3
    ensures ByteAt(h + r + t, i + 3) == ByteAt(r + t, i)
  {
    if i + 3 <= |r + t| {
      assert (h + r + t)[i + 3..i + 6] == (r + t)[i..i + 3];
    }
  }

  /** `%XX` reads back as the byte it writes. */
  lemma PercentFirstByte(b: nat, r: string, t: string)
    requires b < 256
    ensures ByteAt(['%', HexDigit(b / 16), HexDigit(b % 16)] + r + t, 0) == Some(b)
  {
    HexRoundTrip(b / 16);
    HexRoundTrip(b % 16);
  }

  /** The first byte of a percent-encoded run. */
  lemma PercentHeadByte(bs: seq<nat>, t: string)
    requires Bytes(bs) && bs != []
    ensures ByteAt(Percent(bs) + t, 0) == Some(bs[0])
  {
    var head := ['%', HexDigit(bs[0] / 16), HexDigit(bs[0] % 16)];
    assert Percent(bs) + t == head + Percent(bs[1..]) + t;
    PercentFirstByte(bs[0], Percent(bs[1..]), t);
  }

  /** A byte of the rest of a run is read three characters further on in
      the whole run. */
  lemma PercentNextByte(bs: seq<nat>, t: string, i: nat)
    requires Bytes(bs) && 0 < i < |bs|
    requires ByteAt(Percent(bs[1..]) + t, 3 * (i - 1)) == Some(bs[i])
    ensures ByteAt(Percent(bs) + t, 3 * i) == Some(bs[i])
  {
    var head := ['%', HexDigit(bs[0] / 16), HexDigit(bs[0] % 16)];
    assert Percent(bs) == head + Percent(bs[1..]);
    ShiftedByte(Percent(bs) + t, head, Percent(bs[1..]), t, 3 * (i - 1), 3 * i, Some(bs[i]));
  }

  /** `ByteAtShift` for a text known to be made of the three pieces. */
  lemma ShiftedByte(u: string, head: string, rest: string, t: string, j: nat, k: nat, b: Option<nat>)
    requires |head| == 3 && u == head + rest + t && k == j + 3 && ByteAt(rest + t, j) == b
    ensures ByteAt(u, k) == b
  {
    ByteAtShift(head, rest, t, j);
  }

  /** The `i`-th byte of a percent-encoded run is read back at index
      `3 * i`, whatever follows the run. */
  lemma {:induction false} PercentByteAt(bs: seq<nat>, t: string, i: nat)
    requires Bytes(bs) && i < |bs|
    ensures ByteAt(Percent(bs) + t, 3 * i) == Some(bs[i])
    decreases i
  {
    if i == 0 {
      PercentHeadByte(bs, t);
    } else {
      PercentByteAt(bs[1..], t, i - 1);
      assert bs[1..][i - 1] == bs[i];
      PercentNextByte(bs, t, i);
    }
  }

  /** What follows a percent-encoded run is left after it. */
  lemma PercentRest(bs: seq<nat>, t: string)
    requires Bytes(bs)
    ensures (Percent(bs) + t)[3 * |bs|..] == t
  {
  }

  /** The code point bits of the continuation bytes of `Utf8(c)`. */
  lemma SixBits(n: nat)
    ensures n == n / 0x40 * 0x40 + n % 0x40
    ensures n / 0x40 == n / 0x1000 * 0x40 + n / 0x40 % 0x40
    ensures n / 0x1000 == n / 0x4_0000 * 0x40 + n / 0x1000 % 0x40
  {
  }

  /** A well-formed multi-byte sequence decodes to its code point, and
      decoding carries on after it. */
  lemma DecodeSequence(s: string, b: nat, n: nat, bits: nat, cp: nat, t: string, count: nat, len: nat)
    requires count == n - 1 && len == 3 * n
    requires s != [] && s[0] == '%' && ByteAt(s, 0) == Some(b) && 0x80 <= b
    requires LeadByte(b) == Some((n, bits)) && Continuation(s, 3, count, bits) == Some(cp)
    requires MinCodePoint(n) <= cp && ScalarValue(cp) && len <= |s| && s[len..] == t
    ensures Decode(s) == Prefixed(cp as char, Decode(t))
  {
  }

  /** One continuation byte read. */
  lemma ContinuationStep(s: string, i: nat, count: nat, bits: nat, b: nat, next: nat, more: nat, bits': nat)
    requires count > 0 && ByteAt(s, i) == Some(b) && 0x80 <= b < 0xC0
    requires next == i + 3 && more == count - 1 && bits' == bits * 0x40 + (b - 0x80)
    ensures Continuation(s, i, count, bits) == Continuation(s, next, more, bits')
  {
  }

  /** The arithmetic of a two-byte UTF-8 sequence. */
  lemma Utf8Two(c: char)
    requires 0x80 <= c as int < 0x800
    ensures var n, bs := c as int, Utf8(c);
      && |bs| == 2 && 0xC0 <= bs[0] < 0xE0 && 0x80 <= bs[1] < 0xC0
      && (bs[0] - 0xC0) * 0x40 + (bs[1] - 0x80) == n
  {
  }

  /** The arithmetic of a three-byte UTF-8 sequence. */
  lemma Utf8Three(c: char)
    requires 0x800 <= c as int < 0x1_0000
    ensures var n, bs := c as int, Utf8(c);
      && |bs| == 3 && 0xE0 <= bs[0] < 0xF0 && 0x80 <= bs[1] < 0xC0 && 0x80 <= bs[2] < 0xC0
      && ((bs[0] - 0xE0) * 0x40 + (bs[1] - 0x80)) * 0x40 + (bs[2] - 0x80) == n
  {
    SixBits(c as int);
  }

  /** The arithmetic of a four-byte UTF-8 sequence. */
  lemma Utf8Four(c: char)
    requires 0x1_0000 <= c as int
    ensures var n, bs := c as int, Utf8(c);
      && |bs| == 4 && 0xF0 <= bs[0] < 0xF8 && 0x80 <= bs[1] < 0xC0
      && 0x80 <= bs[2] < 0xC0 && 0x80 <= bs[3] < 0xC0
      && (((bs[0] - 0xF0) * 0x40 + (bs[1] - 0x80)) * 0x40 + (bs[2] - 0x80)) * 0x40 + (bs[3] - 0x80) == n
  {
    SixBits(c as int);
  }

  lemma DecodeEncodeTwo(c: char, t: string)
    requires 0x80 <= c as int < 0x800
    ensures Decode(EncodeChar(c) + t) == Prefixed(c, Decode(t))
  {
    var s := EncodeChar(c) + t;
    var bs := Utf8(c);
    Utf8Two(c);
    PercentByteAt(bs, t, 0);
    PercentByteAt(bs, t, 1);
    assert s == Percent(bs) + t;
    assert ByteAt(s, 3) == Some(bs[1]);
    var q := bs[0] - 0xC0;
    ContinuationStep(s, 3, 1, q, bs[1], 6, 0, c as int);
    PercentRest(bs, t);
    assert s[6..] == t;
    DecodeSequence(s, bs[0], 2, q, c as int, t, 1, 6);
  }

  lemma DecodeEncodeThree(c: char, t: string)
    requires 0x800 <= c as int < 0x1_0000
    ensures Decode(EncodeChar(c) + t) == Prefixed(c, Decode(t))
  {
    var s := EncodeChar(c) + t;
    var bs := Utf8(c);
    Utf8Three(c);
    assert s == Percent(bs) + t;
    PercentByteAt(bs, t, 0);
    PercentByteAt(bs, t, 1);
    PercentByteAt(bs, t, 2);
    assert ByteAt(s, 3) == Some(bs[1]) && ByteAt(s, 6) == Some(bs[2]);
    var q := bs[0] - 0xE0;
    var q1 := q * 0x40 + (bs[1] - 0x80);
    ContinuationStep(s, 3, 2, q, bs[1], 6, 1, q1);
    ContinuationStep(s, 6, 1, q1, bs[2], 9, 0, c as int);
    PercentRest(bs, t);
    assert s[9..] == t;
    DecodeSequence(s, bs[0], 3, q, c as int, t, 2, 9);
  }

  lemma DecodeEncodeFour(c: char, t: string)
    requires 0x1_0000 <= c as int
    ensures Decode(EncodeChar(c) + t) == Prefixed(c, Decode(t))
  {
    var s := EncodeChar(c) + t;
    var bs := Utf8(c);
    Utf8Four(c);
    assert s == Percent(bs) + t;
    PercentByteAt(bs, t, 0);
    PercentByteAt(bs, t, 1);
    PercentByteAt(bs, t, 2);
    PercentByteAt(bs, t, 3);
    assert ByteAt(s, 3) == Some(bs[1]) && ByteAt(s, 6) == Some(bs[2]) && ByteAt(s, 9) == Some(bs[3]);
    var q := bs[0] - 0xF0;
    var q1 := q * 0x40 + (bs[1] - 0x80);
    var q2 := q1 * 0x40 + (bs[2] - 0x80);
    ContinuationStep(s, 3, 3, q, bs[1], 6, 2, q1);
    ContinuationStep(s, 6, 2, q1, bs[2], 9, 1, q2);
    ContinuationStep(s, 9, 1, q2, bs[3], 12, 0, c as int);
    PercentRest(bs, t);
    assert s[12..] == t;
    DecodeSequence(s, bs[0], 4, q, c as int, t, 3, 12);
  }

  /** One encoded character decodes to that character, and decoding
      carries on with what follows it. */
  lemma DecodeEncodeChar(c: char, t: string)
    ensures Decode(EncodeChar(c) + t) == Prefixed(c, Decode(t))
  {
    var n := c as int;
    if Unreserved(c) {
      assert (EncodeChar(c) + t)[1..] == t;
    } else if n < 0x80 {
      var s := EncodeChar(c) + t;
      PercentRest(Utf8(c), t);
      PercentByteAt(Utf8(c), t, 0);
      SixBits(n);
      assert (n as char) == c;
    } else if n < 0x800 {
      DecodeEncodeTwo(c, t);
    } else if n < 0x1_0000 {
      DecodeEncodeThree(c, t);
    } else {
      DecodeEncodeFour(c, t);
    }
  }

  /** Decoding undoes encoding: `decodeURIComponent(encodeURIComponent(s))`
      is `s`, so the encoded text loses nothing. */
  lemma {:induction false} DecodeEncode(s: string)
    ensures Decode(Encode(s)) == Some(s)
    decreases |s|
  {
    if s != [] {
      DecodeEncodeChar(s[0], Encode(s[1..]));
      DecodeEncode(s[1..]);
      assert [s[0]] + s[1..] == s;
    }
  }

  /** Two texts with the same encoding are the same text. */
  lemma EncodeInjective(a: string, b: string)
    requires Encode(a) == Encode(b)
    ensures a == b
  {
    DecodeEncode(a);
    DecodeEncode(b);
  }

  // ---------------------------------------------------------------------
  // Query strings.

  /** `s.split('&')`: the pieces between the `&` separators, in order. */
  function Fields(s: string): (r: seq<string>)
    ensures |r| >= 1
    decreases |s|
  {
    if s == [] then [[]]
    else
      var init := Fields(s[..|s| - 1]);
      if s[|s| - 1] == '&' then init + [[]]
      else init[..|init| - 1] + [init[|init| - 1] + [s[|s| - 1]]]
  }

  /** Text without `&` extends the last field. */
  lemma {:induction false} FieldsExtendLast(x: string, y: string)
    requires '&' !in y
    ensures var f := Fields(x);
      Fields(x + y) == f[..|f| - 1] + [f[|f| - 1] + y]
    decreases |y|
  {
    var f := Fields(x);
    if y == [] {
      assert x + y == x;
      assert f[|f| - 1] + y == f[|f| - 1];
      assert f == f[..|f| - 1] + [f[|f| - 1]];
    } else {
      var y0 := y[..|y| - 1];
      var c := y[|y| - 1];
      assert x + y == (x + y0) + [c];
      FieldsExtendLast(x, y0);
      FieldsPushChar(x + y0, c);
      var g := Fields(x + y0);
      assert g[..|g| - 1] == f[..|f| - 1];
      assert f[|f| - 1] + y0 + [c] == f[|f| - 1] + y;
    }
  }

  /** One character other than `&` extends the last field. */
  lemma FieldsPushChar(x: string, c: char)
    requires c != '&'
    ensures var f := Fields(x);
      Fields(x + [c]) == f[..|f| - 1] + [f[|f| - 1] + [c]]
  {
    var s := x + [c];
    assert s[..|s| - 1] == x && s[|s| - 1] == c;
  }

  /** Text without `&` is a single field. */
  lemma FieldsOfFree(y: string)
    requires '&' !in y
    ensures Fields(y) == [y]
  {
    FieldsExtendLast([], y);
    assert [] + y == y;
  }

  /** A trailing `&` opens an empty field. */
  lemma FieldsAfterAmpersand(x: string)
    ensures Fields(x + ['&']) == Fields(x) + [[]]
  {
    var x1 := x + ['&'];
    assert x1[..|x1| - 1] == x && x1[|x1| - 1] == '&';
  }

  /** Filling the empty last field of `f + [[]]` with `w`. */
  lemma FillEmptyLast(f: seq<string>, w: string)
    ensures var g := f + [[]]; g[..|g| - 1] + [g[|g| - 1] + w] == f + [w]
  {
    var g := f + [[]];
    assert g[..|g| - 1] == f;
    assert g[|g| - 1] + w == w;
  }

  /** A separator followed by text without `&` adds that text as a new
      field. */
  lemma FieldsAfterSeparator(x: string, p: string, y: string)
    requires p != [] && p[0] == '&' && '&' !in p[1..] && '&' !in y
    ensures Fields(x + p + y) == Fields(x) + [p[1..] + y]
  {
    var w := p[1..] + y;
    assert '&' !in w;
    assert p == ['&'] + p[1..];
    assert x + p + y == x + ['&'] + w;
    FieldsAfterAmpersand(x);
    FieldsExtendLast(x + ['&'], w);
    FillEmptyLast(Fields(x), w);
  }
}
