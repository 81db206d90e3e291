/** `encodeURIComponent` as ECMAScript defines it: every character outside the
    unreserved set `A-Z a-z 0-9 - _ . ! ~ * ' ( )` becomes the `%XX` escapes
    (upper-case hex) of its UTF-8 bytes. `Decode` is its left inverse, so an
    encoded destination carries its text intact and cannot add `&`, `=`, `#`
    or spaces to the URL it is appended to. */
module Uri {

  import opened Js
  import opened Seqs

  predicate Unreserved(c: char)
  {
    ('A' <= c <= 'Z') || ('a' <= c <= 'z') || ('0' <= c <= '9')
    || c == '-' || c == '_' || c == '.' || c == '!' || c == '~' || c == '*'
    || c == '\'' || c == '(' || c == ')'
  }

  /** The characters an encoded component may contain. */
  predicate UriSafe(c: char)
  {
    Unreserved(c) || c == '%'
  }

  predicate IsScalar(cp: int)
  {
    (0 <= cp < 0xD800) || (0xE000 <= cp < 0x11_0000)
  }

  /** The UTF-8 bytes of a code point. */
  function Utf8(cp: int): (bs: seq<int>)
    requires 0 <= cp < 0x11_0000
    ensures 1 <= |bs| <= 4
    ensures forall i :: 0 <= i < |bs| ==> 0 <= bs[i] < 256
  {
    if cp < 0x80 then [cp]
    else if cp < 0x800 then [0xC0 + cp / 64, 0x80 + cp % 64]
    else if cp < 0x1_0000 then [0xE0 + cp / 4096, 0x80 + (cp / 64) % 64, 0x80 + cp % 64]
    else [0xF0 + cp / 262144, 0x80 + (cp / 4096) % 64, 0x80 + (cp / 64) % 64, 0x80 + cp % 64]
  }

  function HexDigit(d: int): (c: char)
    requires 0 <= d < 16
    ensures Unreserved(c)
  {
    if d < 10 then ('0' as int + d) as char else ('A' as int + d - 10) as char
  }

  /** The `%XX` escapes of a byte sequence. */
  function Escapes(bs: seq<int>): (r: string)
    requires forall i :: 0 <= i < |bs| ==> 0 <= bs[i] < 256
    ensures |r| == 3 * |bs|
    ensures forall i :: 0 <= i < |r| ==> UriSafe(r[i])
  {
    if bs == [] then [] else ['%', HexDigit(bs[0] / 16), HexDigit(bs[0] % 16)] + Escapes(bs[1..])
  }

  function EncodeChar(c: char): (r: string)
    ensures r != []
    ensures forall i :: 0 <= i < |r| ==> UriSafe(r[i])
  {
    if Unreserved(c) then [c] else Escapes(Utf8(c as int))
  }

  /** `encodeURIComponent(s)`. */
  function EncodeURIComponent(s: string): (r: string)
    ensures |r| >= |s|
    ensures forall i :: 0 <= i < |r| ==> UriSafe(r[i])
  {
    if s == [] then [] else EncodeChar(s[0]) + EncodeURIComponent(s[1..])
  }

  function HexValue(c: char): (d: int)
    ensures -1 <= d < 16
  {
    if '0' <= c <= '9' then c as int - '0' as int
    else if 'A' <= c <= 'F' then c as int - 'A' as int + 10
    else if 'a' <= c <= 'f' then c as int - 'a' as int + 10
    else -1
  }

  /** The byte of the escape `%XY` at the head of `t`, or -1. */
  function EscapeAt(t: string, i: nat): (b: int)
    ensures -1 <= b < 256
  {
    if i + 3 <= |t| && t[i] == '%' && HexValue(t[i + 1]) >= 0 && HexValue(t[i + 2]) >= 0
    then HexValue(t[i + 1]) * 16 + HexValue(t[i + 2])
    else -1
  }

  /** The number of bytes a UTF-8 sequence has, judged by its lead byte (0 if invalid). */
  function SequenceLength(b0: int): nat
  {
    if 0 <= b0 < 0x80 then 1
    else if 0xC0 <= b0 < 0xE0 then 2
    else if 0xE0 <= b0 < 0xF0 then 3
    else if 0xF0 <= b0 < 0xF8 then 4
    else 0
  }

  predicate IsContinuation(b: int)
  {
    0x80 <= b < 0xC0
  }

  /** The code point of `n` escaped UTF-8 bytes at the head of `t`, or -1. */
  function CodePointAt(t: string, n: nat): int
  {
    var b0 := EscapeAt(t, 0);
    var b1 := EscapeAt(t, 3);
    var b2 := EscapeAt(t, 6);
    var b3 := EscapeAt(t, 9);
    if n == 1 then b0
    else if n == 2 && IsContinuation(b1) then (b0 - 0xC0) * 64 + (b1 - 0x80)
    else if n == 3 && IsContinuation(b1) && IsContinuation(b2) then
      (b0 - 0xE0) * 4096 + (b1 - 0x80) * 64 + (b2 - 0x80)
    else if n == 4 && IsContinuation(b1) && IsContinuation(b2) && IsContinuation(b3) then
      (b0 - 0xF0) * 262144 + (b1 - 0x80) * 4096 + (b2 - 0x80) * 64 + (b3 - 0x80)
    else -1
  }

  /** A decoder for encoded components: the inverse of `EncodeURIComponent`. */
  function Decode(t: string): (r: Option<string>)
    decreases |t|
  {
    if t == [] then Some([])
    else if t[0] != '%' then
      match Decode(t[1..])
      case Some(rest) => Some([t[0]] + rest)
      case None => None
    else
      var n := SequenceLength(EscapeAt(t, 0));
      var cp := CodePointAt(t, n);
      if n == 0 || 3 * n > |t| || !IsScalar(cp) then None
      else
        match Decode(t[3 * n..])
        case Some(rest) => Some([cp as char] + rest)
        case None => None
  }

  lemma HexRoundTrip(d: int)
    requires 0 <= d < 16
    ensures HexValue(HexDigit(d)) == d
  {
  }

  /** An escape written for a byte reads back as that byte. */
  lemma EscapeReadBack(t: string, i: nat, b: int)
    requires 0 <= b < 256
    requires i + 3 <= |t| && t[i..i + 3] == ['%', HexDigit(b / 16), HexDigit(b % 16)]
    ensures EscapeAt(t, i) == b
  {
    assert t[i] == '%' && t[i + 1] == HexDigit(b / 16) && t[i + 2] == HexDigit(b % 16);
    HexRoundTrip(b / 16);
    HexRoundTrip(b % 16);
  }

  /** The escapes of a byte sequence read back as those bytes, whatever follows them. */
  lemma EscapeRoundTrip(bs: seq<int>, k: nat, rest: string)
    requires forall i :: 0 <= i < |bs| ==> 0 <= bs[i] < 256
    requires k < |bs|
    ensures EscapeAt(Escapes(bs) + rest, 3 * k) == bs[k]
  {
    var e := Escapes(bs);
    EscapesAt(bs, k);
    SliceOfPrefix(e, rest, 3 * k, 3 * k + 3);
    EscapeReadBack(e + rest, 3 * k, bs[k]);
  }

  lemma SliceOfPrefix(a: string, rest: string, i: nat, j: nat)
    requires i <= j <= |a|
    ensures (a + rest)[i..j] == a[i..j]
  {
    assert forall m :: i <= m < j ==> (a + rest)[m] == a[m];
  }

  lemma SliceOfSuffix(a: string, rest: string, i: nat, j: nat)
    requires |a| <= i <= j <= |a| + |rest|
    ensures (a + rest)[i..j] == rest[i - |a|..j - |a|]
  {
    assert forall m :: i <= m < j ==> (a + rest)[m] == rest[m - |a|];
  }

  lemma {:induction false} EscapesAt(bs: seq<int>, k: nat)
    requires forall i :: 0 <= i < |bs| ==> 0 <= bs[i] < 256
    requires k < |bs|
    ensures Escapes(bs)[3 * k..3 * k + 3] == ['%', HexDigit(bs[k] / 16), HexDigit(bs[k] % 16)]
    decreases k
  {
    var h := ['%', HexDigit(bs[0] / 16), HexDigit(bs[0] % 16)];
    var t := Escapes(bs[1..]);
    assert Escapes(bs) == h + t;
    if k == 0 {
      SliceOfPrefix(h, t, 0, 3);
      assert h[0..3] == h;
    } else {
      EscapesAt(bs[1..], k - 1);
      SliceOfSuffix(h, t, 3 * k, 3 * k + 3);
      assert bs[1..][k - 1] == bs[k];
    }
  }

  /** The lead byte of a code point's UTF-8 form announces its length, the
      others are continuation bytes, and their payload bits give the code point back. */
  lemma Utf8Decodes(cp: int)
    requires 0 <= cp < 0x11_0000
    ensures var bs := Utf8(cp);
            && SequenceLength(bs[0]) == |bs|
            && (forall k :: 1 <= k < |bs| ==> IsContinuation(bs[k]))
            && (|bs| == 1 ==> bs[0] == cp)
            && (|bs| == 2 ==> (bs[0] - 0xC0) * 64 + (bs[1] - 0x80) == cp)
            && (|bs| == 3 ==> (bs[0] - 0xE0) * 4096 + (bs[1] - 0x80) * 64 + (bs[2] - 0x80) == cp)
            && (|bs| == 4 ==> (bs[0] - 0xF0) * 262144 + (bs[1] - 0x80) * 4096
                              + (bs[2] - 0x80) * 64 + (bs[3] - 0x80) == cp)
  {
    if cp < 0x80 {
    } else if cp < 0x800 {
      assert cp / 64 * 64 + cp % 64 == cp;
    } else if cp < 0x1_0000 {
      assert (cp / 64) / 64 == cp / 4096;
      assert cp / 4096 * 4096 + ((cp / 64) % 64) * 64 + cp % 64 == cp;
    } else {
      assert (cp / 64) / 64 == cp / 4096;
      assert (cp / 4096) / 64 == cp / 262144;
      assert cp / 262144 * 262144 + ((cp / 4096) % 64) * 4096 + ((cp / 64) % 64) * 64 + cp % 64 == cp;
    }
  }

  /** Decoding the escapes of one non-unreserved character gives it back. */
  lemma DecodeEscapedChar(c: char, rest: string)
    requires !Unreserved(c)
    ensures var t := Escapes(Utf8(c as int)) + rest;
            t != [] && t[0] == '%'
            && SequenceLength(EscapeAt(t, 0)) == |Utf8(c as int)|
            && CodePointAt(t, |Utf8(c as int)|) == c as int
            && t[3 * |Utf8(c as int)|..] == rest
  {
    var cp := c as int;
    var bs := Utf8(cp);
    var t := Escapes(bs) + rest;
    EscapesAt(bs, 0);
    forall k | 0 <= k < |bs| ensures EscapeAt(t, 3 * k) == bs[k] {
      EscapeRoundTrip(bs, k, rest);
    }
    Utf8Decodes(cp);
    assert t[3 * |bs|..] == rest;
  }

  lemma {:induction false} DecodeEncode(s: string)
    ensures Decode(EncodeURIComponent(s)) == Some(s)
    decreases |s|
  {
    if s != [] {
      DecodeEncode(s[1..]);
      DecodeOne(s[0], EncodeURIComponent(s[1..]), s[1..]);
      assert [s[0]] + s[1..] == s;
    }
  }

  /** One encoded character in front of a decodable text decodes to that character. */
  lemma DecodeOne(c: char, rest: string, tail: string)
    requires Decode(rest) == Some(tail)
    ensures Decode(EncodeChar(c) + rest) == Some([c] + tail)
  {
    var t := EncodeChar(c) + rest;
    if Unreserved(c) {
      assert t[0] == c && t[1..] == rest;
    } else {
      DecodeEscapedChar(c, rest);
      assert IsScalar(c as int);
      assert ((c as int) as char) == c;
    }
  }

  /** Different components never encode alike. */
  lemma EncodeInjective(a: string, b: string)
    requires EncodeURIComponent(a) == EncodeURIComponent(b)
    ensures a == b
  {
    DecodeEncode(a);
    DecodeEncode(b);
  }

  /** A component made of unreserved characters is left as it is. */
  lemma {:induction false} EncodeUnreserved(s: string)
    requires forall i :: 0 <= i < |s| ==> Unreserved(s[i])
    ensures EncodeURIComponent(s) == s
    decreases |s|
  {
    if s != [] {
      EncodeUnreserved(s[1..]);
      assert [s[0]] + s[1..] == s;
    }
  }

  lemma {:induction false} EncodeConcat(a: string, b: string)
    ensures EncodeURIComponent(a + b) == EncodeURIComponent(a) + EncodeURIComponent(b)
    decreases |a|
  {
    if a != [] {
      HeadTail(a, b);
      EncodeConcat(a[1..], b);
      AppendAssoc(EncodeChar(a[0]), EncodeURIComponent(a[1..]), EncodeURIComponent(b));
    } else {
      assert a + b == b;
    }
  }
}
