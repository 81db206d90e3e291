/** The JavaScript conventions the site's data logic leans on: absent fields,
    truthiness with `||` and `??`, and the string primitives `trim`,
    `toLowerCase`, `startsWith`, `includes` and `indexOf`. */
module Js {

  /** An optional field: `None` is `undefined` (the field is absent). */
  datatype Option<+T> = None | Some(value: T)

  /** A JSON scalar, as it can stand in an `id` or `slug` field. */
  datatype Value = Null | Bool(b: bool) | Num(n: int) | Str(s: string)

  /** JavaScript truthiness of a scalar. */
  predicate Truthy(v: Value)
  {
    match v
    case Null => false
    case Bool(b) => b
    case Num(n) => n != 0
    case Str(s) => s != ""
  }

  /** Truthiness of an optional scalar field (`undefined` is falsy). */
  predicate TruthyField(o: Option<Value>)
  {
    o.Some? && Truthy(o.value)
  }

  /** `o == null` in JavaScript: the field is absent or holds `null`. */
  predicate Nullish(o: Option<Value>)
  {
    o.None? || o.value.Null?
  }

  /** An optional string field is truthy when present and not empty. */
  predicate Given(o: Option<string>)
  {
    o.Some? && o.value != ""
  }

  /** `o || ""` for an optional string field. */
  function OrEmpty(o: Option<string>): (r: string)
    ensures Given(o) ==> r == o.value
    ensures !Given(o) ==> r == ""
  {
    if o.Some? then o.value else ""
  }

  /** `a || b` on optional strings: `a` when it is truthy, otherwise `b`, whatever `b` is. */
  function Or(a: Option<string>, b: Option<string>): (r: Option<string>)
    ensures Given(r) <==> Given(a) || Given(b)
    ensures Given(a) ==> r == a
    ensures !Given(a) ==> r == b
  {
    if Given(a) then a else b
  }

  /** The white-space characters of `String.prototype.trim` and of `\s`:
      the ECMAScript WhiteSpace and LineTerminator code points. */
  predicate IsSpace(c: char)
  {
    c == '\t' || c == '\n' || c == '\U{000B}' || c == '\U{000C}' || c == '\r' || c == ' '
    || c == '\U{00A0}' || c == '\U{1680}' || ('\U{2000}' <= c <= '\U{200A}')
    || c == '\U{2028}' || c == '\U{2029}' || c == '\U{202F}' || c == '\U{205F}'
    || c == '\U{3000}' || c == '\U{FEFF}'
  }

  predicate IsDigit(c: char)
  {
    '0' <= c <= '9'
  }

  /** The number of leading characters of `s` that satisfy `p`. */
  function LeadingCount(s: string, p: char -> bool): (n: nat)
    ensures n <= |s|
    ensures forall k :: 0 <= k < n ==> p(s[k])
    ensures n == |s| || !p(s[n])
  {
    if s != [] && p(s[0]) then 1 + LeadingCount(s[1..], p) else 0
  }

  /** The number of trailing characters of `s` that satisfy `p`. */
  function TrailingCount(s: string, p: char -> bool): (n: nat)
    ensures n <= |s|
    ensures forall k :: |s| - n <= k < |s| ==> p(s[k])
    ensures n == |s| || !p(s[|s| - n - 1])
  {
    if s != [] && p(s[|s| - 1]) then 1 + TrailingCount(s[..|s| - 1], p) else 0
  }

  /** `s` with its leading and trailing run of `p`-characters removed, as the
      regular-expression replace `^x+|x+$` and `trim` both do. */
  function Strip(s: string, p: char -> bool): (r: string)
    ensures r == [] || (!p(r[0]) && !p(r[|r| - 1]))
    ensures (r == []) <==> (forall k :: 0 <= k < |s| ==> p(s[k]))
  {
    var t := s[LeadingCount(s, p)..];
    t[..|t| - TrailingCount(t, p)]
  }

  /** A string with no `p`-character at either end is left as it is. */
  lemma StripNoop(s: string, p: char -> bool)
    requires s == [] || (!p(s[0]) && !p(s[|s| - 1]))
    ensures Strip(s, p) == s
  {
    assert LeadingCount(s, p) == 0;
    assert s[0..] == s;
    assert TrailingCount(s, p) == 0;
    assert s[..|s|] == s;
  }

  lemma StripIdempotent(s: string, p: char -> bool)
    ensures Strip(Strip(s, p), p) == Strip(s, p)
  {
    StripNoop(Strip(s, p), p);
  }

  /** Stripping removes only `p`-characters: what it drops lies before or after the
      result, and every dropped character satisfies `p`. */
  lemma StripWindow(s: string, p: char -> bool) returns (i: nat, j: nat)
    ensures i <= j <= |s| && Strip(s, p) == s[i..j]
    ensures forall k :: 0 <= k < i ==> p(s[k])
    ensures forall k :: j <= k < |s| ==> p(s[k])
  {
    i := LeadingCount(s, p);
    var t := s[i..];
    j := i + |t| - TrailingCount(t, p);
    assert t[..|t| - TrailingCount(t, p)] == s[i..j];
    forall k | j <= k < |s| ensures p(s[k]) {
      assert s[k] == t[k - i];
    }
  }

  /** `String.prototype.trim`. */
  function Trim(s: string): (r: string)
    ensures r == [] || (!IsSpace(r[0]) && !IsSpace(r[|r| - 1]))
    ensures (r == []) <==> (forall k :: 0 <= k < |s| ==> IsSpace(s[k]))
  {
    Strip(s, IsSpace)
  }

  lemma TrimIdempotent(s: string)
    ensures Trim(Trim(s)) == Trim(s)
  {
    StripIdempotent(s, IsSpace);
  }

  /** A string with no white space at either end is its own trim. */
  lemma TrimOfTrimmed(s: string)
    requires s == [] || (!IsSpace(s[0]) && !IsSpace(s[|s| - 1]))
    ensures Trim(s) == s
  {
    StripNoop(s, IsSpace);
  }

  /** ASCII case mapping of `toLowerCase`. */
  function LowerChar(c: char): char
  {
    if 'A' <= c <= 'Z' then (c as int + 32) as char else c
  }

  /** `String.prototype.toLowerCase`, on the ASCII range. */
  function Lower(s: string): (r: string)
    ensures |r| == |s|
    ensures forall k :: 0 <= k < |s| ==> r[k] == LowerChar(s[k])
  {
    if s == [] then [] else [LowerChar(s[0])] + Lower(s[1..])
  }

  lemma LowerIdempotent(s: string)
    ensures Lower(Lower(s)) == Lower(s)
  {
  }

  lemma LowerConcat(a: string, b: string)
    ensures Lower(a + b) == Lower(a) + Lower(b)
  {
  }

  /** A string none of whose characters is an ASCII capital is its own lower case. */
  lemma LowerOfLowered(s: string)
    requires forall k :: 0 <= k < |s| ==> !('A' <= s[k] <= 'Z')
    ensures Lower(s) == s
  {
  }

  /** `s.startsWith(p)`. */
  predicate StartsWith(s: string, p: string)
  {
    |p| <= |s| && s[..|p|] == p
  }

  /** `p` occurs in `s` at offset `k`. */
  predicate OccursAt(s: string, p: string, k: int)
  {
    0 <= k && k + |p| <= |s| && s[k..k + |p|] == p
  }

  /** `h.includes(n)`. */
  predicate Contains(h: string, n: string)
    decreases |h|
  {
    StartsWith(h, n) || (h != [] && Contains(h[1..], n))
  }

  /** `Contains` holds exactly when the needle occurs at some offset. */
  lemma {:induction false} ContainsOccurs(h: string, n: string)
    ensures Contains(h, n) <==> exists k :: OccursAt(h, n, k)
    decreases |h|
  {
    if StartsWith(h, n) {
      assert OccursAt(h, n, 0);
    } else if h == [] {
    } else {
      ContainsOccurs(h[1..], n);
      if k :| OccursAt(h[1..], n, k) {
        assert h[1..][k..k + |n|] == h[k + 1..k + 1 + |n|];
        assert OccursAt(h, n, k + 1);
      }
      if k :| OccursAt(h, n, k) {
        assert k != 0;
        assert h[1..][k - 1..k - 1 + |n|] == h[k..k + |n|];
        assert OccursAt(h[1..], n, k - 1);
      }
    }
  }

  /** A needle longer than the haystack is never found. */
  lemma ContainsTooLong(h: string, n: string)
    requires |n| > |h|
    ensures !Contains(h, n)
  {
    ContainsOccurs(h, n);
  }

  /** `s.indexOf(p, from)`: the first offset at or after `from` where `p` occurs, or -1. */
  function IndexFrom(s: string, p: string, from: nat): (r: int)
    ensures r == -1 || (from <= r && OccursAt(s, p, r))
    ensures forall k :: from <= k < (if r == -1 then |s| + 1 else r) ==> !OccursAt(s, p, k)
    decreases |s| + 1 - from
  {
    if from + |p| > |s| then -1
    else if s[from..from + |p|] == p then from
    else IndexFrom(s, p, from + 1)
  }

  /** `s.indexOf(p)`. */
  function IndexOf(s: string, p: string): (r: int)
    ensures r == -1 <==> forall k :: !OccursAt(s, p, k)
    ensures r != -1 ==> OccursAt(s, p, r) && forall k :: 0 <= k < r ==> !OccursAt(s, p, k)
  {
    IndexFrom(s, p, 0)
  }
}
