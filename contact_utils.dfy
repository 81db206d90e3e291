/** The contact-field helpers of src/utils/contactUtils.js: a delimited phone
    field becomes `tel:` links, a telegram handle becomes a t.me link, a
    destination becomes a maps directions link, and a pasted embed snippet is
    cut at its first `" width=` (or, failing that, its first space) and
    stripped of the quotes around what remains. */
module ContactUtils {

  import opened Js
  import opened Seqs
  import opened Uri

  /** The default country code of `parsePhones`. */
  const CountryCode: string := "+855"

  // ---------------------------------------------------------------------------
  // Splitting the phone field

  /** The characters of the split pattern `/[\/,|]/`. */
  predicate IsDelimiter(c: char)
  {
    c == '/' || c == ',' || c == '|'
  }

  predicate NoDelimiter(s: string)
  {
    forall k :: 0 <= k < |s| ==> !IsDelimiter(s[k])
  }

  /** `s.split(/[\/,|]/)`: the texts between delimiters, empty ones included. */
  function Split(s: string): (r: seq<string>)
    ensures |r| >= 1
    ensures forall i :: 0 <= i < |r| ==> NoDelimiter(r[i])
  {
    if s == [] then [""]
    else if IsDelimiter(s[0]) then [""] + Split(s[1..])
    else
      var rest := Split(s[1..]);
      [[s[0]] + rest[0]] + rest[1..]
  }

  /** The pieces joined back with one delimiter between neighbours. */
  function JoinWith(ps: seq<string>, d: char): string
    requires ps != []
  {
    if |ps| == 1 then ps[0] else ps[0] + [d] + JoinWith(ps[1..], d)
  }

  /** A delimiter-free prefix extends the first piece of what follows it. */
  lemma {:induction false} SplitPrefix(a: string, t: string)
    requires NoDelimiter(a)
    ensures Split(a + t) == [a + Split(t)[0]] + Split(t)[1..]
    decreases |a|
  {
    if a == [] {
      assert a + t == t;
      assert "" + Split(t)[0] == Split(t)[0];
      assert [Split(t)[0]] + Split(t)[1..] == Split(t);
    } else {
      assert (a + t)[0] == a[0] && (a + t)[1..] == a[1..] + t;
      SplitPrefix(a[1..], t);
      assert [a[0]] + (a[1..] + Split(t)[0]) == a + Split(t)[0];
    }
  }

  /** Splitting undoes joining, for delimiter-free pieces and any delimiter. */
  lemma {:induction false} SplitJoin(ps: seq<string>, d: char)
    requires ps != [] && IsDelimiter(d)
    requires forall i :: 0 <= i < |ps| ==> NoDelimiter(ps[i])
    ensures Split(JoinWith(ps, d)) == ps
    decreases |ps|
  {
    if |ps| == 1 {
      SplitPrefix(ps[0], []);
      assert ps[0] + [] == ps[0];
    } else {
      SplitJoin(ps[1..], d);
      var rest := JoinWith(ps[1..], d);
      assert ps[0] + [d] + rest == ps[0] + ([d] + rest);
      SplitPrefix(ps[0], [d] + rest);
      assert ([d] + rest)[1..] == rest;
      assert Split([d] + rest) == [""] + ps[1..];
      assert ps[0] + "" == ps[0];
      assert [ps[0]] + ps[1..] == ps;
    }
  }

  predicate NonEmpty(s: string)
  {
    s != ""
  }

  /** `raw.split(/[\/,|]/).map(s => s.trim()).filter(Boolean)`. */
  function Pieces(raw: string): (r: seq<string>)
    ensures |r| <= |Split(raw)|
    ensures forall i :: 0 <= i < |r| ==> r[i] != ""
  {
    Filter(Map(Split(raw), Trim), NonEmpty)
  }

  /** Trimming keeps a delimiter-free string delimiter-free. */
  lemma TrimNoDelimiter(s: string)
    requires NoDelimiter(s)
    ensures NoDelimiter(Trim(s))
  {
    var i, j := StripWindow(s, IsSpace);
    assert forall k :: 0 <= k < j - i ==> Trim(s)[k] == s[i + k];
  }

  /** A piece as `parsePhones` sees it: non-empty, no white space at either
      end, no delimiter. */
  predicate PieceLike(p: string)
  {
    p != "" && !IsSpace(p[0]) && !IsSpace(p[|p| - 1]) && NoDelimiter(p)
  }

  /** Every piece is non-empty, has no white space at either end and holds no delimiter. */
  lemma PiecesShape(raw: string)
    ensures forall i :: 0 <= i < |Pieces(raw)| ==> PieceLike(Pieces(raw)[i])
  {
    TrimMakesPieces();
    MapFilterPreserves(Split(raw), Trim, NonEmpty, NoDelimiter, PieceLike);
  }

  lemma TrimMakesPieces()
    ensures forall x :: NoDelimiter(x) && NonEmpty(Trim(x)) ==> PieceLike(Trim(x))
  {
    forall x | NoDelimiter(x) && NonEmpty(Trim(x)) ensures PieceLike(Trim(x)) {
      TrimmedPiece(x, Trim(x));
    }
  }

  /** A non-empty trimmed delimiter-free text has the shape of a piece. */
  lemma TrimmedPiece(x: string, p: string)
    requires NoDelimiter(x) && p == Trim(x) && p != ""
    ensures !IsSpace(p[0]) && !IsSpace(p[|p| - 1]) && NoDelimiter(p)
  {
    TrimNoDelimiter(x);
  }

  // ---------------------------------------------------------------------------
  // One phone entry

  /** A `{ display, href }` entry of the phone list. */
  datatype Phone = Phone(display: string, href: string)

  predicate NotSpace(c: char)
  {
    !IsSpace(c)
  }

  /** `display.replace(/\s+/g, "")`. */
  function Compact(s: string): string
  {
    Filter(s, NotSpace)
  }

  /** `compact.replace(/[^\d]/g, "")`. */
  function Digits(s: string): (r: string)
    ensures forall k :: 0 <= k < |r| ==> IsDigit(r[k])
  {
    Filter(s, IsDigit)
  }

  /** The dialable number of a compact piece, or `None` when the piece is dropped. */
  function E164(compact: string, cc: string): Option<string>
  {
    if StartsWith(compact, "+") then Some(compact)
    else
      var nums := Digits(compact);
      if nums == "" then None
      else if StartsWith(nums, "0") then Some(cc + nums[1..])
      else if StartsWith(nums, "855") then Some("+" + nums)
      else Some("+" + nums)
  }

  /** The entry for one trimmed piece, or `None` (the `return null` branch). */
  function ToPhone(display: string, cc: string): (r: Option<Phone>)
    ensures r.Some? ==> r.value.display == display && StartsWith(r.value.href, "tel:")
  {
    match E164(Compact(display), cc)
    case None => None
    case Some(e) => Some(Phone(display, "tel:" + e))
  }

  /** Removing white space does not change the digits. */
  lemma DigitsOfCompact(s: string)
    ensures Digits(Compact(s)) == Digits(s)
  {
    FilterFilter(s, NotSpace, IsDigit, IsDigit);
  }

  /** What the entry of a piece is, stated on the digits of the piece itself:
      a `+` number is kept verbatim; otherwise the digits decide, a leading 0
      giving way to the country code, and a digit-free piece is dropped. The
      "855" branch of the source gives the same result as the final one. */
  lemma PhoneHref(display: string, cc: string)
    ensures var c := Compact(display);
            var nums := Digits(display);
            && (StartsWith(c, "+") ==> ToPhone(display, cc) == Some(Phone(display, "tel:" + c)))
            && (!StartsWith(c, "+") && nums == "" ==> ToPhone(display, cc) == None)
            && (!StartsWith(c, "+") && nums != "" && nums[0] == '0' ==>
                  ToPhone(display, cc) == Some(Phone(display, "tel:" + cc + nums[1..])))
            && (!StartsWith(c, "+") && nums != "" && nums[0] != '0' ==>
                  ToPhone(display, cc) == Some(Phone(display, "tel:+" + nums)))
  {
    DigitsOfCompact(display);
    var nums := Digits(display);
    if nums != "" {
      assert "tel:" + (cc + nums[1..]) == "tel:" + cc + nums[1..];
      assert "tel:" + ("+" + nums) == "tel:+" + nums;
    }
  }

  /** With the default country code, a piece not written with `+` dials as
      `tel:+` followed by digits only. */
  lemma DialsDigitsOnly(display: string)
    requires !StartsWith(Compact(display), "+")
    requires ToPhone(display, CountryCode).Some?
    ensures var h := ToPhone(display, CountryCode).value.href;
            |h| > 5 && h[..5] == "tel:+" && forall k :: 5 <= k < |h| ==> IsDigit(h[k])
  {
    PhoneHref(display, CountryCode);
    var nums := Digits(display);
    assert nums != "";
    assert AllDigits(nums);
    LocalDial(nums);
  }

  /** The two dial forms of a digit string with the default country code. */
  lemma LocalDial(nums: string)
    requires nums != "" && AllDigits(nums)
    ensures var h := if nums[0] == '0' then "tel:" + CountryCode + nums[1..] else "tel:+" + nums;
            |h| > 5 && h[..5] == "tel:+" && forall k :: 5 <= k < |h| ==> IsDigit(h[k])
  {
    var rest := if nums[0] == '0' then "855" + nums[1..] else nums;
    assert AllDigits(rest) by {
      if nums[0] == '0' {
        var t := nums[1..];
        assert AllDigits(t);
        assert AllDigits("855");
        AllDigitsConcat("855", t);
      }
    }
    if nums[0] == '0' {
      assert "tel:" + CountryCode + nums[1..] == "tel:+" + rest;
    }
    DigitsAfter("tel:+", rest);
  }

  lemma AllDigitsConcat(a: string, b: string)
    requires AllDigits(a) && AllDigits(b)
    ensures AllDigits(a + b)
  {
    forall k | 0 <= k < |a + b| ensures IsDigit((a + b)[k]) {
      if k < |a| {
        assert (a + b)[k] == a[k];
      } else {
        assert (a + b)[k] == b[k - |a|];
      }
    }
  }

  /** A prefix followed by digits: every position after the prefix is a digit. */
  lemma DigitsAfter(p: string, t: string)
    requires AllDigits(t) && t != []
    ensures var h := p + t;
            |h| > |p| && h[..|p|] == p && forall k :: |p| <= k < |h| ==> IsDigit(h[k])
  {
    var h := p + t;
    assert h[..|p|] == p;
    forall k | |p| <= k < |h| ensures IsDigit(h[k]) {
      assert h[k] == t[k - |p|];
    }
  }

  predicate AllDigits(s: string)
  {
    forall k :: 0 <= k < |s| ==> IsDigit(s[k])
  }

  lemma {:induction false} ConcatAllDigits(gs: seq<string>)
    requires forall i :: 0 <= i < |gs| ==> AllDigits(gs[i])
    ensures AllDigits(Concat(gs))
    decreases |gs|
  {
    if gs != [] {
      ConcatAllDigits(gs[1..]);
      var c := Concat(gs);
      assert c == gs[0] + Concat(gs[1..]);
      forall k | 0 <= k < |c| ensures IsDigit(c[k]) {
        if k >= |gs[0]| {
          assert c[k] == Concat(gs[1..])[k - |gs[0]|];
        }
      }
    }
  }

  /** Compacting drops a white-space character between two texts. */
  lemma CompactAroundSpace(a: string, d: char, b: string)
    requires IsSpace(d)
    ensures Compact(a + [d] + b) == Compact(a) + Compact(b)
  {
    FilterConcat(a + [d], b, NotSpace);
    FilterConcat(a, [d], NotSpace);
    assert Filter([d], NotSpace) == [];
  }

  /** Groups of digits joined by one white-space character compact to the
      digits themselves. */
  lemma {:induction false} CompactGroups(gs: seq<string>, d: char)
    requires gs != [] && IsSpace(d)
    requires forall i :: 0 <= i < |gs| ==> AllDigits(gs[i])
    ensures Compact(JoinWith(gs, d)) == Concat(gs)
    decreases |gs|
  {
    assert Compact(gs[0]) == gs[0] by {
      FilterAll(gs[0], NotSpace);
    }
    assert Concat(gs) == gs[0] + Concat(gs[1..]);
    if |gs| == 1 {
      assert gs[0] + [] == gs[0];
    } else {
      CompactGroups(gs[1..], d);
      CompactAroundSpace(gs[0], d, JoinWith(gs[1..], d));
    }
  }

  /** A local number written in digit groups, such as "077 636 190", dials as
      the country code followed by its digits after the leading 0. */
  lemma LocalNumber(gs: seq<string>, cc: string)
    requires gs != [] && forall i :: 0 <= i < |gs| ==> AllDigits(gs[i])
    requires Concat(gs) != "" && Concat(gs)[0] == '0'
    ensures ToPhone(JoinWith(gs, ' '), cc) == Some(Phone(JoinWith(gs, ' '), "tel:" + cc + Concat(gs)[1..]))
  {
    var d := JoinWith(gs, ' ');
    CompactGroups(gs, ' ');
    ConcatAllDigits(gs);
    FilterAll(Concat(gs), IsDigit);
    PhoneHref(d, cc);
    DigitsOfCompact(d);
  }

  // ---------------------------------------------------------------------------
  // The phone list

  /** The entries of the pieces that yield one, in order. */
  function PhonesOf(ps: seq<string>, cc: string): (r: seq<Phone>)
    ensures |r| <= |ps|
    ensures forall i :: 0 <= i < |r| ==> StartsWith(r[i].href, "tel:")
  {
    if ps == [] then []
    else
      match ToPhone(ps[0], cc)
      case None => PhonesOf(ps[1..], cc)
      case Some(p) => [p] + PhonesOf(ps[1..], cc)
  }

  /** `parsePhones(raw, countryCode)`. */
  function ParsePhones(raw: Option<string>, cc: string): (r: seq<Phone>)
    ensures !Given(raw) ==> r == []
    ensures forall i :: 0 <= i < |r| ==> StartsWith(r[i].href, "tel:")
  {
    if !Given(raw) then [] else PhonesOf(Pieces(raw.value), cc)
  }

  function DisplayOf(p: Phone): string
  {
    p.display
  }

  /** Whether a piece yields an entry under country code `cc`. */
  function Dials(cc: string): string -> bool
  {
    (p: string) => ToPhone(p, cc).Some?
  }

  /** The displays of the entries are exactly the pieces that yield one, in order. */
  lemma {:induction false} PhonesOfDisplays(ps: seq<string>, cc: string)
    ensures Map(PhonesOf(ps, cc), DisplayOf) == Filter(ps, Dials(cc))
    decreases |ps|
  {
    if ps != [] {
      PhonesOfDisplays(ps[1..], cc);
      var rest := PhonesOf(ps[1..], cc);
      assert Filter(ps, Dials(cc))
          == (if Dials(cc)(ps[0]) then [ps[0]] else []) + Filter(ps[1..], Dials(cc));
      match ToPhone(ps[0], cc)
      case None => {
        assert PhonesOf(ps, cc) == rest;
      }
      case Some(p) => {
        var r := [p] + rest;
        assert PhonesOf(ps, cc) == r;
        var rd := Map(r, DisplayOf);
        assert rd == [ps[0]] + Map(rest, DisplayOf);
      }
    }
  }

  /** The entries are exactly those of the pieces that yield one: their
      displays are a subsequence of the pieces, each entry is what its display
      yields, and no piece that yields an entry is missed. */
  lemma {:induction false} PhonesOfPieces(ps: seq<string>, cc: string)
    ensures IsSubseq(Map(PhonesOf(ps, cc), DisplayOf), ps)
    ensures forall i :: 0 <= i < |PhonesOf(ps, cc)| ==>
              ToPhone(PhonesOf(ps, cc)[i].display, cc) == Some(PhonesOf(ps, cc)[i])
    ensures forall i :: 0 <= i < |ps| && ToPhone(ps[i], cc).Some? ==>
              ToPhone(ps[i], cc).value in PhonesOf(ps, cc)
    decreases |ps|
  {
    if ps != [] {
      PhonesOfPieces(ps[1..], cc);
      var rest := PhonesOf(ps[1..], cc);
      var ds := Map(rest, DisplayOf);
      match ToPhone(ps[0], cc)
      case None => {
        assert PhonesOf(ps, cc) == rest;
        if ds != [] {
          assert IsSubseq(ds, ps[1..]);
        }
        forall i | 0 <= i < |ps| && ToPhone(ps[i], cc).Some?
          ensures ToPhone(ps[i], cc).value in rest
        {
          assert i != 0;
          assert ps[i] == ps[1..][i - 1];
        }
      }
      case Some(p) => {
        var r := [p] + rest;
        assert PhonesOf(ps, cc) == r;
        var rd := Map(r, DisplayOf);
        assert rd[0] == ps[0] && rd[1..] == ds;
        forall i | 0 <= i < |ps| && ToPhone(ps[i], cc).Some?
          ensures ToPhone(ps[i], cc).value in r
        {
          if i > 0 {
            assert ps[i] == ps[1..][i - 1];
          }
        }
      }
    }
  }

  /** `parsePhones` of a present field keeps, in order, exactly the pieces that
      yield an entry, and each entry is what its piece yields. */
  lemma ParsePhonesPieces(raw: string, cc: string)
    requires raw != ""
    ensures var r := ParsePhones(Some(raw), cc);
            && |r| <= |Pieces(raw)|
            && IsSubseq(Map(r, DisplayOf), Pieces(raw))
            && (forall i :: 0 <= i < |r| ==> ToPhone(r[i].display, cc) == Some(r[i]))
            && Map(r, DisplayOf) == Filter(Pieces(raw), Dials(cc))
  {
    PhonesOfPieces(Pieces(raw), cc);
    PhonesOfDisplays(Pieces(raw), cc);
  }

  // ---------------------------------------------------------------------------
  // Links

  /** `/^https?:\/\//i.test(s)`. */
  predicate HasHttpScheme(s: string)
  {
    StartsWith(Lower(s), "http://") || StartsWith(Lower(s), "https://")
  }

  /** `val.replace(/^@/, "")`. */
  function StripAt(s: string): (r: string)
    ensures s != [] && s[0] == '@' ==> r == s[1..]
    ensures (s == [] || s[0] != '@') ==> r == s
  {
    if s != [] && s[0] == '@' then s[1..] else s
  }

  const TelegramPrefix: string := "https://t.me/"

  /** `telegramHref(val)`. */
  function TelegramHref(val: Option<string>): (r: Option<string>)
    ensures r.None? <==> !Given(val)
    ensures Given(val) && HasHttpScheme(val.value) ==> r == val
    ensures Given(val) && !HasHttpScheme(val.value) ==> r == Some(TelegramPrefix + StripAt(val.value))
  {
    if !Given(val) then None
    else if HasHttpScheme(val.value) then val
    else Some(TelegramPrefix + StripAt(val.value))
  }

  /** A string that starts with a lower-case prefix keeps it when lower-cased. */
  lemma LowerKeepsPrefix(p: string, s: string)
    requires forall k :: 0 <= k < |p| ==> !('A' <= p[k] <= 'Z')
    ensures StartsWith(Lower(p + s), p)
  {
    LowerConcat(p, s);
    LowerOfLowered(p);
  }

  /** Every link `telegramHref` builds is an http(s) URL: the value itself or a t.me link. */
  lemma TelegramIsUrl(val: Option<string>)
    requires Given(val)
    ensures HasHttpScheme(TelegramHref(val).value)
  {
    if !HasHttpScheme(val.value) {
      var u := StripAt(val.value);
      assert TelegramPrefix + u == "https://" + ("t.me/" + u);
      LowerKeepsPrefix("https://", "t.me/" + u);
    }
  }

  /** Applying `telegramHref` to its own result changes nothing. */
  lemma TelegramIdempotent(val: Option<string>)
    ensures TelegramHref(TelegramHref(val)) == TelegramHref(val)
  {
    if Given(val) {
      TelegramIsUrl(val);
    }
  }

  /** A handle gives the same link with or without one leading "@". */
  lemma TelegramAtOptional(u: string)
    requires u != "" && u[0] != '@' && !HasHttpScheme(u)
    ensures TelegramHref(Some("@" + u)) == TelegramHref(Some(u)) == Some(TelegramPrefix + u)
  {
    var a := "@" + u;
    assert a[0] == '@' && a[1..] == u;
    assert !HasHttpScheme(a) by {
      assert Lower(a)[0] == '@';
    }
  }

  const DirectionsPrefix: string := "https://www.google.com/maps/dir/?api=1&destination="

  /** `buildDirectionsUrl(q)`: a blank destination is replaced by "". */
  function BuildDirectionsUrl(q: Option<string>): (r: string)
    ensures StartsWith(r, DirectionsPrefix)
    ensures forall k :: |DirectionsPrefix| <= k < |r| ==> UriSafe(r[k])
  {
    var dest := if q.Some? && Trim(q.value) != "" then q.value else "";
    DirectionsPrefix + EncodeURIComponent(dest)
  }

  /** The destination a directions link carries decodes back to the input
      (untrimmed) when it is not blank, and to nothing otherwise. */
  lemma DirectionsRoundTrip(q: Option<string>)
    ensures var r := BuildDirectionsUrl(q);
            && (q.Some? && Trim(q.value) != "" ==> Decode(r[|DirectionsPrefix|..]) == Some(q.value))
            && (q.None? || Trim(q.value) == "" ==> r == DirectionsPrefix)
  {
    var dest := if q.Some? && Trim(q.value) != "" then q.value else "";
    DecodeEncode(dest);
    var r := BuildDirectionsUrl(q);
    assert r[|DirectionsPrefix|..] == EncodeURIComponent(dest);
    if dest == "" {
      assert r == DirectionsPrefix + "";
    }
  }

  // ---------------------------------------------------------------------------
  // Embed source

  /** The attribute boundary `safeEmbedSrc` cuts at. */
  const WidthMarker: string := "\" width="

  predicate IsQuote(c: char)
  {
    c == '"'
  }

  /** Where `safeEmbedSrc` cuts the trimmed input: at the first `" width=` when
      there is one, otherwise at the first space, and -1 when there is neither. */
  function CutAt(s: string): (k: int)
    ensures -1 <= k < |s|
    ensures (exists m :: OccursAt(s, WidthMarker, m)) ==>
              OccursAt(s, WidthMarker, k) && forall m :: 0 <= m < k ==> !OccursAt(s, WidthMarker, m)
    ensures (forall m :: !OccursAt(s, WidthMarker, m)) ==>
              && (k == -1 <==> forall m :: !OccursAt(s, " ", m))
              && (k > -1 ==> OccursAt(s, " ", k) && forall m :: 0 <= m < k ==> !OccursAt(s, " ", m))
  {
    if IndexOf(s, WidthMarker) > -1 then IndexOf(s, WidthMarker) else IndexOf(s, " ")
  }

  /** `safeEmbedSrc(raw)`. */
  function SafeEmbedSrc(raw: Option<string>): (r: Option<string>)
    ensures r.None? <==> !Given(raw)
    ensures r.Some? ==> r.value == [] || (!IsQuote(r.value[0]) && !IsQuote(r.value[|r.value| - 1]))
  {
    if !Given(raw) then None
    else
      var s := Trim(raw.value);
      var cut := CutAt(s);
      var candidate := if cut > -1 then s[..cut] else s;
      Some(Strip(candidate, IsQuote))
  }

  /** A prefix that ends before the first occurrence of a needle does not contain it. */
  lemma PrefixBeforeFirst(s: string, n: string, k: int)
    requires n != [] && 0 <= k <= |s|
    requires forall j :: 0 <= j < k ==> !OccursAt(s, n, j)
    ensures forall j :: !OccursAt(s[..k], n, j)
  {
    forall j ensures !OccursAt(s[..k], n, j) {
      if OccursAt(s[..k], n, j) {
        assert s[..k][j..j + |n|] == s[j..j + |n|];
        assert OccursAt(s, n, j);
      }
    }
  }

  /** An occurrence in an infix is an occurrence in the whole string. */
  lemma OccursInInfix(s: string, i: nat, j: nat, n: string, m: int)
    requires i <= j <= |s| && OccursAt(s[i..j], n, m)
    ensures OccursAt(s, n, i + m)
  {
    var w := s[i..j];
    var a, b := w[m..m + |n|], s[i + m..i + m + |n|];
    forall t | 0 <= t < |n| ensures a[t] == b[t] {
      assert a[t] == w[m + t] == s[i + m + t];
    }
    assert a == b;
  }

  /** The characters of an occurrence are those of the needle. */
  lemma OccursAtChar(s: string, n: string, m: int, t: int)
    requires OccursAt(s, n, m) && 0 <= t < |n|
    ensures s[m + t] == n[t]
  {
    assert s[m..m + |n|][t] == s[m + t];
  }

  /** An infix of a string that has no occurrence of a needle has none either. */
  lemma InfixKeepsAbsence(s: string, i: nat, j: nat, n: string)
    requires i <= j <= |s|
    requires forall m :: !OccursAt(s, n, m)
    ensures forall m :: !OccursAt(s[i..j], n, m)
  {
    forall m ensures !OccursAt(s[i..j], n, m) {
      if OccursAt(s[i..j], n, m) {
        OccursInInfix(s, i, j, n, m);
      }
    }
  }

  /** No character before the first occurrence of " " is a space. */
  lemma NoSpaceBefore(s: string, k: int)
    requires 0 <= k <= |s|
    requires forall j :: 0 <= j < k ==> !OccursAt(s, " ", j)
    ensures forall j :: 0 <= j < k ==> s[j] != ' '
  {
    forall j | 0 <= j < k ensures s[j] != ' ' {
      if s[j] == ' ' {
        assert s[j..j + 1] == " ";
        assert OccursAt(s, " ", j);
      }
    }
  }

  /** Where the extracted source lies in the trimmed input: it is what remains of
      the part before the cut once the quotes at either end of it are dropped. */
  lemma EmbedWindow(raw: string) returns (i: nat, j: nat)
    requires raw != ""
    ensures var s := Trim(raw);
            var e := if CutAt(s) > -1 then CutAt(s) else |s|;
            && i <= j <= e <= |s|
            && SafeEmbedSrc(Some(raw)).value == s[i..j]
            && (forall k :: 0 <= k < i ==> IsQuote(s[k]))
            && (forall k :: j <= k < e ==> IsQuote(s[k]))
  {
    var s := Trim(raw);
    var cut := CutAt(s);
    var c := if cut > -1 then s[..cut] else s;
    assert SafeEmbedSrc(Some(raw)).value == Strip(c, IsQuote);
    i, j := StripWindow(c, IsQuote);
    if cut > -1 {
      PrefixInfix(s, cut, i, j);
      forall k | 0 <= k < cut ensures c[k] == s[k] {
      }
    }
  }

  lemma PrefixInfix(s: string, n: nat, i: nat, j: nat)
    requires i <= j <= n <= |s|
    ensures s[..n][i..j] == s[i..j]
  {
  }

  /** The extracted source is the part of the trimmed input before the cut, less
      the runs of quotes at either end of that part. */
  lemma EmbedSrcIsInfix(raw: string)
    requires raw != ""
    ensures var s := Trim(raw);
            var e := if CutAt(s) > -1 then CutAt(s) else |s|;
            exists i, j :: && 0 <= i <= j <= e <= |s|
                           && SafeEmbedSrc(Some(raw)).value == s[i..j]
                           && (forall k :: 0 <= k < i ==> IsQuote(s[k]))
                           && (forall k :: j <= k < e ==> IsQuote(s[k]))
  {
    var i, j := EmbedWindow(raw);
  }

  /** The extracted source never contains the `" width=` boundary. */
  lemma EmbedSrcNoMarker(raw: string)
    requires raw != ""
    ensures forall m :: !OccursAt(SafeEmbedSrc(Some(raw)).value, WidthMarker, m)
  {
    var s := Trim(raw);
    var i, j := EmbedWindow(raw);
    WindowBeforeMarker(s, i, j);
  }

  /** A window that ends before the first `" width=`, if any, holds none. */
  lemma WindowBeforeMarker(s: string, i: nat, j: nat)
    requires i <= j <= |s|
    requires IndexOf(s, WidthMarker) > -1 ==> j <= IndexOf(s, WidthMarker)
    ensures forall m :: !OccursAt(s[i..j], WidthMarker, m)
  {
    var mk := IndexOf(s, WidthMarker);
    if mk > -1 {
      PrefixBeforeFirst(s, WidthMarker, mk);
      assert s[..mk][i..j] == s[i..j];
      InfixKeepsAbsence(s[..mk], i, j, WidthMarker);
    } else {
      InfixKeepsAbsence(s, i, j, WidthMarker);
    }
  }

  /** Without a `" width=` boundary the cut is at the first space, so the
      extracted source has no space. */
  lemma EmbedSrcNoSpace(raw: string)
    requires raw != "" && IndexOf(Trim(raw), WidthMarker) == -1
    ensures var r := SafeEmbedSrc(Some(raw)).value;
            forall k :: 0 <= k < |r| ==> r[k] != ' '
  {
    var s := Trim(raw);
    var i, j := EmbedWindow(raw);
    var sp := IndexOf(s, " ");
    var bound := if sp > -1 then sp else |s|;
    NoSpaceBefore(s, bound);
    InfixNoSpace(s, i, j, bound);
  }

  /** A window inside a space-free prefix has no space. */
  lemma InfixNoSpace(s: string, i: nat, j: nat, bound: nat)
    requires i <= j <= bound <= |s|
    requires forall m :: 0 <= m < bound ==> s[m] != ' '
    ensures forall k :: 0 <= k < |s[i..j]| ==> s[i..j][k] != ' '
  {
    forall k | 0 <= k < |s[i..j]| ensures s[i..j][k] != ' ' {
      assert s[i..j][k] == s[i + k];
    }
  }

  /** A bare URL (no space, no quote at either end, no white space around it)
      passes through unchanged. */
  lemma EmbedBareUrl(u: string)
    requires u != "" && !IsSpace(u[0]) && !IsSpace(u[|u| - 1])
    requires !IsQuote(u[0]) && !IsQuote(u[|u| - 1])
    requires forall k :: 0 <= k < |u| ==> u[k] != ' '
    ensures SafeEmbedSrc(Some(u)) == Some(u)
  {
    TrimOfTrimmed(u);
    forall m ensures !OccursAt(u, WidthMarker, m) {
      if OccursAt(u, WidthMarker, m) {
        OccursAtChar(u, WidthMarker, m, 1);
      }
    }
    forall m ensures !OccursAt(u, " ", m) {
      if OccursAt(u, " ", m) {
        OccursAtChar(u, " ", m, 0);
      }
    }
    StripNoop(u, IsQuote);
  }

  /** A text shorter than "http://" cannot start with a scheme. */
  lemma ShortHandleHasNoScheme(u: string)
    requires |u| < 7
    ensures !HasHttpScheme(u)
  {
    assert |Lower(u)| == |u|;
  }

  /** The two handle examples: "@mycafe" becomes a t.me link, and that link is kept. */
  lemma TelegramExamples()
    ensures TelegramHref(Some("@mycafe")) == Some("https://t.me/mycafe")
    ensures TelegramHref(Some("https://t.me/mycafe")) == Some("https://t.me/mycafe")
  {
    assert "@" + "mycafe" == "@mycafe";
    ShortHandleHasNoScheme("mycafe");
    TelegramAtOptional("mycafe");
    assert TelegramPrefix + "mycafe" == "https://t.me/mycafe";
    TelegramIdempotent(Some("@mycafe"));
  }
}
