/** Category label resolution (src/utils/categoryI18n.js): a fixed alias table
    from raw catalogue category names to translation keys, a normaliser for
    names outside the table, and a three-level lookup through the caller's
    translation function. */
module CategoryI18n {

  import opened Js
  import Seqs

  /** The translation resource seen through i18next's `t(key, fallback)`:
      a key that is present yields its text, a missing key the fallback. */
  type Translations = map<string, string>

  function T(tr: Translations, key: string, fallback: string): string
  {
    if key in tr then tr[key] else fallback
  }

  /** `KEY_MAP`: raw category strings of the data file and their keys. */
  const KeyMap: map<string, string> := map[
    "Signature" := "signature",
    "Premium" := "premium",
    "Hot" := "hot",
    "Cold" := "cold",
    "COLD" := "cold",
    "Frappe/Smothies" := "frappe_smoothies",
    "Frappe/Smoothies" := "frappe_smoothies",
    "FRAPPE/SMOOTHIES" := "frappe_smoothies",
    "Tea/Passion/Soda" := "tea_passion_soda",
    "TEA/PASSION/SODA" := "tea_passion_soda",
    "Food" := "food",
    "FOOD" := "food"
  ]

  /** `\p{L}` or `\p{N}`, on the ASCII range. */
  predicate IsWordChar(c: char)
  {
    ('a' <= c <= 'z') || ('A' <= c <= 'Z') || ('0' <= c <= '9')
  }

  predicate IsUnderscore(c: char)
  {
    c == '_'
  }

  predicate IsSeparator(c: char)
  {
    !IsWordChar(c)
  }

  /** What is left of `s` after a run of separators (non-word characters). */
  function SkipSeparators(s: string): (r: string)
    ensures |r| <= |s| && r == s[|s| - |r|..]
    ensures r == [] || IsWordChar(r[0])
    ensures forall k :: 0 <= k < |s| - |r| ==> !IsWordChar(s[k])
  {
    s[LeadingCount(s, IsSeparator)..]
  }

  /** `s.replace(/[^\p{L}\p{N}]+/gu, "_")`: every maximal run of separators
      becomes one underscore. */
  function Collapse(s: string): string
    decreases |s|
  {
    if s == [] then []
    else if IsWordChar(s[0]) then [s[0]] + Collapse(s[1..])
    else "_" + Collapse(SkipSeparators(s[1..]))
  }

  /** The collapsed string is empty only for the empty input, starts with an
      underscore exactly when the input starts with a separator, holds only
      word characters of the input and underscores, and has no two
      underscores in a row. */
  lemma CollapseFacts(s: string)
    ensures var r := Collapse(s);
            && ((r == []) <==> (s == []))
            && (r != [] ==> (r[0] == '_' <==> !IsWordChar(s[0])))
            && (forall k :: 0 <= k < |r| ==> IsWordChar(r[k]) || r[k] == '_')
            && (forall k :: 0 <= k < |r| ==> r[k] == '_' || r[k] in s)
            && (forall k :: 0 <= k < |r| - 1 ==> !(r[k] == '_' && r[k + 1] == '_'))
  {
    CollapseStart(s);
    CollapseChars(s);
    CollapseNoDouble(s);
  }

  lemma CollapseStart(s: string)
    ensures (Collapse(s) == []) <==> (s == [])
    ensures Collapse(s) != [] ==> (Collapse(s)[0] == '_' <==> !IsWordChar(s[0]))
  {
  }

  /** Every character of a separator-stripped suffix occurs in the string. */
  lemma SkipInside(s: string, c: char)
    requires c in SkipSeparators(s)
    ensures c in s
  {
    var u := SkipSeparators(s);
    var m :| 0 <= m < |u| && u[m] == c;
    assert s[|s| - |u| + m] == c;
  }

  lemma {:induction false} CollapseChars(s: string)
    ensures forall k :: 0 <= k < |Collapse(s)| ==>
              Collapse(s)[k] == '_' || (IsWordChar(Collapse(s)[k]) && Collapse(s)[k] in s)
    decreases |s|
  {
    if s != [] {
      var r := Collapse(s);
      var u := if IsWordChar(s[0]) then s[1..] else SkipSeparators(s[1..]);
      var t := Collapse(u);
      CollapseChars(u);
      assert r == (if IsWordChar(s[0]) then [s[0]] else "_") + t;
      forall k | 0 <= k < |r| ensures r[k] == '_' || (IsWordChar(r[k]) && r[k] in s) {
        if k > 0 {
          assert r[k] == t[k - 1];
          if t[k - 1] != '_' {
            if IsWordChar(s[0]) {
              assert t[k - 1] in s[1..];
            } else {
              SkipInside(s[1..], t[k - 1]);
            }
          }
        }
      }
    }
  }

  lemma {:induction false} CollapseNoDouble(s: string)
    ensures forall k :: 0 <= k < |Collapse(s)| - 1 ==> !(Collapse(s)[k] == '_' && Collapse(s)[k + 1] == '_')
    decreases |s|
  {
    if s != [] {
      var r := Collapse(s);
      var u := if IsWordChar(s[0]) then s[1..] else SkipSeparators(s[1..]);
      var t := Collapse(u);
      CollapseNoDouble(u);
      CollapseStart(u);
      assert r == (if IsWordChar(s[0]) then [s[0]] else "_") + t;
      forall k | 0 <= k < |r| - 1 ensures !(r[k] == '_' && r[k + 1] == '_') {
        if k > 0 {
          assert r[k] == t[k - 1] && r[k + 1] == t[k];
        } else {
          assert r[1] == t[0];
        }
      }
    }
  }

  /** The cleaned key before the `|| s` fallback: lower case, runs collapsed,
      underscores trimmed at both ends. */
  function Clean(s: string): string
  {
    Strip(Collapse(Lower(s)), IsUnderscore)
  }

  /** `normalize(s)`. */
  function Normalize(s: string): string
  {
    var c := Clean(s);
    if c == "" then s else c
  }

  /** `keyForCategory(cat)`: `KEY_MAP[cat] || normalize(cat)`. */
  function KeyForCategory(cat: string): string
  {
    if cat in KeyMap && KeyMap[cat] != "" then KeyMap[cat] else Normalize(cat)
  }

  /** `labelForCategory(t, cat)`. */
  function LabelForCategory(tr: Translations, cat: Option<string>): (r: string)
    ensures !Given(cat) ==> r == ""
    ensures Given(cat) && (cat.value == "All" || cat.value == "__all__") ==>
              r == (if "menu.all" in tr then tr["menu.all"] else "All")
    ensures Given(cat) && cat.value != "All" && cat.value != "__all__" ==>
              var normKey := "menu.categories." + KeyForCategory(cat.value);
              var rawKey := "menu.categories." + cat.value;
              && (normKey in tr ==> r == tr[normKey])
              && (normKey !in tr && rawKey in tr ==> r == tr[rawKey])
              && (normKey !in tr && rawKey !in tr ==> r == cat.value)
  {
    if !Given(cat) then ""
    else if cat.value == "All" || cat.value == "__all__" then T(tr, "menu.all", "All")
    else
      var c := cat.value;
      T(tr, "menu.categories." + KeyForCategory(c), T(tr, "menu.categories." + c, c))
  }

  // ---------------------------------------------------------------------------
  // The shape of a cleaned key

  /** A cleaned key: lower-case letters and digits joined by single underscores. */
  predicate IsKeyShape(s: string)
  {
    && KeyChars(s)
    && (s != [] ==> s[0] != '_' && s[|s| - 1] != '_')
    && NoDoubleUnderscore(s)
  }

  /** Lower-case letters, digits and underscores only. */
  predicate KeyChars(s: string)
  {
    forall k :: 0 <= k < |s| ==> ('a' <= s[k] <= 'z') || ('0' <= s[k] <= '9') || s[k] == '_'
  }

  predicate NoDoubleUnderscore(s: string)
  {
    forall k :: 0 <= k < |s| - 1 ==> !(s[k] == '_' && s[k + 1] == '_')
  }

  lemma LowerHasNoCapitals(s: string)
    ensures forall k :: 0 <= k < |Lower(s)| ==> !('A' <= Lower(s)[k] <= 'Z')
  {
  }

  /** Collapsing a string without capitals leaves key characters and no doubled underscore. */
  lemma CollapseShape(l: string)
    requires forall k :: 0 <= k < |l| ==> !('A' <= l[k] <= 'Z')
    ensures KeyChars(Collapse(l)) && NoDoubleUnderscore(Collapse(l))
  {
    var c := Collapse(l);
    CollapseFacts(l);
    forall k | 0 <= k < |c| ensures ('a' <= c[k] <= 'z') || ('0' <= c[k] <= '9') || c[k] == '_' {
      if c[k] != '_' {
        assert c[k] in l;
      }
    }
  }

  /** A window of a string keeps its key characters and its lack of doubled underscores. */
  lemma WindowShape(c: string, i: nat, j: nat)
    requires i <= j <= |c|
    requires KeyChars(c) && NoDoubleUnderscore(c)
    ensures KeyChars(c[i..j]) && NoDoubleUnderscore(c[i..j])
  {
    var r := c[i..j];
    forall k | 0 <= k < |r| ensures ('a' <= r[k] <= 'z') || ('0' <= r[k] <= '9') || r[k] == '_' {
      assert r[k] == c[i + k];
    }
    forall k | 0 <= k < |r| - 1 ensures !(r[k] == '_' && r[k + 1] == '_') {
      assert r[k] == c[i + k] && r[k + 1] == c[i + k + 1];
    }
  }

  /** Whatever `normalize` cleans out of a string has the shape of a key. */
  lemma CleanShape(s: string)
    ensures IsKeyShape(Clean(s))
  {
    var l := Lower(s);
    LowerHasNoCapitals(s);
    var c := Collapse(l);
    CollapseShape(l);
    var i, j := StripWindow(c, IsUnderscore);
    WindowShape(c, i, j);
  }

  /** `normalize` cleans nothing out of a string exactly when it has no letter or digit. */
  lemma {:induction false} CollapseAllSeparators(s: string)
    ensures (forall k :: 0 <= k < |Collapse(s)| ==> IsUnderscore(Collapse(s)[k]))
            <==> (forall k :: 0 <= k < |s| ==> !IsWordChar(s[k]))
    decreases |s|
  {
    if s != [] {
      if IsWordChar(s[0]) {
        assert Collapse(s)[0] == s[0];
      } else {
        var t := SkipSeparators(s[1..]);
        CollapseAllSeparators(t);
        assert Collapse(s)[1..] == Collapse(t);
        if forall k :: 0 <= k < |s| ==> !IsWordChar(s[k]) {
          assert t == [];
        }
        if t != [] {
          assert t[0] == s[|s| - |t|];
        }
      }
    }
  }

  lemma CleanEmpty(s: string)
    ensures (Clean(s) == "") <==> (forall k :: 0 <= k < |s| ==> !IsWordChar(s[k]))
  {
    var l := Lower(s);
    var c := Collapse(l);
    CollapseFacts(l);
    assert (Clean(s) == "") <==> (forall k :: 0 <= k < |c| ==> IsUnderscore(c[k]));
    CollapseAllSeparators(l);
    LowerSeparators(s);
  }

  /** Lower-casing neither creates nor removes letters and digits. */
  lemma LowerSeparators(s: string)
    ensures (forall k :: 0 <= k < |Lower(s)| ==> !IsWordChar(Lower(s)[k]))
            <==> (forall k :: 0 <= k < |s| ==> !IsWordChar(s[k]))
  {
    var l := Lower(s);
    forall k | 0 <= k < |s| ensures IsWordChar(l[k]) == IsWordChar(s[k]) {
      LowerCharWord(s[k]);
    }
  }

  lemma LowerCharWord(c: char)
    ensures IsWordChar(LowerChar(c)) == IsWordChar(c)
  {
  }

  /** When nothing is left after cleaning (a name such as "///"), `normalize`
      returns its input unchanged; otherwise it returns a key-shaped string. */
  lemma NormalizeCases(s: string)
    ensures (forall k :: 0 <= k < |s| ==> !IsWordChar(s[k])) ==> Normalize(s) == s
    ensures (exists k :: 0 <= k < |s| && IsWordChar(s[k])) ==>
              Normalize(s) == Clean(s) && Normalize(s) != "" && IsKeyShape(Normalize(s))
  {
    CleanEmpty(s);
    CleanShape(s);
  }

  // ---------------------------------------------------------------------------
  // Idempotence

  /** A string made of word characters and single underscores collapses to itself. */
  lemma {:induction false} CollapseFixed(s: string)
    requires forall k :: 0 <= k < |s| ==> IsWordChar(s[k]) || s[k] == '_'
    requires forall k :: 0 <= k < |s| - 1 ==> !(s[k] == '_' && s[k + 1] == '_')
    ensures Collapse(s) == s
    decreases |s|
  {
    if s != [] {
      CollapseFixed(s[1..]);
      if !IsWordChar(s[0]) {
        assert s[1..] == [] || IsWordChar(s[1..][0]);
        assert SkipSeparators(s[1..]) == s[1..];
      }
      assert [s[0]] + s[1..] == s;
    }
  }

  /** Normalising a normalised key gives the same key. */
  lemma NormalizeIdempotent(s: string)
    ensures Normalize(Normalize(s)) == Normalize(s)
  {
    var c := Clean(s);
    if c != "" {
      CleanShape(s);
      assert Normalize(s) == c;
      LowerOfLowered(c);
      CollapseFixed(c);
      StripNoop(c, IsUnderscore);
      assert Clean(c) == c;
    }
  }

  // ---------------------------------------------------------------------------
  // No letter or digit is lost

  lemma SkipKeepsWords(s: string)
    ensures Seqs.Filter(SkipSeparators(s), IsWordChar) == Seqs.Filter(s, IsWordChar)
  {
    var r := SkipSeparators(s);
    Seqs.FilterDropsFailing(s, |s| - |r|, IsWordChar);
  }

  lemma {:induction false} CollapseKeepsWords(s: string)
    ensures Seqs.Filter(Collapse(s), IsWordChar) == Seqs.Filter(s, IsWordChar)
    decreases |s|
  {
    if s != [] {
      if IsWordChar(s[0]) {
        CollapseKeepsWords(s[1..]);
        Seqs.FilterConcat([s[0]], Collapse(s[1..]), IsWordChar);
      } else {
        var t := SkipSeparators(s[1..]);
        CollapseKeepsWords(t);
        SkipKeepsWords(s[1..]);
        Seqs.FilterConcat("_", Collapse(t), IsWordChar);
      }
    }
  }

  /** Lower-casing a string lower-cases each of its characters. */
  lemma LowerIsMap(s: string)
    ensures Lower(s) == Seqs.Map(s, LowerChar)
  {
    var m := Seqs.Map(s, LowerChar);
    assert |m| == |Lower(s)|;
    forall k | 0 <= k < |s| ensures Lower(s)[k] == m[k] {
    }
  }

  /** Lower-casing commutes with keeping only the letters and digits. */
  lemma LowerKeepsWords(s: string)
    ensures Seqs.Filter(Lower(s), IsWordChar) == Lower(Seqs.Filter(s, IsWordChar))
  {
    LowerIsMap(s);
    LowerIsMap(Seqs.Filter(s, IsWordChar));
    forall c ensures IsWordChar(LowerChar(c)) == IsWordChar(c) {
      LowerCharWord(c);
    }
    Seqs.FilterMapCommute(s, LowerChar, IsWordChar);
  }

  /** The letters and digits of a cleaned key are those of the input, lower-cased, in order. */
  lemma CleanKeepsWords(s: string)
    ensures Seqs.Filter(Clean(s), IsWordChar) == Lower(Seqs.Filter(s, IsWordChar))
  {
    var c := Collapse(Lower(s));
    var i, j := StripWindow(c, IsUnderscore);
    FilterOfWindow(c, i, j);
    CollapseKeepsWords(Lower(s));
    LowerKeepsWords(s);
  }

  /** Cutting underscores off both ends loses no letter or digit. */
  lemma FilterOfWindow(c: string, i: nat, j: nat)
    requires i <= j <= |c|
    requires forall k :: 0 <= k < i ==> c[k] == '_'
    requires forall k :: j <= k < |c| ==> c[k] == '_'
    ensures Seqs.Filter(c[i..j], IsWordChar) == Seqs.Filter(c, IsWordChar)
  {
    var a, m, b := c[..i], c[i..j], c[j..];
    SliceThree(c, i, j);
    forall k | 0 <= k < |a| ensures !IsWordChar(a[k]) { assert a[k] == c[k]; }
    forall k | 0 <= k < |b| ensures !IsWordChar(b[k]) { assert b[k] == c[j + k]; }
    FilterAroundSeparators(a, m, b);
  }

  lemma SliceThree(c: string, i: nat, j: nat)
    requires i <= j <= |c|
    ensures (c[..i] + c[i..j]) + c[j..] == c
  {
    assert c[..i] + c[i..j] == c[..j];
    assert c[..j] + c[j..] == c;
  }

  lemma FilterAroundSeparators(a: string, m: string, b: string)
    requires forall k :: 0 <= k < |a| ==> !IsWordChar(a[k])
    requires forall k :: 0 <= k < |b| ==> !IsWordChar(b[k])
    ensures Seqs.Filter((a + m) + b, IsWordChar) == Seqs.Filter(m, IsWordChar)
  {
    Seqs.FilterConcat(a + m, b, IsWordChar);
    Seqs.FilterConcat(a, m, IsWordChar);
    Seqs.FilterNone(a, IsWordChar);
    Seqs.FilterNone(b, IsWordChar);
  }

  // ---------------------------------------------------------------------------
  // The alias table against the normaliser

  /** A string of letters and digits collapses to itself. */
  lemma CollapseWords(w: string)
    requires forall k :: 0 <= k < |w| ==> IsWordChar(w[k])
    ensures Collapse(w) == w
  {
    CollapseFixed(w);
  }

  /** A string that ends in a letter or digit ends every separator run it has,
      so collapsing distributes over what follows it. */
  lemma {:induction false} CollapseConcat(a: string, b: string)
    requires a != [] && IsWordChar(a[|a| - 1])
    ensures Collapse(a + b) == Collapse(a) + Collapse(b)
    decreases |a|
  {
    var c, x := a[0], a[1..];
    Seqs.HeadTail(a, b);
    if x == [] {
      assert IsWordChar(c);
      assert x + b == b && Collapse(x) == [] && [] + Collapse(b) == Collapse(b);
      WordStep(c, x, b);
    } else if IsWordChar(c) {
      assert x[|x| - 1] == a[|a| - 1];
      CollapseConcat(x, b);
      WordStep(c, x, b);
    } else {
      assert x[|x| - 1] == a[|a| - 1];
      SkipConcat(x, b);
      var t := SkipSeparators(x);
      assert t[|t| - 1] == x[|x| - 1];
      CollapseConcat(t, b);
      SeparatorStep(c, x, b);
    }
  }

  /** The step of `CollapseConcat` for a leading word character. */
  lemma WordStep(c: char, x: string, b: string)
    requires IsWordChar(c)
    requires Collapse(x + b) == Collapse(x) + Collapse(b)
    ensures Collapse([c] + (x + b)) == Collapse([c] + x) + Collapse(b)
  {
    CollapseCons(c, x);
    CollapseCons(c, x + b);
    Seqs.AppendAssoc([c], Collapse(x), Collapse(b));
  }

  /** The step of `CollapseConcat` for a leading separator. */
  lemma SeparatorStep(c: char, x: string, b: string)
    requires !IsWordChar(c)
    requires SkipSeparators(x + b) == SkipSeparators(x) + b
    requires Collapse(SkipSeparators(x) + b) == Collapse(SkipSeparators(x)) + Collapse(b)
    ensures Collapse([c] + (x + b)) == Collapse([c] + x) + Collapse(b)
  {
    CollapseCons(c, x);
    CollapseCons(c, x + b);
    Seqs.AppendAssoc("_", Collapse(SkipSeparators(x)), Collapse(b));
  }

  /** `Collapse` on a string split into its first character and the rest. */
  lemma CollapseCons(c: char, rest: string)
    ensures Collapse([c] + rest)
            == if IsWordChar(c) then [c] + Collapse(rest) else "_" + Collapse(SkipSeparators(rest))
  {
    assert ([c] + rest)[0] == c && ([c] + rest)[1..] == rest;
  }

  lemma {:induction false} LeadingCountConcat(a: string, b: string, p: char -> bool)
    requires LeadingCount(a, p) < |a|
    ensures LeadingCount(a + b, p) == LeadingCount(a, p)
    decreases |a|
  {
    assert (a + b)[0] == a[0] && (a + b)[1..] == a[1..] + b;
    if p(a[0]) {
      LeadingCountConcat(a[1..], b, p);
    }
  }

  /** Skipping the separators of a string that ends in a word character
      stops inside it. */
  lemma SkipConcat(x: string, b: string)
    requires x != [] && IsWordChar(x[|x| - 1])
    ensures SkipSeparators(x) != [] && |SkipSeparators(x)| <= |x|
    ensures SkipSeparators(x + b) == SkipSeparators(x) + b
  {
    var n := LeadingCount(x, IsSeparator);
    assert n < |x|;
    LeadingCountConcat(x, b, IsSeparator);
    assert (x + b)[n..] == x[n..] + b;
  }

  /** One separator in front of a word becomes one underscore. */
  lemma CollapseSeparatorThenWord(c: char, w: string)
    requires !IsWordChar(c) && w != [] && IsWordChar(w[0])
    ensures Collapse([c] + w) == "_" + Collapse(w)
  {
    assert ([c] + w)[1..] == w;
    assert LeadingCount(w, IsSeparator) == 0;
    assert w[0..] == w;
  }

  predicate IsWord(w: string)
  {
    w != [] && forall k :: 0 <= k < |w| ==> IsWordChar(w[k])
  }

  lemma LowerWord(w: string)
    requires IsWord(w)
    ensures IsWord(Lower(w))
  {
  }

  /** A single word normalises to its lower case. */
  lemma NormalizeWord(a: string)
    requires IsWord(a)
    ensures Normalize(a) == Lower(a)
  {
    LowerWord(a);
    CollapseWords(Lower(a));
    StripNoop(Lower(a), IsUnderscore);
  }

  lemma LowerAround(a: string, c: char, b: string)
    ensures Lower(a + [c] + b) == Lower(a) + [LowerChar(c)] + Lower(b)
  {
    LowerConcat(a + [c], b);
    LowerConcat(a, [c]);
  }

  /** A word, one separator, and a string that starts with a word character:
      the separator becomes one underscore. */
  lemma CollapseAround(a: string, c: char, b: string)
    requires IsWord(a) && !IsWordChar(c) && b != [] && IsWordChar(b[0])
    ensures Collapse(a + [c] + b) == a + "_" + Collapse(b)
  {
    assert a + [c] + b == a + ([c] + b);
    CollapseConcat(a, [c] + b);
    CollapseWords(a);
    CollapseSeparatorThenWord(c, b);
  }

  /** Two words around a "/" normalise to their lower cases joined by "_". */
  lemma NormalizeTwoWords(a: string, b: string)
    requires IsWord(a) && IsWord(b)
    ensures Normalize(a + "/" + b) == Lower(a) + "_" + Lower(b)
  {
    LowerWord(a);
    LowerWord(b);
    LowerAround(a, '/', b);
    CollapseAround(Lower(a), '/', Lower(b));
    CollapseWords(Lower(b));
    StripNoop(Lower(a) + "_" + Lower(b), IsUnderscore);
  }

  lemma LowerThree(a: string, b: string, c: string)
    ensures Lower(a + "/" + b + "/" + c) == Lower(a) + "/" + Lower(b) + "/" + Lower(c)
  {
    assert a + "/" + b + "/" + c == a + ['/'] + (b + "/" + c);
    LowerAround(a, '/', b + "/" + c);
    LowerAround(b, '/', c);
  }

  lemma CollapseThree(a: string, b: string, c: string)
    requires IsWord(a) && IsWord(b) && IsWord(c)
    ensures Collapse(a + "/" + b + "/" + c) == a + "_" + b + "_" + c
  {
    var m := b + ['/'] + c;
    assert m[0] == b[0];
    assert a + "/" + b + "/" + c == a + ['/'] + m;
    assert Collapse(m) == b + "_" + c by {
      CollapseAround(b, '/', c);
      CollapseWords(c);
    }
    CollapseAround(a, '/', m);
  }

  /** Three words joined by "/"s normalise to their lower cases joined by "_"s. */
  lemma NormalizeThreeWords(a: string, b: string, c: string)
    requires IsWord(a) && IsWord(b) && IsWord(c)
    ensures Normalize(a + "/" + b + "/" + c) == Lower(a) + "_" + Lower(b) + "_" + Lower(c)
  {
    LowerWord(a);
    LowerWord(b);
    LowerWord(c);
    LowerThree(a, b, c);
    CollapseThree(Lower(a), Lower(b), Lower(c));
    StripNoop(Lower(a) + "_" + Lower(b) + "_" + Lower(c), IsUnderscore);
  }

  /** A table key with a non-empty value resolves to that value: the table is
      consulted before the normaliser. */
  lemma KeyForTableKeys(k: string)
    requires k in KeyMap && KeyMap[k] != ""
    ensures KeyForCategory(k) == KeyMap[k]
  {
  }

  /** The table sends the three spellings of the frappe category to one key,
      and both spellings of the cold category to another. */
  lemma KeyAliases()
    ensures KeyForCategory("Frappe/Smothies") == "frappe_smoothies"
    ensures KeyForCategory("Frappe/Smoothies") == "frappe_smoothies"
    ensures KeyForCategory("FRAPPE/SMOOTHIES") == "frappe_smoothies"
    ensures KeyForCategory("COLD") == "cold" && KeyForCategory("Cold") == "cold"
  {
    KeyForTableKeys("Frappe/Smothies");
    KeyForTableKeys("Frappe/Smoothies");
    KeyForTableKeys("FRAPPE/SMOOTHIES");
    KeyForTableKeys("COLD");
    KeyForTableKeys("Cold");
  }

  /** Two names with the same key share a label once that key is translated. */
  lemma SameKeySameLabel(tr: Translations, a: string, b: string)
    requires a != "" && a != "All" && a != "__all__"
    requires b != "" && b != "All" && b != "__all__"
    requires KeyForCategory(a) == KeyForCategory(b)
    requires "menu.categories." + KeyForCategory(a) in tr
    ensures LabelForCategory(tr, Some(a)) == LabelForCategory(tr, Some(b))
  {
  }

  /** "FRAPPE/SMOOTHIES" is labelled like "Frappe/Smothies" once the shared key is translated. */
  lemma FrappeSpellingsShareLabel(tr: Translations)
    requires "menu.categories.frappe_smoothies" in tr
    ensures LabelForCategory(tr, Some("FRAPPE/SMOOTHIES")) == LabelForCategory(tr, Some("Frappe/Smothies"))
  {
    var a, b := "FRAPPE/SMOOTHIES", "Frappe/Smothies";
    KeyForTableKeys(a);
    KeyForTableKeys(b);
    assert |a| != |"All"| && |a| != |"__all__"| && |b| != |"All"| && |b| != |"__all__"|;
    assert "menu.categories." + "frappe_smoothies" == "menu.categories.frappe_smoothies";
    SameKeySameLabel(tr, a, b);
  }

  /** A name with no letter or digit outside the table, such as "///", keys on itself. */
  lemma SeparatorsKeyOnThemselves(s: string)
    requires forall k :: 0 <= k < |s| ==> !IsWordChar(s[k])
    requires s !in KeyMap
    ensures Normalize(s) == s
    ensures KeyForCategory(s) == s
  {
    NormalizeCases(s);
  }
}
