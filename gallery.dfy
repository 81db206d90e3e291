/** The gallery page of src/pages/GallaryPage.jsx: the entries of the gallery
    file normalised into slides, and the slideshow state (`index`,
    `direction`, `imgLoaded`, `playing`) that the arrows, the dots, the
    keyboard and the hover handlers change. */
module Gallery {

  import opened Js
  import opened Seqs

  // ---------------------------------------------------------------------------
  // Slides

  /** An entry of the gallery file: a bare URL string, an object with some of
      the fields the page reads, or anything else (`null`, a number, a boolean). */
  datatype Entry =
    | Text(s: string)
    | Object(src: Option<string>, image: Option<string>, url: Option<string>, link: Option<string>,
             quote: Option<string>, caption: Option<string>, text: Option<string>,
             alt: Option<string>, title: Option<string>)
    | Other

  /** A normalised slide. */
  datatype Slide = Slide(src: string, quote: Option<string>, alt: string)

  /** `a || b || c || d || ""` over optional strings. */
  function FirstGiven(fs: seq<Option<string>>): (r: string)
    ensures r == "" <==> forall i :: 0 <= i < |fs| ==> !Given(fs[i])
    ensures r != "" ==> exists i :: 0 <= i < |fs| && Given(fs[i]) && fs[i].value == r
                                    && forall j :: 0 <= j < i ==> !Given(fs[j])
  {
    if fs == [] then ""
    else if Given(fs[0]) then fs[0].value
    else
      var r := FirstGiven(fs[1..]);
      assert forall i :: 1 <= i < |fs| ==> fs[1..][i - 1] == fs[i];
      r
  }

  /** `srcOf(it)`. */
  function SrcOf(e: Entry): string
  {
    match e
    case Text(s) => s
    case Object(src, image, url, link, _, _, _, _, _) => FirstGiven([src, image, url, link])
    case Other => ""
  }

  /** `quoteOf(it)`: the first given of `quote`, `caption`, `text` of an object. */
  function QuoteOf(e: Entry): (r: Option<string>)
    ensures e.Object? && FirstGiven([e.quote, e.caption, e.text]) != "" ==> r == Some(FirstGiven([e.quote, e.caption, e.text]))
    ensures r.Some? <==> e.Object? && FirstGiven([e.quote, e.caption, e.text]) != ""
    ensures r.Some? ==> r.value != ""
  {
    if e.Object? then
      var q := FirstGiven([e.quote, e.caption, e.text]);
      if q != "" then Some(q) else None
    else None
  }

  /** What follows the last `/` of `s`: `s.split("/").pop()`. */
  function AfterLastSlash(s: string): (r: string)
    ensures |r| <= |s| && r == s[|s| - |r|..]
    ensures forall k :: 0 <= k < |r| ==> r[k] != '/'
    ensures |r| < |s| ==> s[|s| - |r| - 1] == '/'
  {
    if s == [] || s[|s| - 1] == '/' then []
    else AfterLastSlash(s[..|s| - 1]) + [s[|s| - 1]]
  }

  /** `s.replace(/[-_]/g, " ")`. */
  function Spaced(s: string): (r: string)
    ensures |r| == |s|
    ensures forall k :: 0 <= k < |s| ==> r[k] == (if s[k] == '-' || s[k] == '_' then ' ' else s[k])
  {
    if s == [] then [] else [if s[0] == '-' || s[0] == '_' then ' ' else s[0]] + Spaced(s[1..])
  }

  /** What precedes the first `.` of `s`: `s.split(".")[0]`. */
  function BeforeDot(s: string): (r: string)
    ensures |r| <= |s| && r == s[..|r|]
    ensures forall k :: 0 <= k < |r| ==> r[k] != '.'
    ensures |r| < |s| ==> s[|r|] == '.'
  {
    if s == [] || s[0] == '.' then [] else [s[0]] + BeforeDot(s[1..])
  }

  /** `filenameToAlt(url)`. */
  function FilenameToAlt(url: string): string
  {
    var seg := AfterLastSlash(url);
    BeforeDot(Spaced(if seg == "" then "image" else seg))
  }

  /** The alt text holds no `/`, `-`, `_` or `.`, and it is the start of the
      last path segment (or of "image" when that segment is empty) with dashes
      and underscores made spaces. */
  lemma FilenameToAltShape(url: string)
    ensures var r := FilenameToAlt(url);
            var seg := AfterLastSlash(url);
            var base := if seg == "" then "image" else seg;
            && (forall k :: 0 <= k < |r| ==> r[k] != '/' && r[k] != '-' && r[k] != '_' && r[k] != '.')
            && |r| <= |base|
            && r == Spaced(base)[..|r|]
  {
    var seg := AfterLastSlash(url);
    var base := if seg == "" then "image" else seg;
    var sp := Spaced(base);
    var r := BeforeDot(sp);
    forall k | 0 <= k < |r| ensures r[k] != '/' && r[k] != '-' && r[k] != '_' && r[k] != '.' {
      assert r[k] == sp[k];
      if seg == "" {
        assert base[k] in "image";
      } else {
        assert base[k] == seg[k];
      }
    }
  }

  /** A plain file name without a directory, a dot, a dash or an underscore is
      its own alt text. */
  lemma {:induction false} FilenameToAltPlain(name: string)
    requires name != ""
    requires forall k :: 0 <= k < |name| ==> name[k] != '/' && name[k] != '-' && name[k] != '_' && name[k] != '.'
    ensures FilenameToAlt(name) == name
  {
    AfterLastSlashPlain(name);
    BeforeDotPlain(Spaced(name));
    SpacedPlain(name);
  }

  lemma {:induction false} AfterLastSlashPlain(s: string)
    requires forall k :: 0 <= k < |s| ==> s[k] != '/'
    ensures AfterLastSlash(s) == s
  {
    var r := AfterLastSlash(s);
    assert |r| == |s|;
    assert s[|s| - |r|..] == s;
  }

  lemma {:induction false} BeforeDotPlain(s: string)
    requires forall k :: 0 <= k < |s| ==> s[k] != '.'
    ensures BeforeDot(s) == s
  {
    var r := BeforeDot(s);
    assert |r| == |s|;
    assert s[..|s|] == s;
  }

  lemma SpacedPlain(s: string)
    requires forall k :: 0 <= k < |s| ==> s[k] != '-' && s[k] != '_'
    ensures Spaced(s) == s
  {
  }

  /** The slide an entry gives, if its source is not empty. */
  function SlideOf(e: Entry): (r: Option<Slide>)
    ensures r.Some? <==> SrcOf(e) != ""
    ensures r.Some? ==> r.value.src == SrcOf(e) && r.value.quote == QuoteOf(e)
  {
    var src := SrcOf(e);
    if src == "" then None
    else
      var given := if e.Object? then FirstGiven([e.alt, e.title]) else "";
      Some(Slide(src, QuoteOf(e), if given != "" then given else FilenameToAlt(src)))
  }

  /** The alt text of a slide: the object's `alt` or `title` when given,
      otherwise the one made from the file name. */
  lemma SlideAlt(e: Entry)
    requires SrcOf(e) != ""
    ensures e.Object? && Given(e.alt) ==> SlideOf(e).value.alt == e.alt.value
    ensures e.Object? && !Given(e.alt) && Given(e.title) ==> SlideOf(e).value.alt == e.title.value
    ensures !(e.Object? && (Given(e.alt) || Given(e.title))) ==> SlideOf(e).value.alt == FilenameToAlt(SrcOf(e))
  {
    if e.Object? {
      var fs := [e.alt, e.title];
      assert fs[0] == e.alt && fs[1] == e.title;
    }
  }

  /** `arr.map(...).filter(Boolean)`. */
  function SlidesOf(arr: seq<Entry>): seq<Slide>
  {
    if arr == [] then []
    else
      var rest := SlidesOf(arr[1..]);
      match SlideOf(arr[0])
      case Some(sl) => [sl] + rest
      case None => rest
  }

  /** `slides`: input that is not an array gives none. */
  function Slides(raw: Option<seq<Entry>>): seq<Slide>
  {
    if raw.Some? then SlidesOf(raw.value) else []
  }

  predicate HasSrc(e: Entry)
  {
    SrcOf(e) != ""
  }

  /** The slide of an entry that has a source. */
  function MakeSlide(e: Entry): Slide
  {
    if SrcOf(e) != "" then SlideOf(e).value else Slide("", None, "")
  }

  /** The slides are exactly the entries with a non-empty source, in input
      order, each made into its slide. */
  lemma {:induction false} SlidesAreSourcedEntries(arr: seq<Entry>)
    ensures SlidesOf(arr) == Map(Filter(arr, HasSrc), MakeSlide)
    decreases |arr|
  {
    if arr != [] {
      SlidesAreSourcedEntries(arr[1..]);
      var f := Filter(arr[1..], HasSrc);
      if HasSrc(arr[0]) {
        assert Filter(arr, HasSrc) == [arr[0]] + f;
        var m := Map([arr[0]] + f, MakeSlide);
        assert m == [MakeSlide(arr[0])] + Map(f, MakeSlide);
      } else {
        assert Filter(arr, HasSrc) == f;
      }
    }
  }

  /** No slide has an empty source, and there are no more slides than entries. */
  lemma SlidesHaveSources(arr: seq<Entry>)
    ensures |SlidesOf(arr)| <= |arr|
    ensures forall i :: 0 <= i < |SlidesOf(arr)| ==> SlidesOf(arr)[i].src != ""
  {
    SlidesAreSourcedEntries(arr);
    var f := Filter(arr, HasSrc);
    forall i | 0 <= i < |f| ensures MakeSlide(f[i]).src != "" {
      assert HasSrc(f[i]);
    }
  }

  // ---------------------------------------------------------------------------
  // Navigation

  /** JavaScript's `a % n`, whose remainder takes the sign of `a`. */
  function JsRem(a: int, n: int): (r: int)
    requires n > 0
    ensures a >= 0 ==> 0 <= r < n && r == a % n
    ensures a < 0 ==> -n < r <= 0
  {
    if a >= 0 then a % n else -((-a) % n)
  }

  /** The index `goNext` moves to: `(i + 1) % slides.length`. */
  function NextIndex(i: int, n: int): (r: int)
    requires n > 0 && 0 <= i
    ensures 0 <= r < n
    ensures r == JsRem(i + 1, n)
  {
    JsRem(i + 1, n)
  }

  /** The index `goPrev` moves to: `(i - 1 + slides.length) % slides.length`. */
  function PrevIndex(i: int, n: int): (r: int)
    requires n > 0 && 0 <= i
    ensures 0 <= r < n
    ensures r == JsRem(i - 1 + n, n)
  {
    JsRem(i - 1 + n, n)
  }

  /** Euclidean division has one quotient and one remainder. */
  lemma ModUnique(x: int, n: int, q: int, r: int)
    requires n > 0 && 0 <= r < n && x == q * n + r
    ensures x % n == r && x / n == q
  {
    var q0, r0 := x / n, x % n;
    assert x == q0 * n + r0;
    var d := q0 - q;
    assert d * n == r - r0;
    if d >= 1 {
      MulAtLeast(d, n);
    } else if d <= -1 {
      MulAtLeast(-d, n);
    }
  }

  lemma DivMod(x: int, n: int)
    requires n > 0
    ensures x == (x / n) * n + x % n && 0 <= x % n < n
  {
  }

  lemma MulAtLeast(d: int, n: int)
    requires d >= 1 && n > 0
    ensures d * n >= n
  {
  }

  /** Next moves forward one slide and wraps from the last to the first;
      previous moves back one and wraps from the first to the last. */
  lemma StepCases(i: int, n: int)
    requires 0 <= i < n
    ensures NextIndex(i, n) == (if i == n - 1 then 0 else i + 1)
    ensures PrevIndex(i, n) == (if i == 0 then n - 1 else i - 1)
  {
    if i == n - 1 { ModUnique(i + 1, n, 1, 0); } else { ModUnique(i + 1, n, 0, i + 1); }
    if i == 0 { ModUnique(i - 1 + n, n, 0, n - 1); } else { ModUnique(i - 1 + n, n, 1, i - 1); }
  }

  /** Previous undoes next and next undoes previous. */
  lemma StepsInverse(i: int, n: int)
    requires 0 <= i < n
    ensures PrevIndex(NextIndex(i, n), n) == i
    ensures NextIndex(PrevIndex(i, n), n) == i
  {
    StepCases(i, n);
    StepCases(NextIndex(i, n), n);
    StepCases(PrevIndex(i, n), n);
  }

  /** Where `k` presses of next lead. */
  function Advance(i: int, n: int, k: nat): (r: int)
    requires 0 <= i < n
    ensures 0 <= r < n
  {
    if k == 0 then i else NextIndex(Advance(i, n, k - 1), n)
  }

  /** One step after the remainder of `x` is the remainder of `x + 1`. */
  lemma NextOfRemainder(x: int, n: int)
    requires n > 0 && x >= 0
    ensures NextIndex(x % n, n) == (x + 1) % n
  {
    var a, q := x % n, x / n;
    StepCases(a, n);
    DivMod(x, n);
    if a == n - 1 {
      ModUnique(x + 1, n, q + 1, 0);
    } else {
      ModUnique(x + 1, n, q, a + 1);
    }
  }

  /** `k` presses of next go `k` slides forward, wrapping around. */
  lemma {:induction false} AdvanceIsShift(i: int, n: int, k: nat)
    requires 0 <= i < n
    ensures Advance(i, n, k) == (i + k) % n
  {
    if k > 0 {
      AdvanceIsShift(i, n, k - 1);
      NextOfRemainder(i + k - 1, n);
    }
  }

  /** The keys the keyboard handler reacts to. */
  predicate IsControlKey(key: string)
  {
    key == "ArrowRight" || key == "ArrowLeft" || key == " " || key == "Spacebar"
  }

  /** The slideshow state. `index` starts at 0 with `direction` 1, playing,
      and the current image not yet loaded. */
  class Slideshow {
    const slides: seq<Slide>
    var index: int
    var direction: int
    var imgLoaded: bool
    var playing: bool

    /** The index names a slide whenever there are slides, and the direction
        is one of the two. */
    predicate Valid()
      reads this
    {
      && 0 <= index
      && (slides != [] ==> index < |slides|)
      && (direction == 1 || direction == -1)
    }

    constructor (slides: seq<Slide>)
      ensures this.slides == slides
      ensures index == 0 && direction == 1 && !imgLoaded && playing
      ensures Valid()
    {
      this.slides := slides;
      index := 0;
      direction := 1;
      imgLoaded := false;
      playing := true;
    }

    /** `current = slides[index]`. */
    function Current(): (r: Slide)
      reads this
      requires Valid() && slides != []
      ensures r in slides
    {
      slides[index]
    }

    /** `goNext`. */
    method GoNext()
      requires Valid()
      modifies this
      ensures Valid()
      ensures slides == [] ==> index == old(index) && direction == old(direction) && imgLoaded == old(imgLoaded)
      ensures slides != [] ==> index == NextIndex(old(index), |slides|) && direction == 1 && !imgLoaded
      ensures playing == old(playing)
    {
      if slides == [] {
        return;
      }
      direction := 1;
      imgLoaded := false;
      index := (index + 1) % |slides|;
    }

    /** `goPrev`. */
    method GoPrev()
      requires Valid()
      modifies this
      ensures Valid()
      ensures slides == [] ==> index == old(index) && direction == old(direction) && imgLoaded == old(imgLoaded)
      ensures slides != [] ==> index == PrevIndex(old(index), |slides|) && direction == -1 && !imgLoaded
      ensures playing == old(playing)
    {
      if slides == [] {
        return;
      }
      direction := -1;
      imgLoaded := false;
      index := (index - 1 + |slides|) % |slides|;
    }

    /** The click handler of dot `i`. */
    method DotClick(i: int)
      requires Valid() && 0 <= i < |slides|
      modifies this
      ensures Valid()
      ensures index == i && direction == (if i > old(index) then 1 else -1) && !imgLoaded
      ensures playing == old(playing)
    {
      direction := if i > index then 1 else -1;
      imgLoaded := false;
      index := i;
    }

    /** The space bar: `setPlaying(p => !p)`, ignored without slides. */
    method TogglePlaying()
      requires Valid()
      modifies this
      ensures Valid()
      ensures playing == (if slides == [] then old(playing) else !old(playing))
      ensures index == old(index) && direction == old(direction) && imgLoaded == old(imgLoaded)
    {
      if slides != [] {
        playing := !playing;
      }
    }

    /** The arrow keys and the space bar; every other key is ignored. */
    method OnKey(key: string)
      requires Valid()
      modifies this
      ensures Valid()
      ensures slides == [] || !IsControlKey(key) ==>
                index == old(index) && direction == old(direction)
                && imgLoaded == old(imgLoaded) && playing == old(playing)
      ensures slides != [] && key == "ArrowRight" ==>
                index == NextIndex(old(index), |slides|) && direction == 1
                && !imgLoaded && playing == old(playing)
      ensures slides != [] && key == "ArrowLeft" ==>
                index == PrevIndex(old(index), |slides|) && direction == -1
                && !imgLoaded && playing == old(playing)
      ensures slides != [] && (key == " " || key == "Spacebar") ==>
                playing == !old(playing) && index == old(index)
                && direction == old(direction) && imgLoaded == old(imgLoaded)
    {
      if slides == [] {
        return;
      }
      if key == "ArrowRight" {
        GoNext();
      }
      if key == "ArrowLeft" {
        GoPrev();
      }
      if key == " " || key == "Spacebar" {
        TogglePlaying();
      }
    }

    /** Hovering pauses the slideshow. */
    method MouseEnter()
      requires Valid()
      modifies this
      ensures Valid()
      ensures !playing && index == old(index) && direction == old(direction) && imgLoaded == old(imgLoaded)
    {
      playing := false;
    }

    /** Leaving resumes it. */
    method MouseLeave()
      requires Valid()
      modifies this
      ensures Valid()
      ensures playing && index == old(index) && direction == old(direction) && imgLoaded == old(imgLoaded)
    {
      playing := true;
    }

    /** The current image's `onLoad`. */
    method ImageLoaded()
      requires Valid()
      modifies this
      ensures Valid()
      ensures imgLoaded && index == old(index) && direction == old(direction) && playing == old(playing)
    {
      imgLoaded := true;
    }
  }
}
