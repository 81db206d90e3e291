/** The product catalogue of src/hooks/useProducts.js, built once from the
    list of `{ category, items }` sections: the flat item list tagged with its
    section's category, the de-duplicated category list, the display order with
    priority categories pinned first, the id/slug index, and the two-stage
    category-then-search filter. */
module Products {

  import opened Js
  import opened Seqs

  // ---------------------------------------------------------------------------
  // Data

  /** The localised names of an item; any of them may be absent. */
  datatype Names = Names(en: Option<string>, zh: Option<string>, km: Option<string>)

  /** A product as the data file gives it: the fields the catalogue reads. */
  datatype Item = Item(id: Option<Value>, slug: Option<Value>, name: Option<Names>)

  /** A section of the data file; `items` is `None` when it is absent or not an array. */
  datatype Section = Section(category: Option<string>, items: Option<seq<Item>>)

  /** `{ ...it, _category }`: an item tagged with its section's category. */
  datatype Tagged = Tagged(item: Item, category: Option<string>)

  /** `Array.isArray(raw) ? raw : []`. */
  function DataOf(raw: Option<seq<Section>>): seq<Section>
  {
    if raw.Some? then raw.value else []
  }

  /** `Array.isArray(section?.items) ? section.items : []`. */
  function ItemsOf(s: Section): seq<Item>
  {
    if s.items.Some? then s.items.value else []
  }

  /** `section?.category || ""`. */
  function CategoryOf(s: Section): string
  {
    OrEmpty(s.category)
  }

  /** `(s || "").trim().toLowerCase()`. */
  function Norm(s: string): string
  {
    Lower(Trim(s))
  }

  // ---------------------------------------------------------------------------
  // FLAT

  /** `items.map(it => ({ ...it, _category: cat }))`. */
  function Tag(items: seq<Item>, cat: Option<string>): (r: seq<Tagged>)
    ensures |r| == |items|
    ensures forall i :: 0 <= i < |r| ==> r[i] == Tagged(items[i], cat)
  {
    if items == [] then [] else [Tagged(items[0], cat)] + Tag(items[1..], cat)
  }

  /** The items a section contributes to `FLAT`. */
  function SectionItems(s: Section): seq<Tagged>
  {
    Tag(ItemsOf(s), Some(CategoryOf(s)))
  }

  /** `DATA.flatMap(section => ...)`. */
  function Flat(d: seq<Section>): seq<Tagged>
  {
    if d == [] then [] else SectionItems(d[0]) + Flat(d[1..])
  }

  lemma {:induction false} FlatAppend(a: seq<Section>, b: seq<Section>)
    ensures Flat(a + b) == Flat(a) + Flat(b)
    decreases |a|
  {
    if a == [] {
      assert a + b == b;
    } else {
      assert (a + b)[0] == a[0] && (a + b)[1..] == a[1..] + b;
      FlatAppend(a[1..], b);
    }
  }

  /** Item `k` of section `j` sits in `FLAT` right after the items of the
      sections before `j`, tagged with section `j`'s category (or ""). */
  lemma FlatAt(d: seq<Section>, j: int, k: int)
    requires 0 <= j < |d| && 0 <= k < |ItemsOf(d[j])|
    ensures var o := |Flat(d[..j])|;
            o + k < |Flat(d)| && Flat(d)[o + k] == Tagged(ItemsOf(d[j])[k], Some(CategoryOf(d[j])))
  {
    assert d == d[..j] + d[j..];
    FlatAppend(d[..j], d[j..]);
    assert d[j..][0] == d[j];
  }

  /** Every item of `FLAT` is item `k` of some section `j`, tagged with that
      section's category. */
  lemma {:induction false} FlatFrom(d: seq<Section>, i: int) returns (j: int, k: int)
    requires 0 <= i < |Flat(d)|
    ensures 0 <= j < |d| && 0 <= k < |ItemsOf(d[j])|
    ensures Flat(d)[i] == Tagged(ItemsOf(d[j])[k], Some(CategoryOf(d[j])))
    decreases |d|
  {
    var h, t := SectionItems(d[0]), Flat(d[1..]);
    assert Flat(d) == h + t;
    if i < |h| {
      j, k := 0, i;
    } else {
      var j', k' := FlatFrom(d[1..], i - |h|);
      assert d[1..][j'] == d[j' + 1];
      j, k := j' + 1, k';
    }
  }

  /** A section without an item array contributes nothing. */
  lemma FlatSkipsMissingItems(d: seq<Section>, j: int)
    requires 0 <= j < |d| && d[j].items.None?
    ensures Flat(d) == Flat(d[..j] + d[j + 1..])
  {
    var a, x, b := d[..j], [d[j]], d[j + 1..];
    assert d == (a + x) + b;
    assert d[..j] + d[j + 1..] == a + b;
    assert Flat(x) == [] by {
      assert x[1..] == [];
      assert SectionItems(d[j]) == [];
    }
    FlatAppend(a + x, b);
    FlatAppend(a, x);
    FlatAppend(a, b);
    assert Flat(a + x) == Flat(a);
  }

  // ---------------------------------------------------------------------------
  // CATEGORIES

  /** The trimmed category of a section, as the list shows it. */
  function Label(s: Section): string
  {
    Trim(CategoryOf(s))
  }

  /** The trimmed categories of the sections, in file order. */
  function Labels(d: seq<Section>): (r: seq<string>)
    ensures |r| == |d|
    ensures forall j :: 0 <= j < |d| ==> r[j] == Label(d[j])
  {
    Map(d, Label)
  }

  /** A key the category list admits: not empty and not "all". */
  predicate Listable(k: string)
  {
    k != "" && k != "all"
  }

  /** The keys of a list of labels: the `seen` set. The key function is a
      parameter so that the list facts below hold for any key; the catalogue
      uses `Lower`. */
  function KeySet(cs: seq<string>, key: string -> string): set<string>
  {
    if cs == [] then {} else KeySet(cs[..|cs| - 1], key) + {key(cs[|cs| - 1])}
  }

  /** First-seen de-duplication of labels by key, skipping keys that are not listable. */
  function Dedup(ls: seq<string>, key: string -> string): seq<string>
  {
    if ls == [] then []
    else
      var prev := Dedup(ls[..|ls| - 1], key);
      var c := ls[|ls| - 1];
      if !Listable(key(c)) || key(c) in KeySet(prev, key) then prev else prev + [c]
  }

  /** `CATEGORIES`. */
  function Categories(d: seq<Section>): seq<string>
  {
    Dedup(Labels(d), Lower)
  }

  lemma KeySetAppend(cs: seq<string>, c: string, key: string -> string)
    ensures KeySet(cs + [c], key) == KeySet(cs, key) + {key(c)}
  {
    assert (cs + [c])[..|cs|] == cs;
  }

  lemma {:induction false} KeySetMember(cs: seq<string>, key: string -> string, x: string)
    ensures x in KeySet(cs, key) <==> exists i :: 0 <= i < |cs| && key(cs[i]) == x
    decreases |cs|
  {
    if cs != [] {
      var n := |cs| - 1;
      KeySetMember(cs[..n], key, x);
      assert forall i :: 0 <= i < n ==> cs[..n][i] == cs[i];
    }
  }

  /** One more label extends the de-duplicated prefix by it, unless its key is not
      listable or already taken. */
  lemma DedupStep(ls: seq<string>, i: nat, key: string -> string)
    requires i < |ls|
    ensures Dedup(ls[..i + 1], key)
            == var prev := Dedup(ls[..i], key);
               if !Listable(key(ls[i])) || key(ls[i]) in KeySet(prev, key) then prev else prev + [ls[i]]
  {
    assert ls[..i + 1][..i] == ls[..i];
  }

  lemma LabelAt(d: seq<Section>, i: nat)
    requires i < |d|
    ensures Labels(d)[i] == Label(d[i])
  {
  }

  /** The `for` loop that builds `CATEGORIES`, with its `seen` set. */
  method BuildCategories(d: seq<Section>) returns (out: seq<string>)
    ensures out == Categories(d)
  {
    var seen: set<string> := {};
    out := [];
    var i := 0;
    ghost var ls := Labels(d);
    while i < |d|
      invariant 0 <= i <= |d|
      invariant out == Dedup(ls[..i], Lower)
      invariant seen == KeySet(out, Lower)
    {
      var c := Label(d[i]);
      var k := Lower(c);
      LabelAt(d, i);
      DedupStep(ls, i, Lower);
      if !(k == "" || k == "all" || k in seen) {
        KeySetAppend(out, c, Lower);
        seen := seen + {k};
        out := out + [c];
      }
      i := i + 1;
    }
    assert ls[..|d|] == ls;
  }

  /** The listable keys of a list of labels. */
  function ListableKeys(ls: seq<string>, key: string -> string): set<string>
  {
    if ls == [] then {}
    else ListableKeys(ls[..|ls| - 1], key)
         + (if Listable(key(ls[|ls| - 1])) then {key(ls[|ls| - 1])} else {})
  }

  lemma {:induction false} ListableKeysMember(ls: seq<string>, key: string -> string, x: string)
    ensures x in ListableKeys(ls, key) <==> exists j :: 0 <= j < |ls| && Listable(key(ls[j])) && key(ls[j]) == x
    decreases |ls|
  {
    if ls != [] {
      var n := |ls| - 1;
      ListableKeysMember(ls[..n], key, x);
      assert forall j :: 0 <= j < n ==> ls[..n][j] == ls[j];
    }
  }

  /** The keys of the de-duplicated list are exactly the listable keys of the input. */
  lemma {:induction false} DedupKeys(ls: seq<string>, key: string -> string)
    ensures KeySet(Dedup(ls, key), key) == ListableKeys(ls, key)
    decreases |ls|
  {
    if ls != [] {
      var n := |ls| - 1;
      DedupKeys(ls[..n], key);
      var c := ls[n];
      if Listable(key(c)) && key(c) !in KeySet(Dedup(ls[..n], key), key) {
        KeySetAppend(Dedup(ls[..n], key), c, key);
      }
    }
  }

  /** No two labels of `cs` share a key. */
  predicate DistinctKeys(cs: seq<string>, key: string -> string)
  {
    forall i, j :: 0 <= i < j < |cs| ==> key(cs[i]) != key(cs[j])
  }

  /** Every label of `cs` is one of `ls` and has a listable key. */
  predicate ListedFrom(cs: seq<string>, ls: seq<string>, key: string -> string)
  {
    forall i :: 0 <= i < |cs| ==> cs[i] in ls && Listable(key(cs[i]))
  }

  /** The de-duplicated list holds input labels only, each with a listable key,
      and no two with the same key. */
  lemma {:induction false} DedupDistinct(ls: seq<string>, key: string -> string)
    ensures ListedFrom(Dedup(ls, key), ls, key)
    ensures DistinctKeys(Dedup(ls, key), key)
    decreases |ls|
  {
    if ls != [] {
      var n := |ls| - 1;
      var p := ls[..n];
      DedupDistinct(p, key);
      var prev := Dedup(p, key);
      var c := ls[n];
      forall i | 0 <= i < |prev| ensures prev[i] in ls && Listable(key(prev[i])) {
        var q :| 0 <= q < n && p[q] == prev[i];
        assert ls[q] == prev[i];
      }
      if Listable(key(c)) && key(c) !in KeySet(prev, key) {
        KeySetMember(prev, key, key(c));
        var cs := prev + [c];
        assert Dedup(ls, key) == cs;
        forall i, j | 0 <= i < j < |cs| ensures key(cs[i]) != key(cs[j]) {
          if j == |prev| {
            assert cs[i] == prev[i] && cs[j] == c;
          } else {
            assert cs[i] == prev[i] && cs[j] == prev[j];
          }
        }
        forall i | 0 <= i < |cs| ensures cs[i] in ls && Listable(key(cs[i])) {
          if i < |prev| {
            assert cs[i] == prev[i];
          } else {
            assert cs[i] == ls[n];
          }
        }
      } else {
        assert Dedup(ls, key) == prev;
      }
    }
  }

  /** Label `j` is the first with its (listable) key. */
  predicate FirstOfKey(ls: seq<string>, key: string -> string, j: int)
    requires 0 <= j < |ls|
  {
    Listable(key(ls[j])) && forall q :: 0 <= q < j ==> key(ls[q]) != key(ls[j])
  }

  /** The labels that are the first of their listable key, in input order. */
  function Firsts(ls: seq<string>, key: string -> string): seq<string>
  {
    if ls == [] then []
    else Firsts(ls[..|ls| - 1], key) + (if FirstOfKey(ls, key, |ls| - 1) then [ls[|ls| - 1]] else [])
  }

  /** De-duplication keeps exactly the first label of every listable key, in input order. */
  lemma {:induction false} DedupIsFirsts(ls: seq<string>, key: string -> string)
    ensures Dedup(ls, key) == Firsts(ls, key)
    decreases |ls|
  {
    if ls != [] {
      var n := |ls| - 1;
      var p := ls[..n];
      DedupIsFirsts(p, key);
      DedupKeys(p, key);
      ListableKeysMember(p, key, key(ls[n]));
      assert forall q :: 0 <= q < n ==> p[q] == ls[q];
    }
  }

  /** `CATEGORIES` is the trimmed category of the first section of every
      admissible key (lower case, not empty and not "all"), in section order;
      no entry is empty or "all" in any case, and no two entries are equal after
      trimming and lower-casing. */
  lemma CategoriesMeaning(d: seq<Section>)
    ensures Categories(d) == Firsts(Labels(d), Lower)
    ensures var cs := Categories(d);
            && (forall i :: 0 <= i < |cs| ==> cs[i] != "" && Lower(cs[i]) != "all")
            && (forall i, j :: 0 <= i < j < |cs| ==> Norm(cs[i]) != Norm(cs[j]))
  {
    var ls := Labels(d);
    DedupIsFirsts(ls, Lower);
    DedupDistinct(ls, Lower);
    var cs := Categories(d);
    forall i | 0 <= i < |cs| ensures Norm(cs[i]) == Lower(cs[i]) {
      var j :| 0 <= j < |ls| && ls[j] == cs[i];
      TrimIdempotent(CategoryOf(d[j]));
    }
  }

  // ---------------------------------------------------------------------------
  // DISPLAY_CATEGORIES

  /** `["signature", "premium", "hot drink", "hot drinks"]`. */
  const Priority: seq<string> := ["signature", "premium", "hot drink", "hot drinks"]

  predicate IsPinned(c: string)
  {
    Norm(c) in Priority
  }

  predicate IsUnpinned(c: string)
  {
    !IsPinned(c)
  }

  /** `[...pinned, ...rest]`. */
  function DisplayOrder(cs: seq<string>): seq<string>
  {
    Filter(cs, IsPinned) + Filter(cs, IsUnpinned)
  }

  /** The display order is a permutation of the category list. */
  lemma DisplayIsPermutation(cs: seq<string>)
    ensures multiset(DisplayOrder(cs)) == multiset(cs)
  {
    FilterPartition(cs, IsPinned, IsUnpinned);
  }

  /** All pinned categories come before all others, and each group keeps the
      relative order it has in the category list. */
  lemma DisplayPinnedFirst(cs: seq<string>)
    ensures var r := DisplayOrder(cs);
            var n := |Filter(cs, IsPinned)|;
            && (forall i :: 0 <= i < n ==> IsPinned(r[i]))
            && (forall i :: n <= i < |r| ==> !IsPinned(r[i]))
            && Filter(r, IsPinned) == Filter(cs, IsPinned)
            && Filter(r, IsUnpinned) == Filter(cs, IsUnpinned)
  {
    PartitionGroups(cs, IsPinned, IsUnpinned);
    PartitionFilters(cs, IsPinned, IsUnpinned);
  }

  // ---------------------------------------------------------------------------
  // BY_ID and getById

  /** `it.id || it.slug`: the item has a truthy id or slug. */
  predicate Indexed(it: Item)
  {
    TruthyField(it.id) || TruthyField(it.slug)
  }

  /** `it.id ?? it.slug`, for an item that is indexed. */
  function IdKey(it: Item): Value
    requires Indexed(it)
  {
    if !Nullish(it.id) then it.id.value else it.slug.value
  }

  /** `it` is indexed under `k`. */
  predicate IndexedAs(it: Item, k: Value)
  {
    Indexed(it) && IdKey(it) == k
  }

  /** The map after the first items of `FLAT`, one `map.set` per indexed item. */
  function Index(flat: seq<Tagged>): map<Value, Tagged>
  {
    if flat == [] then map[]
    else
      var m := Index(flat[..|flat| - 1]);
      var t := flat[|flat| - 1];
      if Indexed(t.item) then m[IdKey(t.item) := t] else m
  }

  /** The `for` loop that builds `BY_ID`. */
  method BuildIndex(flat: seq<Tagged>) returns (m: map<Value, Tagged>)
    ensures m == Index(flat)
  {
    m := map[];
    var i := 0;
    while i < |flat|
      invariant 0 <= i <= |flat|
      invariant m == Index(flat[..i])
    {
      var it := flat[i];
      assert flat[..i + 1][..i] == flat[..i];
      if TruthyField(it.item.id) || TruthyField(it.item.slug) {
        var k := if !Nullish(it.item.id) then it.item.id.value else it.item.slug.value;
        m := m[k := it];
      }
      i := i + 1;
    }
    assert flat[..|flat|] == flat;
  }

  /** A key is in the index exactly when some indexed item has it, and it maps
      to the last such item: later writers win, and items with neither a
      truthy id nor a truthy slug are never indexed. */
  lemma {:induction false} IndexLastWriter(flat: seq<Tagged>, k: Value)
    ensures k in Index(flat) <==> exists i :: 0 <= i < |flat| && IndexedAs(flat[i].item, k)
    ensures k in Index(flat) ==>
              exists i :: 0 <= i < |flat| && Index(flat)[k] == flat[i] && IndexedAs(flat[i].item, k)
                          && forall j :: i < j < |flat| ==> !IndexedAs(flat[j].item, k)
    decreases |flat|
  {
    if flat != [] {
      var n := |flat| - 1;
      var p := flat[..n];
      IndexLastWriter(p, k);
      assert forall i :: 0 <= i < n ==> p[i] == flat[i];
      if !IndexedAs(flat[n].item, k) && k in Index(flat) {
        var i :| 0 <= i < |p| && Index(p)[k] == p[i] && IndexedAs(p[i].item, k)
                 && forall j :: i < j < |p| ==> !IndexedAs(p[j].item, k);
        assert forall j :: i < j < |flat| ==> !IndexedAs(flat[j].item, k);
      }
      if IndexedAs(flat[n].item, k) {
        assert Index(flat)[k] == flat[n];
      }
    }
  }

  // ---------------------------------------------------------------------------
  // filterItems

  function En(it: Item): string
  {
    if it.name.Some? then OrEmpty(it.name.value.en) else ""
  }

  function Zh(it: Item): string
  {
    if it.name.Some? then OrEmpty(it.name.value.zh) else ""
  }

  function Km(it: Item): string
  {
    if it.name.Some? then OrEmpty(it.name.value.km) else ""
  }

  /** The lower-cased en, zh or km name (a missing one counts as "") contains `q`. */
  predicate Matches(it: Item, q: string)
  {
    Contains(Lower(En(it)), q) || Contains(Lower(Zh(it)), q) || Contains(Lower(Km(it)), q)
  }

  /** `sameCat(it._category, active)`. */
  predicate InCategory(t: Tagged, active: string)
  {
    Norm(OrEmpty(t.category)) == Norm(active)
  }

  /** `inCat`: everything for "All", otherwise the items of the active category. */
  function InCat(flat: seq<Tagged>, active: string): seq<Tagged>
  {
    if active == "All" then flat else Filter(flat, (t: Tagged) => InCategory(t, active))
  }

  /** `filterItems(active, q)` over `FLAT`. */
  function FilterItems(flat: seq<Tagged>, active: string, q: string): seq<Tagged>
  {
    var query := Norm(q);
    if query == "" then InCat(flat, active)
    else Filter(InCat(flat, active), (t: Tagged) => Matches(t.item, query))
  }

  /** An item passes both stages of the filter. */
  predicate Selected(t: Tagged, active: string, query: string)
  {
    (active == "All" || InCategory(t, active)) && (query == "" || Matches(t.item, query))
  }

  /** "All" with an empty or all-white-space query gives the whole list, in order. */
  lemma FilterItemsEverything(flat: seq<Tagged>, q: string)
    requires Trim(q) == ""
    ensures FilterItems(flat, "All", q) == flat
  {
  }

  /** The two stages are one filter by their conjunction, so the result is an
      order-preserving subsequence of `FLAT` holding exactly the items that
      pass both. */
  lemma FilterItemsSelected(flat: seq<Tagged>, active: string, q: string)
    ensures FilterItems(flat, active, q) == Filter(flat, (t: Tagged) => Selected(t, active, Norm(q)))
    ensures IsSubseq(FilterItems(flat, active, q), flat)
  {
    var query := Norm(q);
    var sel := (t: Tagged) => Selected(t, active, query);
    var cat := (t: Tagged) => InCategory(t, active);
    var hit := (t: Tagged) => Matches(t.item, query);
    if active == "All" {
      if query == "" {
        FilterAll(flat, sel);
      } else {
        FilterExt(flat, hit, sel);
      }
    } else {
      if query == "" {
        FilterExt(flat, cat, sel);
      } else {
        FilterFilter(flat, cat, hit, sel);
      }
    }
    FilterIsSubseq(flat, sel);
  }

  /** Outside "All", every result's category equals the active one after
      trimming and lower-casing; with a non-blank query every result matches
      the trimmed, lower-cased query in one of its names. */
  lemma FilterItemsMeaning(flat: seq<Tagged>, active: string, q: string)
    ensures var r := FilterItems(flat, active, q);
            && (active != "All" ==> forall i :: 0 <= i < |r| ==> InCategory(r[i], active))
            && (Norm(q) != "" ==> forall i :: 0 <= i < |r| ==> Matches(r[i].item, Norm(q)))
            && (forall i :: 0 <= i < |flat| && Selected(flat[i], active, Norm(q)) ==> flat[i] in r)
  {
    FilterItemsSelected(flat, active, q);
  }

  // ---------------------------------------------------------------------------
  // The catalogue

  /** What `useProducts()` returns, built once from the data file's contents. */
  class Catalog {
    const items: seq<Tagged>
    const categories: seq<string>
    const displayCategories: seq<string>
    const byId: map<Value, Tagged>

    /** The four views agree with their definitions over the flat list. */
    predicate Valid()
    {
      && byId == Index(items)
      && displayCategories == DisplayOrder(categories)
    }

    /** Builds `FLAT`, `CATEGORIES`, `DISPLAY_CATEGORIES` and `BY_ID` from `raw`. */
    constructor (raw: Option<seq<Section>>)
      ensures items == Flat(DataOf(raw))
      ensures categories == Categories(DataOf(raw))
      ensures displayCategories == DisplayOrder(categories)
      ensures byId == Index(items)
      ensures Valid()
    {
      var d := DataOf(raw);
      var flat := Flat(d);
      var cs := BuildCategories(d);
      var m := BuildIndex(flat);
      items := flat;
      categories := cs;
      displayCategories := DisplayOrder(cs);
      byId := m;
    }

    /** `getById(k)`: the last item of the flat list indexed under `k`, if any. */
    function GetById(k: Value): (r: Option<Tagged>)
      requires Valid()
      ensures r.Some? <==> exists i :: 0 <= i < |items| && IndexedAs(items[i].item, k)
      ensures r.Some? ==> exists i :: 0 <= i < |items| && r.value == items[i]
                            && IndexedAs(items[i].item, k)
                            && forall j :: i < j < |items| ==> !IndexedAs(items[j].item, k)
    {
      IndexLastWriter(items, k);
      if k in byId then Some(byId[k]) else None
    }

    /** `filterItems(active, q)`. */
    function Query(active: string, q: string): (r: seq<Tagged>)
      ensures IsSubseq(r, items)
      ensures forall i :: 0 <= i < |r| ==> Selected(r[i], active, Norm(q))
      ensures forall i :: 0 <= i < |items| && Selected(items[i], active, Norm(q)) ==> items[i] in r
      ensures r == Filter(items, (t: Tagged) => Selected(t, active, Norm(q)))
    {
      FilterItemsSelected(items, active, q);
      FilterItems(items, active, q)
    }
  }
}
