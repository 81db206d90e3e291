/** The menu page of src/pages/Menu.jsx: its `active` category and search
    `query` state, the unmerged category list it hands to the category bar,
    and its own older item filter, which differs from the catalogue's
    `filterItems` in two ways: it matches categories exactly and
    case-sensitively, and it does not trim a non-blank query. A section
    without an `items` array makes `d.items.map` throw; the model returns
    `None` for that. */
module Menu {

  import opened Js
  import opened Seqs
  import opened Products

  /** `data.map(d => d.category)`: every section's category, verbatim. */
  function AllCategories(data: seq<Section>): (r: seq<Option<string>>)
    ensures |r| == |data|
    ensures forall i :: 0 <= i < |data| ==> r[i] == data[i].category
  {
    Map(data, (s: Section) => s.category)
  }

  /** A section the page keeps: every one for "All", else those whose category
      is exactly `active`. */
  predicate Picks(s: Section, active: string)
  {
    active == "All" || s.category == Some(active)
  }

  /** `active === "All" ? data : data.filter(d => d.category === active)`. */
  function Chosen(data: seq<Section>, active: string): seq<Section>
  {
    if active == "All" then data else Filter(data, (s: Section) => Picks(s, active))
  }

  /** `d.items.map(it => ({ ...it, _category: d.category }))`, or `None` when
      `d.items` is not an array and the call throws. */
  function TagSection(s: Section): Option<seq<Tagged>>
  {
    if s.items.Some? then Some(Tag(s.items.value, s.category)) else None
  }

  /** `chosen.flatMap(...)`: `None` as soon as one section throws. */
  function FlatOf(ds: seq<Section>): Option<seq<Tagged>>
  {
    if ds == [] then Some([])
    else
      match TagSection(ds[0])
      case None => None
      case Some(head) =>
        match FlatOf(ds[1..])
        case None => None
        case Some(tail) => Some(head + tail)
  }

  /** The `items` memo. */
  function MenuItems(data: seq<Section>, active: string, query: string): Option<seq<Tagged>>
  {
    match FlatOf(Chosen(data, active))
    case None => None
    case Some(flat) => Some(Search(flat, query))
  }

  /** The search step of the memo: a blank query keeps everything, any other
      filters by the lower-cased, untrimmed query. */
  function Search(flat: seq<Tagged>, query: string): seq<Tagged>
  {
    if Trim(query) == "" then flat
    else Filter(flat, (t: Tagged) => Matches(t.item, Lower(query)))
  }

  /** The search keeps, in order, exactly the items that match a non-blank
      query, and everything for a blank one. */
  lemma SearchMeaning(flat: seq<Tagged>, query: string)
    ensures IsSubseq(Search(flat, query), flat)
    ensures Trim(query) == "" ==> Search(flat, query) == flat
    ensures Trim(query) != "" ==>
              forall i :: 0 <= i < |Search(flat, query)| ==> Matches(Search(flat, query)[i].item, Lower(query))
    ensures Trim(query) != "" ==>
              forall i :: 0 <= i < |flat| && Matches(flat[i].item, Lower(query)) ==> flat[i] in Search(flat, query)
    ensures Trim(query) != "" ==>
              forall x :: multiset(Search(flat, query))[x]
                            == (if Matches(x.item, Lower(query)) then multiset(flat)[x] else 0)
  {
    var hit := (t: Tagged) => Matches(t.item, Lower(query));
    if Trim(query) == "" {
      FilterAll(flat, (t: Tagged) => true);
      FilterIsSubseq(flat, (t: Tagged) => true);
    } else {
      FilterIsSubseq(flat, hit);
      FilterCount(flat, hit);
    }
  }

  /** Searching keeps only items of the list, so a category all items share
      survives it. */
  lemma SearchKeepsCategory(flat: seq<Tagged>, query: string, c: Option<string>)
    requires forall i :: 0 <= i < |flat| ==> flat[i].category == c
    ensures forall i :: 0 <= i < |Search(flat, query)| ==> Search(flat, query)[i].category == c
  {
    var r := Search(flat, query);
    if Trim(query) != "" {
      forall i | 0 <= i < |r| ensures r[i].category == c {
        assert r[i] in flat;
      }
    }
  }

  /** The flattening succeeds exactly when every section has an `items` array. */
  lemma {:induction false} FlatOfDefined(ds: seq<Section>)
    ensures FlatOf(ds).Some? <==> forall i :: 0 <= i < |ds| ==> ds[i].items.Some?
    decreases |ds|
  {
    if ds != [] {
      FlatOfDefined(ds[1..]);
      assert forall i :: 1 <= i < |ds| ==> ds[1..][i - 1] == ds[i];
    }
  }

  /** Every flattened item carries the category of its section, so when all
      sections share a category so do all items. */
  lemma {:induction false} FlatOfCategory(ds: seq<Section>, c: Option<string>)
    requires forall i :: 0 <= i < |ds| ==> ds[i].category == c
    requires FlatOf(ds).Some?
    ensures forall i :: 0 <= i < |FlatOf(ds).value| ==> FlatOf(ds).value[i].category == c
    decreases |ds|
  {
    if ds != [] {
      assert ds[1..][0..] == ds[1..];
      FlatOfCategory(ds[1..], c);
      var head: seq<Tagged> := Tag(ds[0].items.value, ds[0].category);
      var tail: seq<Tagged> := FlatOf(ds[1..]).value;
      assert FlatOf(ds).value == head + tail;
      forall i | 0 <= i < |head + tail| ensures (head + tail)[i].category == c {
        if i < |head| {
          assert (head + tail)[i] == head[i];
        } else {
          assert (head + tail)[i] == tail[i - |head|];
        }
      }
    }
  }

  /** Where every section has a category and an `items` array, the page
      flattens exactly as the catalogue's `FLAT` does. */
  lemma {:induction false} FlatOfAgreesWithFlat(ds: seq<Section>)
    requires forall i :: 0 <= i < |ds| ==> ds[i].items.Some? && ds[i].category.Some?
    ensures FlatOf(ds) == Some(Flat(ds))
    decreases |ds|
  {
    if ds != [] {
      assert forall i :: 1 <= i < |ds| ==> ds[1..][i - 1] == ds[i];
      FlatOfAgreesWithFlat(ds[1..]);
    }
  }

  /** For "All" every section is kept; otherwise the kept sections, in order,
      are exactly those whose category is `active` in that very spelling. */
  lemma ChosenMeaning(data: seq<Section>, active: string)
    ensures active == "All" ==> Chosen(data, active) == data
    ensures IsSubseq(Chosen(data, active), data)
    ensures forall i :: 0 <= i < |Chosen(data, active)| ==> Picks(Chosen(data, active)[i], active)
    ensures forall i :: 0 <= i < |data| && Picks(data[i], active) ==> data[i] in Chosen(data, active)
    ensures forall x :: multiset(Chosen(data, active))[x] == (if Picks(x, active) then multiset(data)[x] else 0)
  {
    if active == "All" {
      FilterAll(data, (s: Section) => Picks(s, active));
      FilterIsSubseq(data, (s: Section) => Picks(s, active));
    } else {
      FilterIsSubseq(data, (s: Section) => Picks(s, active));
      FilterCount(data, (s: Section) => Picks(s, active));
    }
  }

  /** The page's item list: it exists exactly when every kept section has an
      `items` array; outside "All" every item's category is exactly `active`;
      a blank query keeps every item of the kept sections; any other query
      keeps, in order, exactly the items one of whose lower-cased names
      contains the lower-cased, untrimmed query. */
  lemma MenuItemsMeaning(data: seq<Section>, active: string, query: string)
    ensures var ch := Chosen(data, active);
            MenuItems(data, active, query).Some? <==> forall i :: 0 <= i < |ch| ==> ch[i].items.Some?
    ensures MenuItems(data, active, query).Some? ==>
              var r := MenuItems(data, active, query).value;
              var flat := FlatOf(Chosen(data, active)).value;
              && IsSubseq(r, flat)
              && (active != "All" ==> forall i :: 0 <= i < |r| ==> r[i].category == Some(active))
              && (Trim(query) == "" ==> r == flat)
              && (Trim(query) != "" ==> forall i :: 0 <= i < |r| ==> Matches(r[i].item, Lower(query)))
              && (Trim(query) != "" ==>
                    forall i :: 0 <= i < |flat| && Matches(flat[i].item, Lower(query)) ==> flat[i] in r)
              && (Trim(query) != "" ==>
                    forall x :: multiset(r)[x] == (if Matches(x.item, Lower(query)) then multiset(flat)[x] else 0))
  {
    var ch := Chosen(data, active);
    FlatOfDefined(ch);
    if FlatOf(ch).Some? {
      var flat := FlatOf(ch).value;
      SearchMeaning(flat, query);
      if active != "All" {
        ChosenMeaning(data, active);
        FlatOfCategory(ch, Some(active));
        SearchKeepsCategory(flat, query, Some(active));
      }
    }
  }

  /** An item named "Tea", and one "Tea" section holding just that item. */
  const TeaItem: Item := Item(None, None, Some(Names(Some("Tea"), None, None)))

  function TeaData(): seq<Section>
  {
    [Section(Some("Tea"), Some([TeaItem]))]
  }

  /** Both flattenings of the tea data give the one item, tagged "Tea". */
  lemma TeaFlat()
    ensures FlatOf(TeaData()) == Some([Tagged(TeaItem, Some("Tea"))])
    ensures Flat(TeaData()) == [Tagged(TeaItem, Some("Tea"))]
  {
    var d := TeaData();
    assert d[1..] == [];
    assert Tag(d[0].items.value, d[0].category) == [Tagged(TeaItem, Some("Tea"))];
  }

  lemma TrimLeadingSpace()
    ensures Trim(" tea") == "tea"
  {
    assert LeadingCount(" tea", IsSpace) == 1;
    assert " tea"[1..] == "tea";
    assert TrailingCount("tea", IsSpace) == 0;
    assert "tea"[..3] == "tea";
  }

  lemma LowerTea()
    ensures Lower(" tea") == " tea" && Lower("tea") == "tea" && Lower("Tea") == "tea"
  {
    LowerOfLowered(" tea");
    LowerOfLowered("tea");
  }

  lemma NormTea()
    ensures Norm("Tea") == "tea" && Norm("tea") == "tea" && Norm("") == "" && Trim("") == ""
  {
    TrimOfTrimmed("Tea");
    TrimOfTrimmed("tea");
    TrimOfTrimmed("");
    LowerTea();
  }

  /** The item's lower-cased name contains "tea" but not " tea". */
  lemma TeaMatches()
    ensures Matches(TeaItem, "tea") && !Matches(TeaItem, " tea")
  {
    LowerTea();
    assert En(TeaItem) == "Tea" && Zh(TeaItem) == "" && Km(TeaItem) == "";
    ContainsTooLong("tea", " tea");
    ContainsTooLong("", " tea");
    assert OccursAt("tea", "tea", 0);
    ContainsOccurs("tea", "tea");
  }

  /** A query with a leading space: the page keeps the space and finds
      nothing, while the catalogue trims it and finds the item. */
  lemma UntrimmedQueryDiffers()
    ensures MenuItems(TeaData(), "All", " tea") == Some([])
    ensures FilterItems(Flat(TeaData()), "All", " tea") == Flat(TeaData())
  {
    var t := Tagged(TeaItem, Some("Tea"));
    TeaFlat();
    TrimLeadingSpace();
    LowerTea();
    TeaMatches();
    assert Trim(" tea") != "";
    assert Norm(" tea") == "tea";
    assert Filter([t], (x: Tagged) => Matches(x.item, " tea")) == [] by {
      assert [t][1..] == [];
    }
    assert Filter([t], (x: Tagged) => Matches(x.item, "tea")) == [t] by {
      assert [t][1..] == [];
    }
  }

  /** A category pressed in another case: the page's exact comparison keeps no
      section, while the catalogue compares trimmed lower case and keeps the item. */
  lemma CategoryCaseDiffers()
    ensures MenuItems(TeaData(), "tea", "") == Some([])
    ensures FilterItems(Flat(TeaData()), "tea", "") == Flat(TeaData())
  {
    PageMissesOtherCase();
    CatalogueFindsOtherCase();
  }

  lemma PageMissesOtherCase()
    ensures MenuItems(TeaData(), "tea", "") == Some([])
  {
    var d := TeaData();
    assert Chosen(d, "tea") == [] by {
      assert d[1..] == [];
    }
    assert Trim("") == "";
  }

  lemma CatalogueFindsOtherCase()
    ensures FilterItems(Flat(TeaData()), "tea", "") == Flat(TeaData())
  {
    var t := Tagged(TeaItem, Some("Tea"));
    TeaFlat();
    NormTea();
    assert InCategory(t, "tea");
    assert Filter([t], (x: Tagged) => InCategory(x, "tea")) == [t] by {
      assert [t][1..] == [];
    }
  }

  /** The page state: the data it was given, the pressed category and the
      text in the search box. */
  class MenuPage {
    const data: seq<Section>
    var active: string
    var query: string

    /** `useState("All")` and `useState("")`. */
    constructor (data: seq<Section>)
      ensures this.data == data && active == "All" && query == ""
    {
      this.data := data;
      active := "All";
      query := "";
    }

    /** `setActive`, as the category bar calls it. */
    method SetActive(c: string)
      modifies this
      ensures active == c && query == old(query)
    {
      active := c;
    }

    /** `setQuery`, as the search box calls it. */
    method SetQuery(q: string)
      modifies this
      ensures query == q && active == old(active)
    {
      query := q;
    }

    /** The item list the page shows for its current state. */
    function Items(): (r: Option<seq<Tagged>>)
      reads this
      ensures active == "All" && Trim(query) == "" ==> r == FlatOf(data)
      ensures r.Some? && active != "All" ==> forall i :: 0 <= i < |r.value| ==> r.value[i].category == Some(active)
    {
      MenuItemsMeaning(data, active, query);
      MenuItems(data, active, query)
    }
  }
}
