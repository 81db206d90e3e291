/** The category bar of src/components/CategoryBar.jsx: one button per entry of
    `["All", ...categories]`, pressed when it is the active category and
    labelled through the translation resource. The bar carries its own copy of
    the alias table and of `normalize`; the copy of `normalize` is the same
    text as the one in src/utils/categoryI18n.js, so the model reuses
    `CategoryI18n.Normalize`, and the table is proved equal to its twin. */
module CategoryBar {

  import opened Js
  import opened Seqs
  import CategoryI18n

  /** The bar's `KEY_MAP`. */
  const KeyMap: map<string, string> := map[
    "Signature" := "signature",
    "Premium" := "premium",
    "Hot" := "hot",
    "Cold" := "cold",
    "COLD" := "cold",
    "Frappe/Smothies" := "frappe_smoothies",
    "Frappe/Smoothies" := "frappe_smoothies",
    "FRAPPE/SMOOTHIES" := "frappe_smoothies",
    "Tea/Passion/Soda" := "tea_passion_soda",
    "TEA/PASSION/SODA" := "tea_passion_soda",
    "Food" := "food",
    "FOOD" := "food"
  ]

  /** The bar's table is the same table as the one of the category helpers. */
  lemma KeyMapsAgree()
    ensures KeyMap == CategoryI18n.KeyMap
  {
    assert KeyMap.Keys == CategoryI18n.KeyMap.Keys;
  }

  /** `KEY_MAP[cat] || normalize(cat)`. */
  function BarKey(cat: string): string
  {
    if cat in KeyMap && KeyMap[cat] != "" then KeyMap[cat] else CategoryI18n.Normalize(cat)
  }

  /** `labelFor(cat)`: "All" is the translation of `menu.all`; any other name
      tries the key of its alias or normalised form, then its raw name, and
      falls back to the name itself. */
  function LabelFor(tr: CategoryI18n.Translations, cat: string): (r: string)
    ensures cat == "All" ==> r == (if "menu.all" in tr then tr["menu.all"] else "All")
    ensures cat != "All" ==>
              var normKey := "menu.categories." + BarKey(cat);
              var rawKey := "menu.categories." + cat;
              && (normKey in tr ==> r == tr[normKey])
              && (normKey !in tr && rawKey in tr ==> r == tr[rawKey])
              && (normKey !in tr && rawKey !in tr ==> r == cat)
  {
    if cat == "All" then CategoryI18n.T(tr, "menu.all", "All")
    else CategoryI18n.T(tr, "menu.categories." + BarKey(cat), CategoryI18n.T(tr, "menu.categories." + cat, cat))
  }

  /** A rendered button: the category it selects, its label and `aria-pressed`. */
  datatype Button = Button(cat: string, caption: string, pressed: bool)

  /** `["All", ...categories].map(cat => <button ...>)`. */
  function Buttons(tr: CategoryI18n.Translations, categories: seq<string>, active: string): (r: seq<Button>)
    ensures |r| == |categories| + 1
    ensures r[0].cat == "All"
    ensures forall i :: 0 <= i < |categories| ==> r[i + 1].cat == categories[i]
    ensures forall i :: 0 <= i < |r| ==> (r[i].pressed <==> r[i].cat == active)
    ensures forall i :: 0 <= i < |r| ==> r[i].caption == LabelFor(tr, r[i].cat)
  {
    var cats := ["All"] + categories;
    assert forall i :: 0 <= i < |categories| ==> cats[i + 1] == categories[i];
    Map(cats, (c: string) => Button(c, LabelFor(tr, c), active == c))
  }

  /** With distinct category names other than "All", at most one button is
      pressed, and the one for the active category is. */
  lemma OnePressed(tr: CategoryI18n.Translations, categories: seq<string>, active: string)
    requires forall i, j :: 0 <= i < j < |categories| ==> categories[i] != categories[j]
    requires "All" !in categories
    ensures var r := Buttons(tr, categories, active);
            forall i, j :: 0 <= i < |r| && 0 <= j < |r| && r[i].pressed && r[j].pressed ==> i == j
  {
    var r := Buttons(tr, categories, active);
    forall k | 1 <= k < |r| ensures r[k].cat != "All" {
      assert r[k].cat == categories[k - 1];
    }
    forall i, j | 0 <= i < |r| && 0 <= j < |r| && r[i].pressed && r[j].pressed ensures i == j {
      if i != 0 && j != 0 {
        assert r[i].cat == categories[i - 1] && r[j].cat == categories[j - 1];
      }
    }
  }

  /** For a non-empty name other than "__all__", the bar labels a category
      exactly as the shared helper does. */
  lemma LabelForAgrees(tr: CategoryI18n.Translations, cat: string)
    requires cat != "" && cat != "__all__"
    ensures LabelFor(tr, cat) == CategoryI18n.LabelForCategory(tr, Some(cat))
  {
    KeyMapsAgree();
    assert BarKey(cat) == CategoryI18n.KeyForCategory(cat);
  }

  /** The bar has no "__all__" case: with only `menu.all` translated, the
      helper labels "__all__" with that translation, the bar with the raw name. */
  lemma AllAliasDiffers()
    ensures var tr := map["menu.all" := "All"];
            LabelFor(tr, "__all__") == "__all__"
            && CategoryI18n.LabelForCategory(tr, Some("__all__")) == "All"
  {
    UntranslatedName(map["menu.all" := "All"], "__all__");
  }

  /** A resource with no category keys at all leaves every name but "All" as it is. */
  lemma UntranslatedName(tr: CategoryI18n.Translations, cat: string)
    requires forall k :: k in tr ==> |k| < |"menu.categories."|
    requires cat != "All"
    ensures LabelFor(tr, cat) == cat
  {
    assert "menu.categories." + BarKey(cat) !in tr;
    assert "menu.categories." + cat !in tr;
  }
}
