# Café site data logic in Dafny

This project models the data logic behind a café's website. The website itself
is a React app for a café with several branches. The model covers:

- **The product catalogue** (`useProducts`). It is built once from the menu file,
  a list of `{ category, items }` sections. It yields:
  - the flat item list, each item tagged with its section's `_category`;
  - the category list, de-duplicated ignoring case, in first-seen order, without
    empty names or "all";
  - the display order, with the priority categories pinned in front;
  - the id/slug index, where the last writer wins;
  - `filterItems`, which filters by category and then searches the en/zh/km names.
- **The contact helpers** (`contactUtils`):
  - `parsePhones` turns a phone field delimited by `/`, `,` or `|` into `tel:` links
    with a country code;
  - `telegramHref` turns a handle into a t.me link;
  - `buildDirectionsUrl` builds a maps directions link;
  - `safeEmbedSrc` cuts a pasted embed snippet at its first `" width=` (or, when
    there is none, at its first space) and strips the quotes around what remains.
- **Category labels** (`categoryI18n`, repeated in `CategoryBar`):
  - the alias table;
  - the normaliser, which collapses runs of non-letters and non-digits to one
    `_` and trims underscores;
  - the three-level translation fallback: normalised key, then raw key, then
    the name itself.
- **The menu page.** This covers its `active` and `query` state and its own,
  older item filter. The filter matches categories exactly and does not trim
  the query.
- **The category bar**: the `["All", ...categories]` buttons, their pressed flag
  and their labels.
- **The gallery page**:
  - slides normalised from the gallery file;
  - the slideshow state (index, direction, loaded flag, playing flag) changed by
    next, previous, the dots, the keyboard and hovering.
- **The branch dialog**: the maps link behind its directions button, and its
  phone list.

Modules:

| module | what it holds |
|---|---|
| `Js` (js.dfy) | optional fields, truthiness, and the `trim`, `toLowerCase`, `startsWith`, `includes` and `indexOf` primitives |
| `Seqs` (seqs.dfy) | `filter`, `map` and subsequences, with their laws |
| `Uri` (uri.dfy) | `encodeURIComponent` and a decoder that is its left inverse |
| `Products` (products.dfy) | the catalogue, including the `Catalog` class |
| `ContactUtils` (contact_utils.dfy) | the contact helpers |
| `CategoryI18n` (category_i18n.dfy) | the category labels |
| `Menu` (menu.dfy) | the menu page: the `MenuPage` class and its filter |
| `CategoryBar` (category_bar.dfy) | the category bar |
| `Gallery` (gallery.dfy) | the gallery page, including the `Slideshow` class |
| `BranchModal` (branch_modal.dfy) | the branch dialog |

How the model is built:

- **The data files are parameters.** The catalogue's constructor takes the
  parsed menu file. The menu page's constructor and the slideshow's constructor
  take their data, and the branch helpers take the branch record.
- **Translation is a map.** The translation function `t(key, fallback)` is a
  `map<string, string>` lookup with a fallback.
- **State that changes is a class.** The source's own loops and state changes
  are a `method` or a `class`:
  - the `CATEGORIES` and `BY_ID` loops are methods with loop invariants, proved
    equal to their specification functions;
  - the menu page state is a class with setters;
  - the slideshow state is a class whose methods state the new state.

  Everything else is a function.

## Model

| member | source | states |
|---|---|---|
| Js.Or | src/components/BranchModal.jsx:18 | the JavaScript or of two optional strings is truthy exactly when one operand is; it is the left operand when that is truthy and the right operand, whatever it is, otherwise |
| Js.IndexOf | src/utils/contactUtils.js:42 | the result is -1 exactly when the needle occurs nowhere; otherwise the needle occurs there and at no earlier offset |
| Js.ContainsOccurs | src/hooks/useProducts.js:55-57 | `includes` holds exactly when the needle occurs at some offset |
| Js.Trim | src/utils/contactUtils.js:6 | `trim` leaves no white space at either end; its window facts are stated by the lemmas after it |
| Js.Lower | src/hooks/useProducts.js:19 | `toLowerCase` keeps the length; Js.LowerIdempotent and Js.LowerConcat state that it is idempotent and distributes over concatenation |
| Js.Contains | src/hooks/useProducts.js:55-57 | `includes` as a recursive test; its meaning, that the needle occurs at some offset, is Js.ContainsOccurs |
| Js.TrimIdempotent | src/hooks/useProducts.js:18 | trimming a trimmed string changes nothing |
| Seqs.FilterIsSubseq | src/hooks/useProducts.js:54-58 | a filter result is an order-preserving subsequence of its input |
| Seqs.FilterCount | src/pages/Menu.jsx:18-22 | a filter keeps every copy of an element that passes and none of one that fails |
| Seqs.FilterPartition | src/hooks/useProducts.js:30-32 | the items passing a test, followed by those failing it, are a permutation of the input |
| Uri.EncodeURIComponent | src/utils/contactUtils.js:35 | an encoded component is at least as long as its input and holds only unreserved characters and `%` |
| Uri.DecodeEncode | src/utils/contactUtils.js:35 | decoding an encoded component gives back the component |
| Uri.EncodeInjective | src/components/BranchModal.jsx:20 | two different components never encode alike |
| Uri.EncodeUnreserved | src/utils/contactUtils.js:35 | a component made of unreserved characters is left unchanged |
| Uri.EncodeConcat | src/utils/contactUtils.js:35 | encoding a concatenation concatenates the encodings |
| Products.Tag | src/hooks/useProducts.js:10 | each item maps to itself tagged with the section category, in order and with the same count |
| Products.Flat | src/hooks/useProducts.js:7-11 | the `flatMap` over the sections; what it holds is stated by Products.FlatAt, Products.FlatFrom, Products.FlatAppend and Products.FlatSkipsMissingItems |
| Products.FlatAt | src/hooks/useProducts.js:7-11 | item k of section j sits in the flat list right after the items of the earlier sections, tagged with section j's category or "" |
| Products.FlatFrom | src/hooks/useProducts.js:7-11 | every flat item is some item of some section, tagged with that section's category or "" |
| Products.FlatAppend | src/hooks/useProducts.js:7 | flattening two runs of sections concatenates their flat lists, so section order is kept |
| Products.FlatSkipsMissingItems | src/hooks/useProducts.js:9 | a section without an items array contributes nothing |
| Products.Categories | src/hooks/useProducts.js:14-25 | the category list; Products.BuildCategories proves the source's loop computes it and Products.CategoriesMeaning states what it holds |
| Products.BuildCategories | src/hooks/useProducts.js:14-25 | the loop with its `seen` set returns exactly the first-seen de-duplication of the trimmed categories |
| Products.DedupDistinct | src/hooks/useProducts.js:17-23 | every kept label comes from the input with a key that is neither empty nor "all", and no two kept labels share a key |
| Products.DedupIsFirsts | src/hooks/useProducts.js:18-22 | de-duplication keeps exactly the first label of every admissible key, in input order |
| Products.CategoriesMeaning | src/hooks/useProducts.js:14-25 | the category list is the first-seen trimmed category per lower-case key; no entry is empty or "all" in any case, and no two entries are equal after trimming and lower-casing |
| Products.DisplayOrder | src/hooks/useProducts.js:27-33 | the pinned categories followed by the rest; Products.DisplayIsPermutation and Products.DisplayPinnedFirst state its properties |
| Products.DisplayIsPermutation | src/hooks/useProducts.js:27-33 | the display order is a permutation of the category list |
| Products.DisplayPinnedFirst | src/hooks/useProducts.js:27-33 | all priority categories come first, all others after, and each group keeps its order |
| Products.IdKey | src/hooks/useProducts.js:39 | `it.id ?? it.slug` for an item with a truthy id or slug; Products.IndexLastWriter states which items end up under it |
| Products.Index | src/hooks/useProducts.js:36-42 | the id/slug index; Products.BuildIndex proves the source's loop computes it and Products.IndexLastWriter states its contents |
| Products.BuildIndex | src/hooks/useProducts.js:36-42 | the loop of `map.set` calls builds exactly the index function of the flat list |
| Products.IndexLastWriter | src/hooks/useProducts.js:36-42 | a key is indexed exactly when an item with a truthy id or slug has it as `id ?? slug`, and it maps to the last such item |
| Products.InCat | src/hooks/useProducts.js:47-49 | the category stage; its meaning is part of Products.FilterItemsMeaning |
| Products.Matches | src/hooks/useProducts.js:54-58 | the name test on en, zh and km; its use is stated by Products.FilterItemsMeaning |
| Products.FilterItems | src/hooks/useProducts.js:46-59 | `filterItems(active, q)`; Products.FilterItemsEverything, Products.FilterItemsSelected and Products.FilterItemsMeaning state what it returns |
| Products.FilterItemsEverything | src/hooks/useProducts.js:49-52 | "All" with an empty or white-space query returns the whole flat list |
| Products.FilterItemsSelected | src/hooks/useProducts.js:46-59 | the two stages are one filter by their conjunction, and the result is an order-preserving subsequence of the flat list |
| Products.FilterItemsMeaning | src/hooks/useProducts.js:46-59 | outside "All" every result has the active category after trim and lower case; with a non-blank query every result matches the normalised query; every item passing both stages is in the result |
| Products.Catalog.constructor | src/hooks/useProducts.js:4-42 | the catalogue is built from its data: the flat list, the categories, the display order and the index |
| Products.Catalog.GetById | src/hooks/useProducts.js:44 | `getById(k)` finds an item exactly when one is indexed under k, and then it is the last such item |
| Products.Catalog.Query | src/hooks/useProducts.js:46-59 | the result is exactly the items that pass both stages, in order and with every copy kept |
| ContactUtils.Split | src/utils/contactUtils.js:5 | splitting yields at least one piece and no piece holds a delimiter |
| ContactUtils.SplitJoin | src/utils/contactUtils.js:5 | splitting undoes joining delimiter-free pieces with any of the three delimiters |
| ContactUtils.Pieces | src/utils/contactUtils.js:4-7 | there are no more pieces than split texts, and none is empty |
| ContactUtils.PiecesShape | src/utils/contactUtils.js:4-7 | every piece is non-empty, has no white space at either end and holds no delimiter |
| ContactUtils.Compact | src/utils/contactUtils.js:9 | the piece with its white space removed; ContactUtils.DigitsOfCompact and ContactUtils.CompactGroups state its properties |
| ContactUtils.E164 | src/utils/contactUtils.js:10-19 | the number to dial, or none for a digit-free piece; its cases are stated by ContactUtils.PhoneHref |
| ContactUtils.ToPhone | src/utils/contactUtils.js:8-21 | an entry keeps its piece as its display and has a `tel:` href |
| ContactUtils.PhoneHref | src/utils/contactUtils.js:9-20 | a compact `+` number is kept verbatim; otherwise a digit-free piece is dropped, a leading 0 gives way to the country code, and any other digit string gets a `+` |
| ContactUtils.DigitsOfCompact | src/utils/contactUtils.js:9-14 | removing white space does not change the digits |
| ContactUtils.DialsDigitsOnly | src/utils/contactUtils.js:14-20 | with the default country code, a piece not written with `+` dials as `tel:+` followed by digits only |
| ContactUtils.LocalNumber | src/utils/contactUtils.js:1-16 | a local number written in digit groups, as in the example of the header comment, dials as the country code followed by its digits after the 0 |
| ContactUtils.PhonesOf | src/utils/contactUtils.js:8-22 | there are no more entries than pieces, and every href starts with `tel:` |
| ContactUtils.PhonesOfPieces | src/utils/contactUtils.js:8-22 | the displays are a subsequence of the pieces, each entry is the one its display yields, and no piece that yields an entry is missed |
| ContactUtils.PhonesOfDisplays | src/utils/contactUtils.js:8-22 | the displays of the entries are exactly the pieces that yield an entry, in order |
| ContactUtils.ParsePhones | src/utils/contactUtils.js:2-23 | an absent or empty field gives no entries, and every href starts with `tel:` |
| ContactUtils.ParsePhonesPieces | src/utils/contactUtils.js:2-23 | a present field's entries have as displays exactly its pieces that yield an entry, in order, and each entry is what its piece yields |
| ContactUtils.StripAt | src/utils/contactUtils.js:29 | one leading "@" is removed and nothing else changes |
| ContactUtils.HasHttpScheme | src/utils/contactUtils.js:28 | the case-insensitive `^https?://` test; ContactUtils.TelegramIsUrl and ContactUtils.ShortHandleHasNoScheme use it |
| ContactUtils.TelegramHref | src/utils/contactUtils.js:26-31 | absent input gives null; an input with an http(s) scheme, in any case, is returned unchanged; any other gives the t.me prefix followed by the input less one leading "@" |
| ContactUtils.TelegramIsUrl | src/utils/contactUtils.js:26-31 | every link built has an http(s) scheme |
| ContactUtils.TelegramIdempotent | src/utils/contactUtils.js:26-31 | applying `telegramHref` to its own result changes nothing |
| ContactUtils.TelegramAtOptional | src/utils/contactUtils.js:29-30 | a handle gives the same t.me link with or without one leading "@" |
| ContactUtils.TelegramExamples | src/utils/contactUtils.js:25-31 | "@mycafe" becomes https://t.me/mycafe, and that link is kept as it is |
| ContactUtils.BuildDirectionsUrl | src/utils/contactUtils.js:33-36 | the link always starts with the fixed directions prefix, followed only by URI-safe characters |
| ContactUtils.DirectionsRoundTrip | src/utils/contactUtils.js:33-36 | a non-blank destination is carried untrimmed and decodes back to the input; an absent or blank one leaves just the prefix |
| ContactUtils.CutAt | src/utils/contactUtils.js:42 | the cut is the first occurrence of `" width=` when there is one; otherwise it is the first space, and -1 when there is no space either |
| ContactUtils.SafeEmbedSrc | src/utils/contactUtils.js:39-45 | absent input gives null; a result that is not empty neither starts nor ends with a quote |
| ContactUtils.EmbedWindow | src/utils/contactUtils.js:41-44 | the result is the window i..j of the trimmed input, inside the part before the cut, with only quotes before i and only quotes from j to the cut |
| ContactUtils.EmbedSrcIsInfix | src/utils/contactUtils.js:41-44 | the result is the part of the trimmed input before the cut, less runs of quotes at either end of it |
| ContactUtils.EmbedSrcNoMarker | src/utils/contactUtils.js:42-44 | the result never contains the `" width=` boundary |
| ContactUtils.EmbedSrcNoSpace | src/utils/contactUtils.js:42-44 | without the boundary the cut is at the first space, so the result has no space |
| ContactUtils.EmbedBareUrl | src/utils/contactUtils.js:39-45 | a bare URL with no space and no quote at either end passes through unchanged |
| CategoryI18n.Collapse | src/utils/categoryI18n.js:23 | each run of non-letters and non-digits becomes one `_`; CategoryI18n.CollapseFacts and CategoryI18n.CollapseKeepsWords state its properties |
| CategoryI18n.Clean | src/utils/categoryI18n.js:22-24 | lower case, collapse, and trim underscores; CategoryI18n.CleanShape, CategoryI18n.CleanEmpty and CategoryI18n.CleanKeepsWords state its properties |
| CategoryI18n.Normalize | src/utils/categoryI18n.js:20-25 | the cleaned name, or the name itself when that is empty; CategoryI18n.NormalizeCases and CategoryI18n.NormalizeIdempotent state its cases |
| CategoryI18n.KeyForCategory | src/utils/categoryI18n.js:27 | the alias table entry, or the normalised name; CategoryI18n.KeyForTableKeys and CategoryI18n.KeyAliases state its cases |
| CategoryI18n.LabelForCategory | src/utils/categoryI18n.js:30-40 | an absent or empty category gives ""; "All" and "__all__" give the translation of `menu.all`; any other gives the normalised-key translation, else the raw-key translation, else the name |
| CategoryI18n.CollapseFacts | src/utils/categoryI18n.js:23 | the collapsed string is empty only for empty input, starts with `_` exactly when the input starts with a separator, holds only input letters and digits and underscores, and has no `__` |
| CategoryI18n.CleanShape | src/utils/categoryI18n.js:22-24 | what the normaliser cleans out has only lower-case letters, digits and `_`, no `_` at either end, and no `__` |
| CategoryI18n.CleanEmpty | src/utils/categoryI18n.js:22-25 | the cleaned string is empty exactly when the input has no letter or digit |
| CategoryI18n.NormalizeCases | src/utils/categoryI18n.js:20-25 | a name without letters or digits (such as "///") is returned unchanged; any other gives a non-empty key-shaped string |
| CategoryI18n.NormalizeIdempotent | src/utils/categoryI18n.js:20-25 | normalising a normalised name gives the same result |
| CategoryI18n.CleanKeepsWords | src/utils/categoryI18n.js:22-24 | the letters and digits of the cleaned key are those of the input, lower-cased, in order |
| CategoryI18n.CollapseConcat | src/utils/categoryI18n.js:23 | collapsing distributes over a split after a letter or digit |
| CategoryI18n.NormalizeWord | src/utils/categoryI18n.js:20-25 | a single word normalises to its lower case |
| CategoryI18n.NormalizeTwoWords | src/utils/categoryI18n.js:20-25 | two words around a "/" normalise to their lower cases joined by `_` |
| CategoryI18n.NormalizeThreeWords | src/utils/categoryI18n.js:20-25 | three words joined by "/" normalise to their lower cases joined by `_` |
| CategoryI18n.KeyForTableKeys | src/utils/categoryI18n.js:27 | a table key with a non-empty value takes that value; the table comes before the normaliser |
| CategoryI18n.KeyAliases | src/utils/categoryI18n.js:4-17 | the three frappe spellings key to "frappe_smoothies", and "COLD" and "Cold" key to "cold" |
| CategoryI18n.SameKeySameLabel | src/utils/categoryI18n.js:34-39 | two names with the same key share a label once that key is translated |
| CategoryI18n.FrappeSpellingsShareLabel | src/utils/categoryI18n.js:10-12 | "FRAPPE/SMOOTHIES" is labelled like "Frappe/Smothies" once the shared key is translated |
| CategoryI18n.SeparatorsKeyOnThemselves | src/utils/categoryI18n.js:25-27 | a name outside the table with no letter or digit is its own key |
| Menu.AllCategories | src/pages/Menu.jsx:9 | every section's category, verbatim and in file order, with the same count |
| Menu.Chosen | src/pages/Menu.jsx:14 | the sections kept by `active`; Menu.ChosenMeaning states which |
| Menu.FlatOf | src/pages/Menu.jsx:15 | the page's own flattening, none when a kept section has no items array; Menu.FlatOfDefined and Menu.FlatOfCategory state its properties |
| Menu.Search | src/pages/Menu.jsx:16-22 | the page's search; Menu.SearchMeaning states what it keeps |
| Menu.MenuItems | src/pages/Menu.jsx:13-23 | the page's item list; Menu.MenuItemsMeaning states what it holds |
| Menu.ChosenMeaning | src/pages/Menu.jsx:14 | "All" keeps every section; otherwise the kept sections, in order, are exactly those whose category equals `active` in that exact spelling, each as often as it occurs in the data |
| Menu.FlatOfDefined | src/pages/Menu.jsx:15 | flattening succeeds exactly when every kept section has an items array |
| Menu.FlatOfCategory | src/pages/Menu.jsx:15 | every flattened item carries its section's category verbatim |
| Menu.FlatOfAgreesWithFlat | src/pages/Menu.jsx:15 | where every section has a category and an items array, the page flattens as the catalogue does |
| Menu.SearchMeaning | src/pages/Menu.jsx:16-22 | a blank query keeps everything; any other keeps, in order, exactly the items whose lower-cased name contains the lower-cased, untrimmed query, each as often as it occurs in the list |
| Menu.SearchKeepsCategory | src/pages/Menu.jsx:18-22 | searching keeps only items of the list, so a category they all share survives it |
| Menu.MenuItemsMeaning | src/pages/Menu.jsx:13-23 | the list exists exactly when every kept section has items; outside "All" every item's category is `active`; a blank query keeps all; any other keeps, in order, exactly the matching items, each as often as it occurs in the flattened list |
| Menu.UntrimmedQueryDiffers | src/pages/Menu.jsx:16-17 | the query " tea" finds nothing on the page, while the catalogue trims it and finds the item named "Tea" |
| Menu.CategoryCaseDiffers | src/pages/Menu.jsx:14 | the category "tea" keeps no "Tea" section on the page, while the catalogue, which ignores case, keeps the item |
| Menu.MenuPage.constructor | src/pages/Menu.jsx:10-11 | the page starts with `active` "All" and an empty query |
| Menu.MenuPage.SetActive | src/pages/Menu.jsx:34 | pressing a category sets `active` and leaves the query alone |
| Menu.MenuPage.SetQuery | src/pages/Menu.jsx:40 | typing sets the query and leaves `active` alone |
| Menu.MenuPage.Items | src/pages/Menu.jsx:13-23 | the initial state shows every item of every section; outside "All" every shown item has the active category |
| CategoryBar.KeyMapsAgree | src/components/CategoryBar.jsx:5-18 | the bar's alias table is the same as the helper module's |
| CategoryBar.BarKey | src/components/CategoryBar.jsx:34 | the bar's key: the alias table entry, or the normalised name; CategoryBar.LabelForAgrees relates it to the helper's key |
| CategoryBar.LabelFor | src/components/CategoryBar.jsx:31-40 | "All" gives the translation of `menu.all`; any other name gives the normalised-key translation, else the raw-key translation, else the name |
| CategoryBar.Buttons | src/components/CategoryBar.jsx:44-56 | one more button than categories, "All" first, the others in order, each pressed exactly when it is the active category and labelled by `labelFor` |
| CategoryBar.OnePressed | src/components/CategoryBar.jsx:49-52 | with distinct names other than "All", at most one button is pressed |
| CategoryBar.LabelForAgrees | src/components/CategoryBar.jsx:31-40 | for a non-empty name other than "__all__", the bar labels it as the shared helper does |
| CategoryBar.AllAliasDiffers | src/components/CategoryBar.jsx:32 | the bar has no "__all__" case: the helper labels it as `menu.all`, the bar leaves it raw |
| CategoryBar.UntranslatedName | src/components/CategoryBar.jsx:38-39 | with no category keys translated, every name but "All" is its own label |
| Gallery.SrcOf | src/pages/GallaryPage.jsx:8 | a string entry itself, else the object's first given `src`, `image`, `url` or `link`, else ""; Gallery.SlideOf uses it |
| Gallery.FirstGiven | src/pages/GallaryPage.jsx:8 | the first truthy field or "": empty exactly when none is given, otherwise the first given one |
| Gallery.QuoteOf | src/pages/GallaryPage.jsx:10 | a quote exactly for an object with a given `quote`, `caption` or `text`, and then the first of them; null otherwise, including for string entries |
| Gallery.AfterLastSlash | src/pages/GallaryPage.jsx:11 | the suffix after the last "/", which has no "/" |
| Gallery.Spaced | src/pages/GallaryPage.jsx:11 | "-" and "_" become spaces and every other character stays |
| Gallery.BeforeDot | src/pages/GallaryPage.jsx:11 | the prefix before the first ".", which has no "." |
| Gallery.FilenameToAlt | src/pages/GallaryPage.jsx:11 | the file name's alt text; Gallery.FilenameToAltShape and Gallery.FilenameToAltPlain state its properties |
| Gallery.FilenameToAltShape | src/pages/GallaryPage.jsx:11 | the alt text has no "/", "-", "_" or "."; it is the start of the last segment, or of "image", with dashes and underscores made spaces |
| Gallery.FilenameToAltPlain | src/pages/GallaryPage.jsx:11 | a plain file name without "/", ".", "-" or "_" is its own alt text |
| Gallery.SlideOf | src/pages/GallaryPage.jsx:21-28 | an entry gives a slide exactly when its source is not empty, with that source and its quote |
| Gallery.SlideAlt | src/pages/GallaryPage.jsx:27 | the alt is the object's `alt`, else its `title`, else the one made from the file name |
| Gallery.SlidesOf | src/pages/GallaryPage.jsx:20-30 | the slides of an entry array; Gallery.SlidesAreSourcedEntries and Gallery.SlidesHaveSources state its properties |
| Gallery.Slides | src/pages/GallaryPage.jsx:18-31 | a gallery value that is not an array gives no slides; Gallery.SlidesOf covers the array case |
| Gallery.SlidesAreSourcedEntries | src/pages/GallaryPage.jsx:18-31 | the slides are exactly the entries with a non-empty source, in input order |
| Gallery.SlidesHaveSources | src/pages/GallaryPage.jsx:18-31 | no slide has an empty source, and there are no more slides than entries |
| Gallery.JsRem | src/pages/GallaryPage.jsx:82 | JavaScript's `%` takes the sign of the dividend and agrees with the Euclidean remainder on non-negative ones |
| Gallery.NextIndex | src/pages/GallaryPage.jsx:82 | the next index stays in range |
| Gallery.PrevIndex | src/pages/GallaryPage.jsx:89 | the previous index stays in range |
| Gallery.StepCases | src/pages/GallaryPage.jsx:78-90 | next moves forward one and wraps from last to first; previous moves back one and wraps from first to last |
| Gallery.StepsInverse | src/pages/GallaryPage.jsx:78-90 | previous undoes next and next undoes previous |
| Gallery.Advance | src/pages/GallaryPage.jsx:78-83 | the index after k presses of next stays in range; Gallery.AdvanceIsShift states where it lands |
| Gallery.AdvanceIsShift | src/pages/GallaryPage.jsx:78-83 | k presses of next move k slides forward, wrapping around |
| Gallery.Slideshow.constructor | src/pages/GallaryPage.jsx:33-36 | the show starts at index 0, direction 1, playing, image not loaded |
| Gallery.Slideshow.Current | src/pages/GallaryPage.jsx:120 | the current slide is one of the slides |
| Gallery.Slideshow.GoNext | src/pages/GallaryPage.jsx:78-83 | without slides nothing changes; otherwise the index moves to the next one, the direction becomes 1 and the image is not loaded |
| Gallery.Slideshow.GoPrev | src/pages/GallaryPage.jsx:85-90 | without slides nothing changes; otherwise the index moves to the previous one, the direction becomes -1 and the image is not loaded |
| Gallery.Slideshow.DotClick | src/pages/GallaryPage.jsx:249-253 | dot i selects slide i, the direction is 1 when i is past the current index and -1 otherwise, and the image is not loaded |
| Gallery.Slideshow.TogglePlaying | src/pages/GallaryPage.jsx:68-71 | the space bar flips the playing flag when there are slides |
| Gallery.Slideshow.OnKey | src/pages/GallaryPage.jsx:63-76 | arrow right has exactly the effect of next and arrow left of previous; the space bar flips playing and changes nothing else; any other key, or no slides, changes nothing |
| Gallery.Slideshow.MouseEnter | src/pages/GallaryPage.jsx:140-143 | hovering pauses the show and changes nothing else |
| Gallery.Slideshow.MouseLeave | src/pages/GallaryPage.jsx:144-147 | leaving resumes the show and changes nothing else |
| Gallery.Slideshow.ImageLoaded | src/pages/GallaryPage.jsx:175 | a loaded image sets the loaded flag and changes nothing else |
| BranchModal.MapUrl | src/components/BranchModal.jsx:15 | `branch.map?.url`; BranchModal.ResolveMapsHref states how it is used |
| BranchModal.SearchQuery | src/components/BranchModal.jsx:18 | the search text is given exactly when the directions text, the address or the name is |
| BranchModal.ResolveMapsHref | src/components/BranchModal.jsx:12-22 | no branch gives null; a truthy map URL is returned verbatim; otherwise there is a link exactly when a search text is given, and it is the search prefix followed by URI-safe characters |
| BranchModal.SearchLinkCarriesQuery | src/components/BranchModal.jsx:18-20 | the built link decodes, after its prefix, to the first given of the directions text, the address and the name |
| BranchModal.BranchPhones | src/components/BranchModal.jsx:46 | a missing branch or phone gives no entries; every href is a `tel:` link; the displays are exactly the phone field's pieces that yield an entry, in order, and each entry is the one its piece yields |

## Left out

- Lower case and `\p{L}` / `\p{N}` are modelled on ASCII only. `toLowerCase` maps `A`-`Z` and leaves every other character alone. The normaliser's letters and digits are the ASCII ones, so the model treats accented and non-Latin letters as separators.
- `trim` and `\s` use the ECMAScript white-space and line-terminator set.
- The decoder in `Uri` is not code of the site. It is the partner used to state what `encodeURIComponent` preserves. A Dafny `char` is a Unicode scalar value, so the model's strings cannot hold a lone surrogate. The case where the real `encodeURIComponent` throws on one (a `URIError`) is therefore not modelled.
- JSON values:
  - An `id` or `slug` is null, a boolean, an integer or a string. Floating-point ids are not modelled.
  - Category, name and phone fields are optional strings. Values of another JSON type in those places (a number as a category, say) are not modelled.
  - A section or item that is itself `null` is not modelled either: sections and items are records.
- The alias table: keys it inherits from `Object.prototype` (such as "constructor") are not modelled. The table is a finite map with just its twelve keys.
- Menu.MenuItems: where `d.items.map` throws on a section without an items array, the model returns `None`. The exception is not modelled further.
- CategoryBar: a category prop holding `undefined` is not modelled. The bar takes a list of strings.
- The gallery's timers and gestures are left out, because they depend on time and on framer-motion's float drag velocities. This covers:
  - the auto-advance interval and its `playing` guard;
  - image preloading;
  - the swipe thresholds.
- `hoverPauseRef` is left out: it is written and never read.
- Rendering, animation variants, class strings and the progress bar are left out. So are focus and scroll effects, and the `window.open` call behind the directions button, which is I/O.
- ContactUtils.E164: the source's "855" branch gives the same result as the final `else`. The model keeps both branches as written.
- ContactUtils.LocalNumber: the header comment's example "077 636 190" is stated for any grouping of digit strings that starts with 0, rather than for that one string.
- ContactUtils.SafeEmbedSrc: `String(raw)` on a value that is not a string is not modelled. A whole `<iframe ...>` tag keeps its `<iframe src="` prefix, because the cut keeps everything before `" width=`. The function keeps only what precedes the cut, less its surrounding quotes.
- CategoryI18n.SeparatorsKeyOnThemselves: the "///" case is stated for every name without letters or digits that is not a table key.
- CategoryI18n.KeyForTableKeys requires a non-empty table value, because `KEY_MAP[cat] || ...` falls through on an empty one. All twelve values are non-empty.
- Products.FilterItems: the source's default arguments are not modelled as such. A call `filterItems()` is `FilterItems(flat, "All", "")`. The query is a string, so the `(q || "")` guard against a null or undefined query is not modelled.
- The data files (products, gallery, branches, contact settings) are parameters, not imports.
