/** The data side of the branch dialog of src/components/BranchModal.jsx: the
    maps link behind its directions button and the phone list it shows. */
module BranchModal {

  import opened Js
  import opened Seqs
  import opened Uri
  import ContactUtils

  /** `branch.map`: an explicit link and a search text for directions. */
  datatype MapInfo = MapInfo(url: Option<string>, directionsQuery: Option<string>)

  /** The fields of a branch the dialog reads. */
  datatype Branch = Branch(mapInfo: Option<MapInfo>, address: Option<string>, name: Option<string>,
                           phone: Option<string>)

  const SearchPrefix: string := "https://www.google.com/maps/search/?api=1&query="

  /** `branch.map?.url`. */
  function MapUrl(b: Branch): Option<string>
  {
    if b.mapInfo.Some? then b.mapInfo.value.url else None
  }

  /** `branch.map?.directionsQuery || branch.address || branch.name`. */
  function SearchQuery(b: Branch): (r: Option<string>)
    ensures Given(r) <==> (b.mapInfo.Some? && Given(b.mapInfo.value.directionsQuery)) || Given(b.address) || Given(b.name)
  {
    Or(Or(if b.mapInfo.Some? then b.mapInfo.value.directionsQuery else None, b.address), b.name)
  }

  /** `resolveMapsHref(branch)`. */
  function ResolveMapsHref(branch: Option<Branch>): (r: Option<string>)
    ensures branch.None? ==> r.None?
    ensures branch.Some? && Given(MapUrl(branch.value)) ==> r == MapUrl(branch.value)
    ensures branch.Some? && !Given(MapUrl(branch.value)) ==>
              (r.Some? <==> Given(SearchQuery(branch.value)))
    ensures branch.Some? && !Given(MapUrl(branch.value)) && r.Some? ==>
              && StartsWith(r.value, SearchPrefix)
              && forall k :: |SearchPrefix| <= k < |r.value| ==> UriSafe(r.value[k])
  {
    if branch.None? then None
    else
      var b := branch.value;
      if Given(MapUrl(b)) then MapUrl(b)
      else
        var q := SearchQuery(b);
        if Given(q) then Some(SearchPrefix + EncodeURIComponent(q.value)) else None
  }

  /** A built search link carries, after its fixed prefix, exactly the first
      of the branch's directions text, address and name that is given. */
  lemma SearchLinkCarriesQuery(b: Branch)
    requires !Given(MapUrl(b)) && Given(SearchQuery(b))
    ensures var r := ResolveMapsHref(Some(b)).value;
            Decode(r[|SearchPrefix|..]) == Some(SearchQuery(b).value)
    ensures b.mapInfo.Some? && Given(b.mapInfo.value.directionsQuery) ==> SearchQuery(b) == b.mapInfo.value.directionsQuery
    ensures !(b.mapInfo.Some? && Given(b.mapInfo.value.directionsQuery)) && Given(b.address) ==> SearchQuery(b) == b.address
    ensures !(b.mapInfo.Some? && Given(b.mapInfo.value.directionsQuery)) && !Given(b.address) ==> SearchQuery(b) == b.name
  {
    var q := SearchQuery(b).value;
    DecodeEncode(q);
    var r := ResolveMapsHref(Some(b)).value;
    assert r[|SearchPrefix|..] == EncodeURIComponent(q);
  }

  /** `parsePhones(branch?.phone)`, with the default country code. */
  function BranchPhones(branch: Option<Branch>): (r: seq<ContactUtils.Phone>)
    ensures (branch.None? || !Given(branch.value.phone)) ==> r == []
    ensures forall i :: 0 <= i < |r| ==> StartsWith(r[i].href, "tel:")
    ensures branch.Some? && Given(branch.value.phone) ==>
              IsSubseq(Map(r, ContactUtils.DisplayOf), ContactUtils.Pieces(branch.value.phone.value))
    ensures branch.Some? && Given(branch.value.phone) ==>
              forall i :: 0 <= i < |r| ==> ContactUtils.ToPhone(r[i].display, ContactUtils.CountryCode) == Some(r[i])
    ensures branch.Some? && Given(branch.value.phone) ==>
              Map(r, ContactUtils.DisplayOf)
                == Filter(ContactUtils.Pieces(branch.value.phone.value), ContactUtils.Dials(ContactUtils.CountryCode))
  {
    var raw := if branch.Some? then branch.value.phone else None;
    if Given(raw) then
      ContactUtils.ParsePhonesPieces(raw.value, ContactUtils.CountryCode);
      ContactUtils.ParsePhones(raw, ContactUtils.CountryCode)
    else
      ContactUtils.ParsePhones(raw, ContactUtils.CountryCode)
  }
}
