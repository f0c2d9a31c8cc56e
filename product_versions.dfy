/**
 * `app/api/getProductVersions/route.ts`, the handler `GET`: validate the
 * product, read its catalog, collect one entry per retained `<metadata>`
 * block and sort them newest first.
 */
module ProductVersions {
  import opened Wrappers
  import opened Text
  import opened VersionEntries
  import opened VersionOrder

  /** The catalog file of each known product (the `products` table, lines 12-20). */
  function CatalogFile(productId: string): Option<string> {
    if productId == "ws-windows" then Some("ws-windows.xml")
    else if productId == "ws-linux" then Some("ws-linux.xml")
    else if productId == "fusion-universal" then Some("fusion-universal.xml")
    else if productId == "fusion-arm64" then Some("fusion-arm64.xml")
    else if productId == "fusion-intel" then Some("fusion.xml")
    else if productId == "player-linux" then Some("player-linux.xml")
    else if productId == "player-windows" then Some("player-windows.xml")
    else None
  }

  /** The upstream answer to the catalog request: a failure status, or the body's text. */
  datatype CatalogFetch = CatalogStatus(status: int) | CatalogText(text: string)

  datatype Failure =
    | MissingProductId            // 400, line 41
    | UnknownProduct              // 404, line 46
    | UpstreamStatus(status: int) // the upstream status, line 52
    | MalformedCatalog            // 500, line 56

  /**
   * `GET` after the query parameter is read. `Ok([])` stands for the
   * status-200 answer of line 124 (an empty `entries` list with a message);
   * otherwise `Ok` holds the catalog's entries reordered by the comparator.
   */
  method ListVersions(productId: Option<string>, fetch: string -> CatalogFetch)
    returns (r: Result<seq<VersionEntry>, Failure>)
    ensures !Truthy(productId) ==> r == Err(MissingProductId)
    ensures Truthy(productId) && CatalogFile(productId.value).None? ==> r == Err(UnknownProduct)
    ensures Truthy(productId) && CatalogFile(productId.value).Some? ==>
      match fetch(CatalogFile(productId.value).value)
      case CatalogStatus(status) => r == Err(UpstreamStatus(status))
      case CatalogText(text) =>
        if MalformedXml(text) then r == Err(MalformedCatalog)
        else
          && r.Ok?
          && multiset(r.value) == multiset(CatalogEntries(text, productId.value))
          && AdjacentSorted(r.value)
          && (NumericBuilds(r.value) ==> Sorted(r.value))
  {
    if !Truthy(productId) {
      return Err(MissingProductId);
    }
    var id := productId.value;
    var xmlFile := CatalogFile(id);
    if xmlFile.None? {
      return Err(UnknownProduct);
    }
    var mainXmlResponse := fetch(xmlFile.value);
    if mainXmlResponse.CatalogStatus? {
      return Err(UpstreamStatus(mainXmlResponse.status));
    }
    var mainXmlText := mainXmlResponse.text;
    if MalformedXml(mainXmlText) {
      return Err(MalformedCatalog);
    }
    var availableEntries := CollectEntries(mainXmlText, id);
    if |availableEntries| == 0 {
      return Ok([]);
    }
    var a := new VersionEntry[|availableEntries|](k requires 0 <= k < |availableEntries| => availableEntries[k]);
    assert a[..] == availableEntries;
    SortEntries(a);
    return Ok(a[..]);
  }

  /** The listing is empty exactly when the catalog has no retained entry, and it has as many entries as the catalog. */
  lemma ListingSize(text: string, productId: string, listing: seq<VersionEntry>)
    requires multiset(listing) == multiset(CatalogEntries(text, productId))
    ensures |listing| == |CatalogEntries(text, productId)|
    ensures listing == [] <==> CatalogEntries(text, productId) == []
    ensures forall e :: e in listing <==> e in CatalogEntries(text, productId)
  {
    assert |multiset(listing)| == |listing|;
    assert |multiset(CatalogEntries(text, productId))| == |CatalogEntries(text, productId)|;
    forall e
      ensures e in listing <==> e in CatalogEntries(text, productId)
    {
      assert e in listing <==> e in multiset(listing);
      assert e in CatalogEntries(text, productId) <==> e in multiset(CatalogEntries(text, productId));
    }
  }
}
