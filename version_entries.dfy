/**
 * The catalog half of `app/api/getProductVersions/route.ts`: every
 * `<metadata>` block of the product catalog, through the first `<url>` in it,
 * becomes at most one version entry (lines 59-121).
 */
module VersionEntries {
  import opened Wrappers
  import opened Text
  import opened XmlScan

  /** `VersionMetaEntry`: one selectable bulletin of a product. */
  datatype VersionEntry = VersionEntry(
    idForClientSelection: string,
    displayVersion: string,
    gzFilePath: string,
    version: string,
    build: string,
    platformOrArch: string,
    entryType: string)

  /** The captured contents of `/<metadata>([\s\S]*?)<\/metadata>/g`. */
  function MetadataBlocks(catalog: string): seq<string> {
    Blocks(catalog, "<metadata>", "</metadata>")
  }

  /** The captured text of the first `<url>([^<]+)<\/url>` in a metadata block. */
  function UrlText(block: string): Option<string> {
    MatchedText(block, Element("url", false))
  }

  predicate IsLowerAscii(c: char) {
    'a' <= c <= 'z'
  }

  /** `toUpperCase` on one character, for the ASCII letters. */
  function UpperAscii(c: char): char {
    if IsLowerAscii(c) then (c as int - 32) as char else c
  }

  /** `s.charAt(0).toUpperCase() + s.slice(1)`: only the first character changes. */
  function Capitalize(s: string): (r: string)
    ensures |r| == |s|
    ensures s != [] ==> r[1..] == s[1..] && !IsLowerAscii(r[0])
    ensures s != [] && !IsLowerAscii(s[0]) ==> r == s
    ensures s != [] && IsLowerAscii(s[0]) ==> 'A' <= r[0] <= 'Z' && r[0] as int - 'A' as int == s[0] as int - 'a' as int
  {
    if s == [] then [] else [UpperAscii(s[0])] + s[1..]
  }

  /** The label shown in the version list. */
  function DisplayLabel(version: string, build: string, platform: string, kind: string): string {
    version + " (Build " + build + ") - " + platform + " - " + kind
  }

  /** The architecture of a macOS product, read from its product id (lines 104-108). */
  function FusionArch(productId: string): string {
    if productId == "fusion-universal" then "Universal"
    else if productId == "fusion-arm64" then "ARM64"
    else if productId == "fusion-intel" then "Intel"
    else if productId == "fusion" then "Intel"
    else "UnknownArch"
  }

  /**
   * The `productId === 'fusion'` clause never decides anything: it is only
   * consulted for ids that start with `fusion-`, and "fusion" does not.
   */
  lemma FusionLegacyClauseUnreachable(productId: string)
    requires "fusion-" <= productId
    ensures FusionArch(productId) == "Intel" <==> productId == "fusion-intel"
    ensures FusionArch(productId) in {"Universal", "ARM64", "Intel", "UnknownArch"}
  {
    assert |productId| >= 7;
  }

  /**
   * What every entry of the version list satisfies: its fields are segments of
   * its own path, its id is that path, and its label is built from its fields.
   * A path of six or more segments reads the platform from segment 3; a path
   * of five, accepted only for `fusion-` products, takes it from the product id.
   */
  ghost predicate WellFormed(e: VersionEntry, productId: string) {
    var parts := Split(e.gzFilePath, '/');
    if |parts| >= 6 then WideFields(e, parts)
    else |parts| == 5 && "fusion-" <= productId && FusionFields(e, parts, productId)
  }

  ghost predicate WideFields(e: VersionEntry, parts: seq<string>)
    requires |parts| >= 6
  {
    && e.idForClientSelection == e.gzFilePath
    && e.version == parts[1]
    && e.build == parts[2]
    && e.platformOrArch == parts[3]
    && e.entryType == parts[|parts| - 2]
    && e.displayVersion == DisplayLabel(e.version, e.build, Capitalize(e.platformOrArch), Capitalize(e.entryType))
  }

  ghost predicate FusionFields(e: VersionEntry, parts: seq<string>, productId: string)
    requires |parts| == 5
  {
    && e.idForClientSelection == e.gzFilePath
    && e.version == parts[1]
    && e.build == parts[2]
    && e.platformOrArch == FusionArch(productId)
    && e.entryType == parts[3]
    && e.displayVersion == DisplayLabel(e.version, e.build, "macOS " + e.platformOrArch, Capitalize(e.entryType))
  }

  /** Classifies a retained path by its number of `/`-segments (lines 72-119). */
  function Classify(gzFilePath: string, productId: string): Option<VersionEntry> {
    var parts := Split(gzFilePath, '/');
    if |parts| >= 6 then Some(WideEntry(gzFilePath, parts))
    else if |parts| == 5 && "fusion-" <= productId then Some(FusionEntry(gzFilePath, parts, productId))
    else None
  }

  /**
   * A path is kept exactly when it has six or more segments, or five for a
   * `fusion-` product, and the entry it gives is well formed with that path.
   */
  lemma ClassifySpec(gzFilePath: string, productId: string)
    ensures var r := Classify(gzFilePath, productId);
      && (r.Some? <==> |Split(gzFilePath, '/')| >= 6 || (|Split(gzFilePath, '/')| == 5 && "fusion-" <= productId))
      && (r.Some? ==> r.value.gzFilePath == gzFilePath && WellFormed(r.value, productId))
  {
    var parts := Split(gzFilePath, '/');
    if |parts| >= 6 {
      WideEntryWellFormed(gzFilePath, productId);
    } else if |parts| == 5 && "fusion-" <= productId {
      FusionEntryWellFormed(gzFilePath, productId);
    }
  }

  /** The entry of a path with six or more segments (lines 75-92). */
  function WideEntry(gzFilePath: string, parts: seq<string>): VersionEntry
    requires |parts| >= 6
  {
    var version, build, platformOrArch, kind := parts[1], parts[2], parts[3], parts[|parts| - 2];
    VersionEntry(gzFilePath, DisplayLabel(version, build, Capitalize(platformOrArch), Capitalize(kind)),
                 gzFilePath, version, build, platformOrArch, kind)
  }

  /** The entry of a five-segment path of a `fusion-` product (lines 93-118). */
  function FusionEntry(gzFilePath: string, parts: seq<string>, productId: string): VersionEntry
    requires |parts| == 5
  {
    var version, build, kind := parts[1], parts[2], parts[|parts| - 2];
    var fusionArch := FusionArch(productId);
    VersionEntry(gzFilePath, DisplayLabel(version, build, "macOS " + fusionArch, Capitalize(kind)),
                 gzFilePath, version, build, fusionArch, kind)
  }

  lemma WideEntryWellFormed(gzFilePath: string, productId: string)
    requires |Split(gzFilePath, '/')| >= 6
    ensures WideEntry(gzFilePath, Split(gzFilePath, '/')).gzFilePath == gzFilePath
    ensures WellFormed(WideEntry(gzFilePath, Split(gzFilePath, '/')), productId)
  {
    var parts := Split(gzFilePath, '/');
    assert WideFields(WideEntry(gzFilePath, parts), parts);
  }

  lemma FusionEntryWellFormed(gzFilePath: string, productId: string)
    requires |Split(gzFilePath, '/')| == 5 && "fusion-" <= productId
    ensures FusionEntry(gzFilePath, Split(gzFilePath, '/'), productId).gzFilePath == gzFilePath
    ensures WellFormed(FusionEntry(gzFilePath, Split(gzFilePath, '/'), productId), productId)
  {
    var parts := Split(gzFilePath, '/');
    assert FusionFields(FusionEntry(gzFilePath, parts, productId), parts, productId);
  }

  /** The entry one metadata block contributes, if any (one iteration of lines 62-121). */
  function EntryOf(block: string, productId: string): Option<VersionEntry> {
    match UrlText(block)
    case None => None
    case Some(raw) =>
      var gzFilePath := Trim(raw);
      if Contains(gzFilePath, "info-only") then None else Classify(gzFilePath, productId)
  }

  /**
   * A block yields an entry exactly when it has a url whose trimmed text does
   * not contain `info-only` and has an accepted number of segments; that
   * trimmed text is the entry's path, and the entry is well formed.
   */
  lemma EntryOfSpec(block: string, productId: string)
    ensures var r := EntryOf(block, productId);
      && (r.Some? ==> UrlText(block).Some? && r.value.gzFilePath == Trim(UrlText(block).value))
      && (r.Some? ==> !Contains(r.value.gzFilePath, "info-only") && WellFormed(r.value, productId))
      && (r.Some? <==>
        && UrlText(block).Some?
        && !Contains(Trim(UrlText(block).value), "info-only")
        && var parts := Split(Trim(UrlText(block).value), '/');
           |parts| >= 6 || (|parts| == 5 && "fusion-" <= productId))
  {
    if UrlText(block).Some? {
      ClassifySpec(Trim(UrlText(block).value), productId);
    }
  }

  /** The entries of a sequence of metadata blocks, in block order. */
  function EntriesOf(blocks: seq<string>, productId: string): seq<VersionEntry>
    decreases |blocks|
  {
    if blocks == [] then []
    else
      var last := blocks[|blocks| - 1];
      EntriesOf(blocks[..|blocks| - 1], productId)
        + (match EntryOf(last, productId) case Some(e) => [e] case None => [])
  }

  /** The unsorted entry list the loop of lines 59-121 builds. */
  function CatalogEntries(catalog: string, productId: string): seq<VersionEntry> {
    EntriesOf(MetadataBlocks(catalog), productId)
  }

  /** Each metadata block contributes at most one entry. */
  lemma {:induction false} EntriesOfBound(blocks: seq<string>, productId: string)
    ensures |EntriesOf(blocks, productId)| <= |blocks|
    decreases |blocks|
  {
    if blocks != [] {
      EntriesOfBound(blocks[..|blocks| - 1], productId);
    }
  }

  /** Every entry comes from one of the blocks, through that block's first url. */
  lemma {:induction false} EntriesOfProvenance(blocks: seq<string>, productId: string)
    ensures forall e :: e in EntriesOf(blocks, productId) ==>
      exists b :: b in blocks && EntryOf(b, productId) == Some(e)
    decreases |blocks|
  {
    if blocks != [] {
      var init := blocks[..|blocks| - 1];
      EntriesOfProvenance(init, productId);
      forall e | e in EntriesOf(blocks, productId)
        ensures exists b :: b in blocks && EntryOf(b, productId) == Some(e)
      {
        if e in EntriesOf(init, productId) {
          var b :| b in init && EntryOf(b, productId) == Some(e);
          assert b in blocks;
        } else {
          assert EntryOf(blocks[|blocks| - 1], productId) == Some(e);
        }
      }
    }
  }

  /**
   * The catalog's entry list: at most one entry per metadata block, every entry
   * well formed, with the trimmed text of its block's first url as its path,
   * and none whose path contains `info-only`.
   */
  lemma CatalogEntriesProperties(catalog: string, productId: string)
    ensures |CatalogEntries(catalog, productId)| <= |MetadataBlocks(catalog)|
    ensures forall e :: e in CatalogEntries(catalog, productId) ==>
      && WellFormed(e, productId)
      && !Contains(e.gzFilePath, "info-only")
      && exists b :: b in MetadataBlocks(catalog) && UrlText(b).Some? && e.gzFilePath == Trim(UrlText(b).value)
  {
    var blocks := MetadataBlocks(catalog);
    EntriesOfBound(blocks, productId);
    EntriesOfProvenance(blocks, productId);
    forall e | e in CatalogEntries(catalog, productId)
      ensures && WellFormed(e, productId)
              && !Contains(e.gzFilePath, "info-only")
              && exists b :: b in blocks && UrlText(b).Some? && e.gzFilePath == Trim(UrlText(b).value)
    {
      var b :| b in blocks && EntryOf(b, productId) == Some(e);
      EntryOfSpec(b, productId);
    }
  }

  /** One more block adds that block's entry, if any, at the end. */
  lemma EntriesOfStep(blocks: seq<string>, i: nat, productId: string)
    requires i < |blocks|
    ensures EntriesOf(blocks[..i + 1], productId)
      == EntriesOf(blocks[..i], productId) + (match EntryOf(blocks[i], productId) case Some(e) => [e] case None => [])
  {
    assert blocks[..i + 1][..i] == blocks[..i];
  }

  /** The loop of lines 59-121, pushing one entry per retained metadata block. */
  method CollectEntries(catalog: string, productId: string) returns (entries: seq<VersionEntry>)
    ensures entries == CatalogEntries(catalog, productId)
  {
    entries := [];
    var metaMatches := MetadataBlocks(catalog);
    var i := 0;
    while i < |metaMatches|
      invariant 0 <= i <= |metaMatches|
      invariant entries == EntriesOf(metaMatches[..i], productId)
    {
      var entry := ExtractEntry(metaMatches[i], productId);
      EntriesOfStep(metaMatches, i, productId);
      if entry.Some? {
        entries := entries + [entry.value];
      }
      i := i + 1;
    }
    assert metaMatches[..i] == metaMatches;
  }

  /** The body of the loop of lines 59-121: the entry of one metadata block, if it is retained. */
  method ExtractEntry(metadataContent: string, productId: string) returns (r: Option<VersionEntry>)
    ensures r == EntryOf(metadataContent, productId)
    ensures r.Some? <==>
      && UrlText(metadataContent).Some?
      && !Contains(Trim(UrlText(metadataContent).value), "info-only")
      && var parts := Split(Trim(UrlText(metadataContent).value), '/');
         |parts| >= 6 || (|parts| == 5 && "fusion-" <= productId)
    ensures r.Some? ==> r.value.gzFilePath == Trim(UrlText(metadataContent).value) && WellFormed(r.value, productId)
  {
    r := None;
    var urlMatch := UrlText(metadataContent);
    if urlMatch.Some? {
      var gzFilePath := Trim(urlMatch.value);
      if !Contains(gzFilePath, "info-only") {
        r := ClassifyPath(gzFilePath, productId);
      }
    }
    assert r == EntryOf(metadataContent, productId);
    EntryOfSpec(metadataContent, productId);
  }

  /** Lines 72-119: the entry of a retained path, by its number of segments. */
  method ClassifyPath(gzFilePath: string, productId: string) returns (r: Option<VersionEntry>)
    ensures r == Classify(gzFilePath, productId)
    ensures r.Some? <==> |Split(gzFilePath, '/')| >= 6 || (|Split(gzFilePath, '/')| == 5 && "fusion-" <= productId)
    ensures r.Some? ==> r.value.gzFilePath == gzFilePath && WellFormed(r.value, productId)
  {
    r := None;
    var parts := Split(gzFilePath, '/');
    if |parts| >= 6 {
      var version, build, platformOrArch := parts[1], parts[2], parts[3];
      var kind := parts[|parts| - 2];
      var displayPlatform := Capitalize(platformOrArch);
      var displayType := Capitalize(kind);
      r := Some(VersionEntry(gzFilePath, DisplayLabel(version, build, displayPlatform, displayType),
                             gzFilePath, version, build, platformOrArch, kind));
    } else if |parts| == 5 && "fusion-" <= productId {
      var version, build := parts[1], parts[2];
      var kind := parts[|parts| - 2];
      var fusionArch := "UnknownArch";
      if productId == "fusion-universal" {
        fusionArch := "Universal";
      } else if productId == "fusion-arm64" {
        fusionArch := "ARM64";
      } else if productId == "fusion-intel" {
        fusionArch := "Intel";
      } else if productId == "fusion" {
        fusionArch := "Intel";
      }
      r := Some(VersionEntry(gzFilePath, DisplayLabel(version, build, "macOS " + fusionArch, Capitalize(kind)),
                             gzFilePath, version, build, fusionArch, kind));
    }
    assert r == Classify(gzFilePath, productId);
    ClassifySpec(gzFilePath, productId);
  }
}
