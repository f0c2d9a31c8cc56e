# vmware-index: catalog and bulletin parsing, in Dafny

vmware-index is a small web application. It lists the downloadable builds of
VMware desktop products from the vendor's public update catalog. Two server
routes do the work, and this project models both:

- `app/api/getProductVersions/route.ts` checks the product id and fetches the
  product's catalog. It scans the catalog for `<metadata>` blocks and takes
  the first `<url>` of each block, trimmed. It drops `info-only` paths and
  classifies the rest by their number of `/`-segments. A path of six or more
  segments reads its version, build, platform and type from fixed positions.
  A five-segment path is accepted only for a `fusion-` product, whose
  architecture comes from the product id. The route then builds a display
  label and sorts the entries in place: newest version first (numeric,
  component by component, a missing component counting as 0), then newest
  build, then `core` before any other type, then type order.
- `app/api/download-details/route.ts` checks the gz path it is given and
  derives the path fragment: the directory part, with a trailing `/`. It
  fetches and decompresses the bulletin document, then walks
  `<bulletin>` → `<componentList>` → `<component>`. Each component whose
  `relativePath` text is non-empty becomes an item. The item's name is the
  first non-empty of `payload`, `componentID` and `relativePath`.

Modules:

| file | module | what it holds |
|---|---|---|
| `wrappers.dfy` | `Wrappers` | `Option`, `Result` |
| `text.dfy` | `Text` | `trim`, `includes`, `split`/`join` on one character, code point string order, truthiness of `string \| null` |
| `js_number.dfy` | `JsNumber` | `Number(s) \|\| 0` and `parseInt(s, 10)` on decimal text |
| `xml_scan.dfy` | `XmlScan` | the global non-greedy block scan `<open>([\s\S]*?)<close>` and the first match of `<tag[^>]*>([^<]+)</tag>` |
| `version_entries.dfy` | `VersionEntries` | catalog blocks → version entries, and the collecting loop |
| `version_order.dfy` | `VersionOrder` | the comparator, its properties, and the in-place sort of the entry array |
| `product_versions.dfy` | `ProductVersions` | the catalog request handler |
| `download_details.dfy` | `DownloadDetails` | the bulletin item extractor and its request handler |

Conventions:

- A comparator result below zero puts its first argument first.
- `parseInt` returning NaN is `None`. A NaN build difference is returned by
  the source comparator as it is, and `Array.prototype.sort` reads NaN as 0,
  so the model's comparator returns 0. This makes the comparator
  intransitive when a build is not numeric (`NaNBuildBreaksTransitivity`).
  ECMAScript leaves the result of `sort` implementation-defined for an
  inconsistent comparator, so the program itself promises no order then.
  The modelled sort, an insertion sort, still leaves neighbours in order; the
  whole list is in order when every build is numeric, whatever the engine.
- Upstream requests and decompression are function parameters of the
  handlers.

## Model

| member | source | states |
|---|---|---|
| Text.TrimSpec | app/api/getProductVersions/route.ts:66 | the result is the input with a maximal run of whitespace removed at each end (`TrimmedAt`), and it has no character the input lacks |
| Text.TrimmedAtUnique | app/api/download-details/route.ts:14 | there is only one way to trim a string, so `Trim` is determined |
| Text.TrimIdempotent | app/api/download-details/route.ts:14 | trimming twice is trimming once |
| Text.TrimUnchanged | app/api/getProductVersions/route.ts:66 | text without whitespace at either end is left as it is |
| Text.Contains | app/api/getProductVersions/route.ts:68 | `includes` holds exactly when the pattern occurs at some position |
| Text.NotContainsMissingChar | app/api/getProductVersions/route.ts:68 | a text missing a character of the pattern does not include it |
| Text.Split | app/api/getProductVersions/route.ts:72 | `split` on one character: at least one part, no part holds the separator, and there is exactly one part iff the separator is absent |
| Text.SplitSnoc | app/api/getProductVersions/route.ts:72 | one more character either starts a new empty part, when it is the separator, or extends the last part |
| Text.JoinSplit | app/api/download-details/route.ts:80-84 | joining the parts of a split with the same separator gives the input back |
| Text.SplitJoin | app/api/download-details/route.ts:80-84 | splitting the join of separator-free parts gives those parts back, the other half of the round trip |
| Text.SplitAppend | app/api/getProductVersions/route.ts:130 | text without the separator appended to the input extends the last part |
| Text.SplitSeparator | app/api/getProductVersions/route.ts:130 | a trailing separator adds one empty part |
| Text.OrdinalCompare | app/api/getProductVersions/route.ts:141 | the type order gives -1, 0 or 1, and 0 exactly for equal strings |
| Text.OrdinalCompareAntisymmetric | app/api/getProductVersions/route.ts:141 | swapping the arguments negates the order |
| Text.OrdinalCompareTransitive | app/api/getProductVersions/route.ts:141 | the order is transitive |
| JsNumber.ParseIntDigits | app/api/getProductVersions/route.ts:136 | `parseInt` of a digit string is its decimal value |
| JsNumber.ParseIntNaN | app/api/getProductVersions/route.ts:136 | `parseInt` of text starting with a character that is neither whitespace, sign nor digit is NaN |
| JsNumber.LongerNumberIsLarger | app/api/getProductVersions/route.ts:130-135 | a digit string with more digits and no leading zero denotes the larger number |
| XmlScan.BlocksCloseFree | app/api/getProductVersions/route.ts:60 | every captured block is free of the close tag, so each capture stops at the first close tag |
| XmlScan.BlocksAfterText | app/api/getProductVersions/route.ts:60 | text before the first open tag (an enclosing element, line breaks) is skipped: the block after it is captured first, and the scan goes on after its close tag |
| XmlScan.BlocksOfFront | app/api/download-details/route.ts:42 | a block at the very front of a document is the first one captured, and the scan goes on after its close tag |
| XmlScan.BlocksOfWrap | app/api/download-details/route.ts:42-49 | scanning contents wrapped in open and close tags recovers exactly those contents, in order |
| XmlScan.MatchAtSpec | app/api/download-details/route.ts:13 | the pattern anchored at a position has at most one match, and `MatchAt` reports it whenever there is one |
| XmlScan.FirstMatchFound | app/api/download-details/route.ts:13 | the match the forward search reports is a match at its reported position |
| XmlScan.FirstMatchSkips | app/api/download-details/route.ts:13 | no position between the start and the reported match (or anywhere, when none is reported) holds a match |
| XmlScan.FirstMatchLeftmost | app/api/download-details/route.ts:13 | the match found from the start is the leftmost one, and its capture is what `match` returns, without `<` |
| XmlScan.MatchedTextSpec | app/api/getProductVersions/route.ts:64 | a capture exists iff the pattern matches somewhere; it is the text of the leftmost match, non-empty and without `<` |
| XmlScan.ExtractTagContentSpec | app/api/download-details/route.ts:12-15 | `null` iff no `<tag…>text</tag>` matches; otherwise the trimmed text of the leftmost match, without `<` and already trimmed |
| XmlScan.MatchedTextOfElement | app/api/getProductVersions/route.ts:64 | an element at the front of a document is what the pattern captures, whatever follows |
| XmlScan.ExtractTagContentOfElement | app/api/download-details/route.ts:12-15 | for such an element, `extractXmlTagContent` returns its trimmed text |
| VersionEntries.Capitalize | app/api/getProductVersions/route.ts:81-82 | same length, only the first character can change; a lower-case first letter becomes the same letter in upper case, and any other first character is kept |
| VersionEntries.FusionLegacyClauseUnreachable | app/api/getProductVersions/route.ts:103-108 | for `fusion-` ids the arch is "Intel" only for `fusion-intel`, and always one of the four names; the `fusion` clause never applies |
| VersionEntries.ClassifySpec | app/api/getProductVersions/route.ts:72-119 | an entry exists iff the path has six or more segments, or five for a `fusion-` product; it is well formed (fields from the fixed segments, id equal to path, label built from the fields) |
| VersionEntries.WideEntryWellFormed | app/api/getProductVersions/route.ts:75-92 | a six-or-more-segment path gives version, build and platform from segments 1-3, type from the second-to-last, and the label `{version} (Build {build}) - {Cap(platform)} - {Cap(type)}` |
| VersionEntries.FusionEntryWellFormed | app/api/getProductVersions/route.ts:93-118 | a five-segment `fusion-` path takes its platform from the product id and labels it `macOS {arch}` |
| VersionEntries.EntryOfSpec | app/api/getProductVersions/route.ts:62-121 | a block yields an entry iff it has a url whose trimmed text avoids `info-only` and has an accepted segment count; the entry's path is that trimmed text |
| VersionEntries.EntriesOfBound | app/api/getProductVersions/route.ts:59-121 | at most one entry per metadata block |
| VersionEntries.EntriesOfProvenance | app/api/getProductVersions/route.ts:59-121 | every entry is the entry of one of the blocks |
| VersionEntries.CatalogEntriesProperties | app/api/getProductVersions/route.ts:59-121 | the catalog's entries number at most its blocks; each is well formed, avoids `info-only`, and carries the trimmed url of one block |
| VersionEntries.CollectEntries | app/api/getProductVersions/route.ts:59-121 | the loop pushes exactly the catalog's entries, in block order |
| VersionEntries.ExtractEntry | app/api/getProductVersions/route.ts:63-120 | one pass of the loop body yields an entry iff the block has a url whose trimmed text does not contain `info-only` and has six or more segments, or five for a `fusion-` product; the entry's path is that trimmed text and the entry is well formed |
| VersionEntries.ClassifyPath | app/api/getProductVersions/route.ts:72-119 | the branch on the segment count gives an entry iff the path has six or more segments, or five for a `fusion-` product; the entry keeps the path and is well formed (fields from the fixed segments, arch from the product id, label from the fields) |
| VersionOrder.CompareKeysInOrder | app/api/getProductVersions/route.ts:131-141 | the index loop over the components, then the build and type tests, return `CompareKeys` |
| VersionOrder.DiffFromZero | app/api/getProductVersions/route.ts:131-135 | the loop finds no difference iff all padded components agree over the range |
| VersionOrder.DiffFromNewer | app/api/getProductVersions/route.ts:131-135 | at the first differing component, the larger one decides for its version |
| VersionOrder.DiffFromBound | app/api/getProductVersions/route.ts:131 | running the loop past both lists changes nothing |
| VersionOrder.DiffFromAntisymmetric | app/api/getProductVersions/route.ts:131-135 | swapping the versions negates the version key |
| VersionOrder.DiffFromTransitive | app/api/getProductVersions/route.ts:131-135 | the version key is a total preorder over a range |
| VersionOrder.VersionDiffZero | app/api/getProductVersions/route.ts:131-135 | two versions tie iff every component agrees, a missing one counting as 0 |
| VersionOrder.VersionDiffNewer | app/api/getProductVersions/route.ts:134 | the version with the larger component at the first difference sorts first |
| VersionOrder.VersionDiffTransitive | app/api/getProductVersions/route.ts:131-135 | the version key is a total preorder |
| VersionOrder.TypeOrderAntisymmetric | app/api/getProductVersions/route.ts:139-141 | the type key is antisymmetric |
| VersionOrder.TypeOrderTransitive | app/api/getProductVersions/route.ts:139-141 | the type key is transitive |
| VersionOrder.CompareKeysAntisymmetric | app/api/getProductVersions/route.ts:130-141 | the comparator on keys is antisymmetric, NaN builds included |
| VersionOrder.CompareKeysTransitive | app/api/getProductVersions/route.ts:130-141 | with numeric builds the comparator on keys is transitive |
| VersionOrder.CompareAntisymmetric | app/api/getProductVersions/route.ts:128-142 | `compare(a, b) == -compare(b, a)`, so every entry ties with itself |
| VersionOrder.CompareTransitive | app/api/getProductVersions/route.ts:128-142 | with numeric builds the comparator is transitive |
| VersionOrder.NewerVersionFirst | app/api/getProductVersions/route.ts:130-135 | the first key: a larger component at the first difference puts the entry first |
| VersionOrder.NewerBuildFirst | app/api/getProductVersions/route.ts:136-137 | the second key: among equal versions the larger build comes first |
| VersionOrder.TypeDecidesTies | app/api/getProductVersions/route.ts:138-141 | the last keys: among equal versions and builds the type order decides, with `core` first |
| VersionOrder.NaNBuildTies | app/api/getProductVersions/route.ts:136-137 | among equal versions a non-numeric build ties the entries whatever their types |
| VersionOrder.NumberOrZeroDigits | app/api/getProductVersions/route.ts:130-133 | a digit component is read as its decimal value |
| VersionOrder.NumberOfZero | app/api/getProductVersions/route.ts:130-133 | the component "0" is read as 0 |
| VersionOrder.MoreDigitsFirst | app/api/getProductVersions/route.ts:130-135 | components compare as numbers, not text: "10.0.0" sorts before "9.9.9" |
| VersionOrder.TrailingZeroTies | app/api/getProductVersions/route.ts:131-133 | appending ".0" never changes the version key: "17.5" ties "17.5.0" |
| VersionOrder.VersionPartsAppend | app/api/getProductVersions/route.ts:130 | one more dotted component adds one number at the end of the component list |
| VersionOrder.NaNBuildBreaksTransitivity | app/api/getProductVersions/route.ts:136-137 | builds "3", "n/a", "5" on one version and type: both neighbouring pairs tie, yet "5" sorts before "3" |
| VersionOrder.PairsSortedIsSorted | app/api/getProductVersions/route.ts:128 | for a transitive comparator, neighbours in order means every pair is in order |
| VersionOrder.SortBy | app/api/getProductVersions/route.ts:128 | `sort` with an antisymmetric comparator leaves neighbours in comparator order and the array a permutation of its old contents |
| VersionOrder.Insert | app/api/getProductVersions/route.ts:128 | one insertion step extends the ordered prefix by one element; the prefix keeps its elements and everything after it stays in place |
| VersionOrder.AdjacentSortedIsSorted | app/api/getProductVersions/route.ts:128-142 | with numeric builds, neighbours in order means the whole entry list is in order |
| VersionOrder.SortEntries | app/api/getProductVersions/route.ts:128-142 | the entries are permuted so that neighbours are in comparator order, and the whole list is when every build is numeric |
| ProductVersions.ListVersions | app/api/getProductVersions/route.ts:36-144 | a missing id gives 400, an unknown one 404, a failed fetch its status, empty or non-`<` text 500; otherwise a permutation of the catalog's entries in comparator order, empty when there are none |
| ProductVersions.ListingSize | app/api/getProductVersions/route.ts:123-128 | the sorted listing has the same entries and length as the catalog's, so it is empty exactly when no entry was retained |
| DownloadDetails.FirstTruthy | app/api/download-details/route.ts:53-55 | the result is truthy iff some candidate is, and then it is the first truthy candidate |
| DownloadDetails.FieldsOf | app/api/download-details/route.ts:52-54 | the `relativePath` text read from a component is trimmed and without `<` |
| DownloadDetails.ItemOfSpec | app/api/download-details/route.ts:53-62 | an item is kept iff `relativePath` is non-empty; its file name is that text, its fragment the one given, and its name payload, else componentID, else relativePath, never empty |
| DownloadDetails.NameResolved | app/api/download-details/route.ts:53-55 | the two reassignments of `name` settle on the first truthy of payload, componentID and relativePath |
| DownloadDetails.ComponentStep | app/api/download-details/route.ts:51-63 | one pass of the innermost loop body pushes exactly the component's item, if any |
| DownloadDetails.ComponentsItemsAppend | app/api/download-details/route.ts:50-64 | the items of two runs of components are the first run's followed by the second's |
| DownloadDetails.ListsItemsFlatten | app/api/download-details/route.ts:47-65 | the items of component lists are those of their components, in order |
| DownloadDetails.BulletinsItemsFlatten | app/api/download-details/route.ts:44-66 | the items of bulletins are those of their nested components, in order |
| DownloadDetails.DocumentItemsInOrder | app/api/download-details/route.ts:42-66 | the items come from the components nested bulletin → componentList → component, in document order, each contributing its own item or nothing |
| DownloadDetails.ComponentsItemsProperties | app/api/download-details/route.ts:50-64 | at most one item per component, each produced by one of them |
| DownloadDetails.DocumentItemsProperties | app/api/download-details/route.ts:40-68 | no more items than nested components; each comes from one of them, carries the given fragment, a non-empty name and a non-empty trimmed file name |
| DownloadDetails.PushComponentItems | app/api/download-details/route.ts:49-64 | the innermost loop appends exactly the items of the list's components, in order |
| DownloadDetails.ExtractComponent | app/api/download-details/route.ts:51-62 | one pass of the innermost loop body yields exactly the component's item, if any |
| DownloadDetails.ExtractDownloadableItems | app/api/download-details/route.ts:40-68 | the three nested loops return exactly the document's items in document order |
| DownloadDetails.PathFragment | app/api/download-details/route.ts:80-84 | the fragment is the prefix of the path through its last `/`; adding the last segment back gives the path |
| DownloadDetails.PathFragmentOfDirectory | app/api/download-details/route.ts:79-84 | `directory/file` gives the fragment `directory/`, as "fusion/11.1.0/13668589/core/metadata.xml.gz" gives "fusion/11.1.0/13668589/core/" |
| DownloadDetails.GetDownloadDetails | app/api/download-details/route.ts:71-120 | checks in order: missing path, no `/`, failed fetch status, empty buffer (decompression not attempted), decompression error, empty or non-`<` text; otherwise the document's items, possibly none |

## Left out

- HTTP: reading query parameters, the `fetch` calls and the `NextResponse` bodies, messages and headers are left out. The handlers return a `Result` whose error cases carry the statuses in their comments. Each upstream answer is a function parameter: a status or a body.
- Gzip decompression and UTF-8 decoding are one function parameter returning text or an error message. No property of `zlib` is stated.
- The catch-all 500 answers (`getProductVersions/route.ts:146-148`, `download-details/route.ts:122-125`) are left out. No modelled operation throws.
- `console` logging is left out.
- `app/page.tsx` (the React page) is not part of this model.
- The product table holds only what the handler needs: each product id and its catalog file.
- `Number(s) || 0` is modelled for decimal text with an optional sign after trimming. Anything else reads as 0. Hexadecimal, binary and octal literals, exponents, `Infinity` and fractions of the real `Number` (for example `"0x10"`, `"1e3"`) are not modelled. Nor is floating-point precision, since the integers are unbounded.
- `toUpperCase` is modelled on ASCII letters only. `localeCompare` is modelled as code point order, independent of locale.
- ListVersions: the status-200 answer for zero entries is `Ok([])`. Its error message is not modelled.
- SortBy: the engine's sort algorithm is modelled as an insertion sort by adjacent swaps. Stability is not stated, and the order among entries that tie only through a NaN build depends on the engine.
- SortEntries: promises that neighbours are in comparator order in all cases. That is a property of the modelled insertion sort: with a NaN build the comparator is inconsistent and ECMAScript leaves the order implementation-defined, so the program itself guarantees nothing then. The whole list is promised to be in order only when every build is numeric, because a NaN build makes the comparator intransitive.
- GetDownloadDetails: the status-200 answer for zero items is `Ok([])`. Its error message is not modelled.
