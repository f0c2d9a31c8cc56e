/**
 * `app/api/download-details/route.ts`: the downloadable components of one
 * bulletin document (`extractDownloadableItemsFromInnerXml`, lines 40-68) and
 * the checks of the request handler around it (lines 71-117).
 */
module DownloadDetails {
  import opened Wrappers
  import opened Text
  import opened XmlScan

  /** `DownloadableItemDetail`. */
  datatype DownloadableItem = DownloadableItem(name: string, pathFragment: string, finalFileName: string)

  function BulletinBlocks(xml: string): seq<string> {
    Blocks(xml, "<bulletin>", "</bulletin>")
  }

  function ComponentListBlocks(bulletin: string): seq<string> {
    Blocks(bulletin, "<componentList>", "</componentList>")
  }

  function ComponentBlocks(componentList: string): seq<string> {
    Blocks(componentList, "<component>", "</component>")
  }

  /** The first truthy candidate, or the last candidate when none is (the value of `a || b || c`). */
  function FirstTruthy(candidates: seq<Option<string>>): (r: Option<string>)
    requires candidates != []
    ensures Truthy(r) <==> exists k :: 0 <= k < |candidates| && Truthy(candidates[k])
    ensures Truthy(r) ==>
      exists k :: 0 <= k < |candidates| && r == candidates[k] && forall m :: 0 <= m < k ==> !Truthy(candidates[m])
  {
    if |candidates| == 1 || Truthy(candidates[0]) then candidates[0]
    else
      var r := FirstTruthy(candidates[1..]);
      assert forall k :: 1 <= k < |candidates| ==> candidates[k] == candidates[1..][k - 1];
      r
  }

  /** The three texts lines 51-53 read from one `<component>` block. */
  datatype ComponentFields = ComponentFields(payload: Option<string>, componentID: Option<string>, relativePath: Option<string>)

  function FieldsOf(component: string): (f: ComponentFields)
    ensures f.relativePath.Some? ==> Trim(f.relativePath.value) == f.relativePath.value && '<' !in f.relativePath.value
  {
    ExtractTagContentSpec(component, "relativePath");
    ComponentFields(ExtractTagContent(component, "payload"), ExtractTagContent(component, "componentID"),
                    ExtractTagContent(component, "relativePath"))
  }

  /** The item built from a component's texts, if it is kept (lines 53-63). */
  function ItemOf(f: ComponentFields, pathFragment: string): Option<DownloadableItem> {
    var name := FirstTruthy([f.payload, f.componentID, f.relativePath]);
    if Truthy(f.relativePath) && Truthy(name) then Some(DownloadableItem(name.value, pathFragment, f.relativePath.value))
    else None
  }

  /** The item one `<component>` block yields, if any. */
  function ComponentItem(component: string, pathFragment: string): Option<DownloadableItem> {
    ItemOf(FieldsOf(component), pathFragment)
  }

  /**
   * A component yields an item exactly when its `relativePath` text is
   * truthy; the item's file name is that text, its path fragment the one
   * given, and its name the first truthy of payload, componentID and
   * relativePath, so never empty.
   */
  lemma ItemOfSpec(f: ComponentFields, pathFragment: string)
    ensures ItemOf(f, pathFragment).Some? <==> Truthy(f.relativePath)
    ensures Truthy(f.relativePath) ==>
      var item := ItemOf(f, pathFragment).value;
      && item.finalFileName == f.relativePath.value
      && item.pathFragment == pathFragment
      && item.name != []
      && (Truthy(f.payload) ==> item.name == f.payload.value)
      && (!Truthy(f.payload) && Truthy(f.componentID) ==> item.name == f.componentID.value)
      && (!Truthy(f.payload) && !Truthy(f.componentID) ==> item.name == item.finalFileName)
  {
    var candidates := [f.payload, f.componentID, f.relativePath];
    if Truthy(f.relativePath) {
      assert Truthy(candidates[2]);
    }
    NameResolved(f);
  }

  /** The items of a sequence of component blocks, in order. */
  function ComponentsItems(components: seq<string>, pathFragment: string): seq<DownloadableItem>
    decreases |components|
  {
    if components == [] then []
    else
      ComponentsItems(components[..|components| - 1], pathFragment)
        + (match ComponentItem(components[|components| - 1], pathFragment) case Some(item) => [item] case None => [])
  }

  /** The component blocks of a sequence of component lists, in document order. */
  function ListsComponents(lists: seq<string>): seq<string>
    decreases |lists|
  {
    if lists == [] then [] else ListsComponents(lists[..|lists| - 1]) + ComponentBlocks(lists[|lists| - 1])
  }

  /** The component blocks of a sequence of bulletins, in document order. */
  function BulletinsComponents(bulletins: seq<string>): seq<string>
    decreases |bulletins|
  {
    if bulletins == [] then []
    else BulletinsComponents(bulletins[..|bulletins| - 1]) + ListsComponents(ComponentListBlocks(bulletins[|bulletins| - 1]))
  }

  /** Every `<component>` inside a `<componentList>` inside a `<bulletin>`, in document order. */
  function DocumentComponents(xml: string): seq<string> {
    BulletinsComponents(BulletinBlocks(xml))
  }

  /** The items the loops of lines 44-66 push for a sequence of component lists. */
  function ListsItems(lists: seq<string>, pathFragment: string): seq<DownloadableItem>
    decreases |lists|
  {
    if lists == [] then []
    else ListsItems(lists[..|lists| - 1], pathFragment) + ComponentsItems(ComponentBlocks(lists[|lists| - 1]), pathFragment)
  }

  /** The items the loops of lines 44-66 push for a sequence of bulletins. */
  function BulletinsItems(bulletins: seq<string>, pathFragment: string): seq<DownloadableItem>
    decreases |bulletins|
  {
    if bulletins == [] then []
    else
      BulletinsItems(bulletins[..|bulletins| - 1], pathFragment)
        + ListsItems(ComponentListBlocks(bulletins[|bulletins| - 1]), pathFragment)
  }

  /** What `extractDownloadableItemsFromInnerXml(xml, pathFragment)` returns. */
  function DocumentItems(xml: string, pathFragment: string): seq<DownloadableItem> {
    BulletinsItems(BulletinBlocks(xml), pathFragment)
  }

  /** The items of two runs of components are those of the first run followed by those of the second. */
  lemma {:induction false} ComponentsItemsAppend(a: seq<string>, b: seq<string>, pathFragment: string)
    ensures ComponentsItems(a + b, pathFragment) == ComponentsItems(a, pathFragment) + ComponentsItems(b, pathFragment)
    decreases |b|
  {
    if b == [] {
      assert a + b == a;
    } else {
      var init := b[..|b| - 1];
      assert (a + b)[..|a + b| - 1] == a + init;
      assert (a + b)[|a + b| - 1] == b[|b| - 1];
      ComponentsItemsAppend(a, init, pathFragment);
    }
  }

  lemma {:induction false} ListsItemsFlatten(lists: seq<string>, pathFragment: string)
    ensures ListsItems(lists, pathFragment) == ComponentsItems(ListsComponents(lists), pathFragment)
    decreases |lists|
  {
    if lists != [] {
      var init := lists[..|lists| - 1];
      ListsItemsFlatten(init, pathFragment);
      ComponentsItemsAppend(ListsComponents(init), ComponentBlocks(lists[|lists| - 1]), pathFragment);
    }
  }

  lemma {:induction false} BulletinsItemsFlatten(bulletins: seq<string>, pathFragment: string)
    ensures BulletinsItems(bulletins, pathFragment) == ComponentsItems(BulletinsComponents(bulletins), pathFragment)
    decreases |bulletins|
  {
    if bulletins != [] {
      var init := bulletins[..|bulletins| - 1];
      var lists := ComponentListBlocks(bulletins[|bulletins| - 1]);
      BulletinsItemsFlatten(init, pathFragment);
      ListsItemsFlatten(lists, pathFragment);
      ComponentsItemsAppend(BulletinsComponents(init), ListsComponents(lists), pathFragment);
    }
  }

  /**
   * Document order: the items are those of the nested components taken one
   * by one in document order, each contributing its own item or nothing.
   */
  lemma DocumentItemsInOrder(xml: string, pathFragment: string)
    ensures DocumentItems(xml, pathFragment) == ComponentsItems(DocumentComponents(xml), pathFragment)
  {
    BulletinsItemsFlatten(BulletinBlocks(xml), pathFragment);
  }

  /** Each component block contributes at most one item, one that it yields on its own. */
  lemma {:induction false} ComponentsItemsProperties(components: seq<string>, pathFragment: string)
    ensures |ComponentsItems(components, pathFragment)| <= |components|
    ensures forall item :: item in ComponentsItems(components, pathFragment) ==>
      exists c :: c in components && ComponentItem(c, pathFragment) == Some(item)
    decreases |components|
  {
    if components != [] {
      var init := components[..|components| - 1];
      ComponentsItemsProperties(init, pathFragment);
      forall item | item in ComponentsItems(components, pathFragment)
        ensures exists c :: c in components && ComponentItem(c, pathFragment) == Some(item)
      {
        if item in ComponentsItems(init, pathFragment) {
          var c :| c in init && ComponentItem(c, pathFragment) == Some(item);
          assert c in components;
        } else {
          assert ComponentItem(components[|components| - 1], pathFragment) == Some(item);
        }
      }
    }
  }

  /**
   * The document's items: no more than its nested component blocks, each
   * coming from one of them, each with the given path fragment, a non-empty
   * name and a non-empty, trimmed file name.
   */
  lemma DocumentItemsProperties(xml: string, pathFragment: string)
    ensures |DocumentItems(xml, pathFragment)| <= |DocumentComponents(xml)|
    ensures forall item :: item in DocumentItems(xml, pathFragment) ==>
      && (exists c :: c in DocumentComponents(xml) && ComponentItem(c, pathFragment) == Some(item))
      && item.pathFragment == pathFragment
      && item.name != []
      && item.finalFileName != []
      && Trim(item.finalFileName) == item.finalFileName
  {
    DocumentItemsInOrder(xml, pathFragment);
    ComponentsItemsProperties(DocumentComponents(xml), pathFragment);
    forall item | item in DocumentItems(xml, pathFragment)
      ensures && item.pathFragment == pathFragment && item.name != [] && item.finalFileName != []
              && Trim(item.finalFileName) == item.finalFileName
    {
      var c :| c in DocumentComponents(xml) && ComponentItem(c, pathFragment) == Some(item);
      ItemOfSpec(FieldsOf(c), pathFragment);
    }
  }

  lemma ComponentsItemsStep(components: seq<string>, c: nat, pathFragment: string)
    requires c < |components|
    ensures ComponentsItems(components[..c + 1], pathFragment) == ComponentsItems(components[..c], pathFragment)
      + (match ComponentItem(components[c], pathFragment) case Some(item) => [item] case None => [])
  {
    assert components[..c + 1][..c] == components[..c];
  }

  lemma ListsItemsStep(lists: seq<string>, l: nat, pathFragment: string)
    requires l < |lists|
    ensures ListsItems(lists[..l + 1], pathFragment)
      == ListsItems(lists[..l], pathFragment) + ComponentsItems(ComponentBlocks(lists[l]), pathFragment)
  {
    assert lists[..l + 1][..l] == lists[..l];
  }

  lemma BulletinsItemsStep(bulletins: seq<string>, b: nat, pathFragment: string)
    requires b < |bulletins|
    ensures BulletinsItems(bulletins[..b + 1], pathFragment)
      == BulletinsItems(bulletins[..b], pathFragment) + ListsItems(ComponentListBlocks(bulletins[b]), pathFragment)
  {
    assert bulletins[..b + 1][..b] == bulletins[..b];
  }

  lemma AppendAssociative(a: seq<DownloadableItem>, b: seq<DownloadableItem>, c: seq<DownloadableItem>)
    ensures (a + b) + c == a + (b + c)
  {
  }

  /**
   * `extractDownloadableItemsFromInnerXml`: three nested loops over bulletins,
   * component lists and components; the innermost is `PushComponentItems`.
   */
  method ExtractDownloadableItems(innerXmlText: string, pathFragmentToGz: string) returns (items: seq<DownloadableItem>)
    ensures items == DocumentItems(innerXmlText, pathFragmentToGz)
  {
    items := [];
    var bulletinMatches := BulletinBlocks(innerXmlText);
    var b := 0;
    while b < |bulletinMatches|
      invariant 0 <= b <= |bulletinMatches|
      invariant items == BulletinsItems(bulletinMatches[..b], pathFragmentToGz)
    {
      var bulletinContent := bulletinMatches[b];
      ghost var before := items;
      var componentListMatches := ComponentListBlocks(bulletinContent);
      var l := 0;
      while l < |componentListMatches|
        invariant 0 <= l <= |componentListMatches|
        invariant items == before + ListsItems(componentListMatches[..l], pathFragmentToGz)
      {
        ghost var beforeList := items;
        items := PushComponentItems(items, componentListMatches[l], pathFragmentToGz);
        ListsItemsStep(componentListMatches, l, pathFragmentToGz);
        AppendAssociative(before, ListsItems(componentListMatches[..l], pathFragmentToGz),
                          ComponentsItems(ComponentBlocks(componentListMatches[l]), pathFragmentToGz));
        l := l + 1;
      }
      assert componentListMatches[..l] == componentListMatches;
      BulletinsItemsStep(bulletinMatches, b, pathFragmentToGz);
      b := b + 1;
    }
    assert bulletinMatches[..b] == bulletinMatches;
  }

  /** The innermost loop: push the item of each component block of one component list. */
  method PushComponentItems(items0: seq<DownloadableItem>, componentListContent: string, pathFragmentToGz: string)
    returns (items: seq<DownloadableItem>)
    ensures items == items0 + ComponentsItems(ComponentBlocks(componentListContent), pathFragmentToGz)
  {
    items := items0;
    var componentMatches := ComponentBlocks(componentListContent);
    var c := 0;
    while c < |componentMatches|
      invariant 0 <= c <= |componentMatches|
      invariant items == items0 + ComponentsItems(componentMatches[..c], pathFragmentToGz)
    {
      var item := ExtractComponent(componentMatches[c], pathFragmentToGz);
      ghost var done := ComponentsItems(componentMatches[..c], pathFragmentToGz);
      if item.Some? {
        assert ComponentsItems(componentMatches[..c + 1], pathFragmentToGz) == done + [item.value] by {
          ComponentsItemsStep(componentMatches, c, pathFragmentToGz);
        }
        AppendAssociative(items0, done, [item.value]);
        items := items + [item.value];
      } else {
        assert ComponentsItems(componentMatches[..c + 1], pathFragmentToGz) == done by {
          ComponentsItemsStep(componentMatches, c, pathFragmentToGz);
        }
      }
      c := c + 1;
    }
    assert componentMatches[..c] == componentMatches;
  }

  /** The body of the innermost loop: the item one component block yields, if any. */
  method ExtractComponent(componentContent: string, pathFragmentToGz: string) returns (item: Option<DownloadableItem>)
    ensures item == ComponentItem(componentContent, pathFragmentToGz)
  {
    var relativePath := ExtractTagContent(componentContent, "relativePath");
    var name := ExtractTagContent(componentContent, "payload");
    if !Truthy(name) {
      name := ExtractTagContent(componentContent, "componentID");
    }
    if !Truthy(name) {
      name := relativePath;
    }
    ComponentStep(componentContent, pathFragmentToGz, relativePath, name);
    if Truthy(relativePath) && Truthy(name) {
      item := Some(DownloadableItem(name.value, pathFragmentToGz, relativePath.value));
    } else {
      item := None;
    }
  }

  /** The name the reassignments of lines 53-55 settle on is the first truthy of the three texts. */
  lemma NameResolved(f: ComponentFields)
    ensures FirstTruthy([f.payload, f.componentID, f.relativePath])
      == if Truthy(f.payload) then f.payload else if Truthy(f.componentID) then f.componentID else f.relativePath
  {
    var candidates := [f.payload, f.componentID, f.relativePath];
    assert candidates[1..] == [f.componentID, f.relativePath];
    assert candidates[1..][1..] == [f.relativePath];
    assert FirstTruthy([f.relativePath]) == f.relativePath;
    assert FirstTruthy([f.componentID, f.relativePath])
      == if Truthy(f.componentID) then f.componentID else f.relativePath;
  }

  /** One pass of the innermost loop body yields `ComponentItem` of the block. */
  lemma ComponentStep(component: string, pathFragment: string, relativePath: Option<string>, name: Option<string>)
    requires relativePath == ExtractTagContent(component, "relativePath")
    requires var payload, componentID := ExtractTagContent(component, "payload"), ExtractTagContent(component, "componentID");
      name == if Truthy(payload) then payload else if Truthy(componentID) then componentID else relativePath
    ensures ComponentItem(component, pathFragment)
      == if Truthy(relativePath) && Truthy(name) then Some(DownloadableItem(name.value, pathFragment, relativePath.value)) else None
  {
    NameResolved(FieldsOf(component));
  }

  // ---------------------------------------------------------------------------
  // The request handler

  /**
   * Line 84: the directory of the gz file, `pathParts.slice(0, -1).join('/') + '/'`:
   * the path up to and including its last `/`.
   */
  function PathFragment(gzFilePath: string): (fragment: string)
    requires |Split(gzFilePath, '/')| >= 2
    ensures fragment != [] && fragment[|fragment| - 1] == '/'
    ensures fragment <= gzFilePath && '/' !in gzFilePath[|fragment|..]
    ensures fragment + Split(gzFilePath, '/')[|Split(gzFilePath, '/')| - 1] == gzFilePath
  {
    var pathParts := Split(gzFilePath, '/');
    var last := pathParts[|pathParts| - 1];
    var fragment := Join(pathParts[..|pathParts| - 1], '/') + "/";
    JoinSplit(gzFilePath, '/');
    assert gzFilePath == fragment + last;
    assert gzFilePath[|fragment|..] == last;
    fragment
  }

  /**
   * The fragment of a file path is its directory with a trailing `/`:
   * "fusion/11.1.0/13668589/core/metadata.xml.gz" gives "fusion/11.1.0/13668589/core/".
   */
  lemma PathFragmentOfDirectory(directory: string, file: string)
    requires '/' !in file
    ensures |Split(directory + "/" + file, '/')| >= 2
    ensures PathFragment(directory + "/" + file) == directory + "/"
  {
    var path := directory + "/" + file;
    assert path[|directory|] == '/';
    var fragment := PathFragment(path);
    var n := |fragment|;
    assert fragment == path[..n];
    assert path[..|directory| + 1] == directory + "/";
  }

  newtype Byte = b: int | 0 <= b < 256

  /** The upstream answer to the gz request: a failure status, or the body's bytes. */
  datatype Fetched = HttpError(status: int) | Payload(bytes: seq<Byte>)

  /** Decompression followed by UTF-8 decoding: the text, or the library's error message. */
  datatype Inflated = Inflated(text: string) | InflateError(message: string)

  datatype Failure =
    | MissingPath                 // 400, line 76
    | InvalidPathFormat           // 400, line 82
    | UpstreamStatus(status: int) // the upstream status, line 91
    | EmptyPayload                // 500, line 97
    | DecompressionFailed(message: string) // 500, line 106
    | NotXml                      // 500, line 111

  /**
   * The handler of lines 71-120 after the query parameter is read: the first
   * failed check decides the error; otherwise the items, possibly none.
   */
  method GetDownloadDetails(gzFilePath: Option<string>, fetch: string -> Fetched, gunzip: seq<Byte> -> Inflated)
    returns (r: Result<seq<DownloadableItem>, Failure>)
    ensures !Truthy(gzFilePath) ==> r == Err(MissingPath)
    ensures Truthy(gzFilePath) && '/' !in gzFilePath.value ==> r == Err(InvalidPathFormat)
    ensures Truthy(gzFilePath) && '/' in gzFilePath.value ==>
      match fetch(gzFilePath.value)
      case HttpError(status) => r == Err(UpstreamStatus(status))
      case Payload(bytes) =>
        if bytes == [] then r == Err(EmptyPayload)
        else match gunzip(bytes)
          case InflateError(message) => r == Err(DecompressionFailed(message))
          case Inflated(text) =>
            if MalformedXml(text) then r == Err(NotXml)
            else r == Ok(DocumentItems(text, PathFragment(gzFilePath.value)))
  {
    if !Truthy(gzFilePath) {
      return Err(MissingPath);
    }
    var path := gzFilePath.value;
    var pathParts := Split(path, '/');
    if |pathParts| < 2 {
      return Err(InvalidPathFormat);
    }
    var pathFragmentToGz := PathFragment(path);
    var gzResponse := fetch(path);
    if gzResponse.HttpError? {
      return Err(UpstreamStatus(gzResponse.status));
    }
    var gzipBuffer := gzResponse.bytes;
    if |gzipBuffer| == 0 {
      return Err(EmptyPayload);
    }
    var inflated := gunzip(gzipBuffer);
    if inflated.InflateError? {
      return Err(DecompressionFailed(inflated.message));
    }
    var innerXmlText := inflated.text;
    if MalformedXml(innerXmlText) {
      return Err(NotXml);
    }
    var downloadableItems := ExtractDownloadableItems(innerXmlText, pathFragmentToGz);
    return Ok(downloadableItems);
  }
}
