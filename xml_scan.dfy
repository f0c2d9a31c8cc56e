/**
 * The two regular-expression scans both route handlers use in place of an
 * XML parser:
 *  - the global, non-greedy block scan `/<open>([\s\S]*?)<close>/g`
 *    (`<metadata>`, `<bulletin>`, `<componentList>`, `<component>`);
 *  - the first match of `<tag[^>]*>([^<]+)</tag>` (`extractXmlTagContent`)
 *    or of `<url>([^<]+)</url>` (the catalog's url lookup).
 */
module XmlScan {
  import opened Wrappers
  import opened Text

  /** `pat` does not occur in `c`, not even as an occurrence that starts in `c` and runs into a following `pat`. */
  predicate FreeOf(c: string, pat: string) {
    forall k: nat :: k < |c| ==> !OccursAt(c + pat, pat, k)
  }

  /**
   * The captured groups of `s.matchAll(/<open>([\s\S]*?)<close>/g)`, in order:
   * find the next `open`, take everything up to the first `close` after it,
   * and continue after that `close`. An `open` with no `close` after it ends
   * the scan, as no later `open` can have one either.
   */
  function Blocks(s: string, open: string, close: string): seq<string>
    requires open != []
    decreases |s|, 0
  {
    match Find(s, open)
    case None => []
    case Some(p) => BlocksAfterOpen(s[p + |open|..], open, close)
  }

  /** The scan once an `open` has been consumed: the block runs to the first `close`. */
  function BlocksAfterOpen(rest: string, open: string, close: string): seq<string>
    requires open != []
    decreases |rest|, 1
  {
    match Find(rest, close)
    case None => []
    case Some(q) => [rest[..q]] + Blocks(rest[q + |close|..], open, close)
  }

  /** The scan starts at the first `open`. */
  lemma BlocksOpen(s: string, open: string, close: string, p: nat)
    requires open != []
    requires Find(s, open) == Some(p)
    ensures Blocks(s, open, close) == BlocksAfterOpen(s[p + |open|..], open, close)
  {
  }

  /** After an `open`, the block is the text up to the first `close`, and the scan resumes after that `close`. */
  lemma BlocksClose(rest: string, open: string, close: string, q: nat)
    requires open != []
    requires Find(rest, close) == Some(q)
    ensures BlocksAfterOpen(rest, open, close) == [rest[..q]] + Blocks(rest[q + |close|..], open, close)
  {
  }

  /** No captured block contains `close`: each one ends at the first `close` after its `open`. */
  lemma {:induction false} BlocksCloseFree(s: string, open: string, close: string)
    requires open != []
    ensures forall i :: 0 <= i < |Blocks(s, open, close)| ==> FreeOf(Blocks(s, open, close)[i], close)
    decreases |s|
  {
    match Find(s, open)
    case None =>
    case Some(p) =>
      var rest := s[p + |open|..];
      BlocksOpen(s, open, close, p);
      match Find(rest, close)
      case None =>
      case Some(q) =>
        BlocksClose(rest, open, close, q);
        BlocksCloseFree(rest[q + |close|..], open, close);
        FirstCloseFree(rest, close, q);
  }

  /** The text before the first `close` holds no `close`. */
  lemma FirstCloseFree(rest: string, close: string, q: nat)
    requires Find(rest, close) == Some(q)
    ensures FreeOf(rest[..q], close)
  {
    var content := rest[..q];
    assert content + close == rest[..q + |close|];
    forall k: nat | k < q
      ensures !OccursAt(content + close, close, k)
    {
      OccursInPrefix(content + close, rest, close, k);
    }
  }

  /** The document made of the given contents, each wrapped in `open` and `close`. */
  function Wrap(contents: seq<string>, open: string, close: string): string {
    if contents == [] then "" else open + contents[0] + close + Wrap(contents[1..], open, close)
  }

  /** The block scan recovers exactly the wrapped contents, provided none of them contains `close`. */
  lemma {:induction false} BlocksOfWrap(contents: seq<string>, open: string, close: string)
    requires open != []
    requires forall i :: 0 <= i < |contents| ==> FreeOf(contents[i], close)
    ensures Blocks(Wrap(contents, open, close), open, close) == contents
    decreases |contents|
  {
    if contents != [] {
      var c, rest := contents[0], contents[1..];
      assert contents == [c] + rest;
      assert Wrap(contents, open, close) == open + c + close + Wrap(rest, open, close);
      BlocksOfWrap(rest, open, close);
      BlocksOfFront(c, Wrap(rest, open, close), open, close);
    }
  }

  /** A block at the very front of the text is the first one the scan finds; the scan then goes on after it. */
  lemma BlocksOfFront(c: string, w: string, open: string, close: string)
    requires open != [] && FreeOf(c, close)
    ensures Blocks(open + c + close + w, open, close) == [c] + Blocks(w, open, close)
  {
    assert [] + open + c + close + w == open + c + close + w;
    BlocksAfterText([], c, w, open, close);
  }

  /**
   * Text before the first `open`, such as an enclosing element's start tag or
   * the line breaks between blocks, is skipped: the block after it is the
   * first one captured, and the scan goes on after its `close`.
   */
  lemma BlocksAfterText(pre: string, c: string, w: string, open: string, close: string)
    requires open != [] && FreeOf(pre, open) && FreeOf(c, close)
    ensures Blocks(pre + open + c + close + w, open, close) == [c] + Blocks(w, open, close)
  {
    var rest := c + close + w;
    assert pre + open + c + close + w == pre + open + rest;
    FindAfterFree(pre, open, rest);
    BlocksOpen(pre + open + rest, open, close, |pre|);
    assert (pre + open + rest)[|pre| + |open|..] == rest;
    FindAfterFree(c, close, w);
    BlocksClose(rest, open, close, |c|);
    assert rest[..|c|] == c;
    assert rest[|c| + |close|..] == w;
  }

  /** Past a text free of `pat`, the first `pat` is the one right after it. */
  lemma FindAfterFree(c: string, pat: string, w: string)
    requires FreeOf(c, pat)
    ensures Find(c + pat + w, pat) == Some(|c|)
  {
    var rest := c + pat + w;
    assert rest[|c|..|c| + |pat|] == pat;
    forall k: nat | k < |c|
      ensures !OccursAt(rest, pat, k)
    {
      OccursInPrefix(c + pat, rest, pat, k);
    }
    FindFirst(rest, pat, |c|);
  }

  /**
   * One of the two text-element patterns: `<tag[^>]*>([^<]+)</tag>` when
   * `attributes` holds, `<tag>([^<]+)</tag>` otherwise.
   */
  datatype Element = Element(tag: string, attributes: bool)

  function OpenStart(tag: string): string {
    "<" + tag
  }

  function CloseTag(tag: string): string {
    "</" + tag + ">"
  }

  /**
   * The pattern of `e` matches `s` at `p`: the open tag ends with the `>` at
   * `g`, and the captured text is `s[g + 1..l]`, followed by the close tag.
   */
  ghost predicate MatchesAt(s: string, e: Element, p: nat, g: nat, l: nat) {
    && OccursAt(s, OpenStart(e.tag), p)
    && p + 1 + |e.tag| <= g < |s|
    && (e.attributes || g == p + 1 + |e.tag|)
    && (forall k :: p + 1 + |e.tag| <= k < g ==> s[k] != '>')
    && s[g] == '>'
    && g + 1 < l
    && OccursAt(s, CloseTag(e.tag), l)
    && (forall k :: g + 1 <= k < l ==> s[k] != '<')
  }

  /** Where the `>` ending the open tag must be, given that the open tag starts at `p`. */
  function OpenTagEnd(s: string, e: Element, p: nat): nat
    requires p + 1 + |e.tag| <= |s|
  {
    if e.attributes then IndexOfFrom(s, '>', p + 1 + |e.tag|) else p + 1 + |e.tag|
  }

  /** A match at `p` leaves no choice: `[^>]*` stops at the first `>` and `[^<]+` at the first `<`. */
  lemma MatchesAtDetermined(s: string, e: Element, p: nat, g: nat, l: nat)
    requires MatchesAt(s, e, p, g, l)
    ensures p + 1 + |e.tag| <= |s|
    ensures g == OpenTagEnd(s, e, p)
    ensures l == IndexOfFrom(s, '<', g + 1)
  {
    assert s[l..l + |CloseTag(e.tag)|][0] == s[l];
  }

  /** The match of `e` anchored at `p`, as (end of open tag, end of text); `MatchAtSpec` shows there is at most one. */
  function MatchAt(s: string, e: Element, p: nat): (r: Option<(nat, nat)>)
    ensures r.Some? ==> p < r.value.0 && r.value.0 + 1 < r.value.1 <= |s|
  {
    if !OccursAt(s, OpenStart(e.tag), p) then None
    else
      var g := OpenTagEnd(s, e, p);
      if g >= |s| || s[g] != '>' then None
      else
        var l := IndexOfFrom(s, '<', g + 1);
        if l == g + 1 || !OccursAt(s, CloseTag(e.tag), l) then None
        else Some((g, l))
  }

  /** `MatchAt` finds the match anchored at `p` whenever there is one, and only a real match. */
  lemma MatchAtSpec(s: string, e: Element, p: nat)
    ensures MatchAt(s, e, p).Some? ==> MatchesAt(s, e, p, MatchAt(s, e, p).value.0, MatchAt(s, e, p).value.1)
    ensures forall g: nat, l: nat :: MatchesAt(s, e, p, g, l) ==> MatchAt(s, e, p) == Some((g, l))
  {
    forall g: nat, l: nat | MatchesAt(s, e, p, g, l)
      ensures MatchAt(s, e, p) == Some((g, l))
    {
      MatchesAtDetermined(s, e, p, g, l);
    }
  }

  /** The leftmost match of `e` that starts at or after `from`, as (start, end of open tag, end of text). */
  function FirstMatch(s: string, e: Element, from: nat): (r: Option<(nat, nat, nat)>)
    ensures r.Some? ==> from <= r.value.0 < r.value.1 && r.value.1 + 1 < r.value.2 <= |s|
    decreases |s| - from
  {
    if from >= |s| then None
    else
      match MatchAt(s, e, from)
      case Some((g, l)) => Some((from, g, l))
      case None => FirstMatch(s, e, from + 1)
  }

  /** What `FirstMatch` reports is the match anchored at the position it reports. */
  lemma {:induction false} FirstMatchFound(s: string, e: Element, from: nat)
    ensures var r := FirstMatch(s, e, from);
      r.Some? ==> MatchAt(s, e, r.value.0) == Some((r.value.1, r.value.2))
    decreases |s| - from
  {
    if from < |s| && MatchAt(s, e, from).None? {
      FirstMatchFound(s, e, from + 1);
    }
  }

  /** `FirstMatch` skips no match: `MatchAt` fails at every position before the one it reports. */
  lemma {:induction false} FirstMatchSkips(s: string, e: Element, from: nat, q: nat)
    requires from <= q < |s|
    requires FirstMatch(s, e, from).None? || q < FirstMatch(s, e, from).value.0
    ensures MatchAt(s, e, q).None?
    decreases q - from
  {
    if q > from {
      FirstMatchSkips(s, e, from + 1, q);
    }
  }

  /** No match starts at or past the end of the text. */
  lemma NoMatchAtEnd(s: string, e: Element, q: nat, g: nat, l: nat)
    requires q >= |s|
    ensures !MatchesAt(s, e, q, g, l)
  {
    assert |OpenStart(e.tag)| == 1 + |e.tag|;
  }

  /** A match at `p` with no match starting before it: the one `String.prototype.match` reports. */
  ghost predicate Leftmost(s: string, e: Element, p: nat, g: nat, l: nat) {
    && MatchesAt(s, e, p, g, l)
    && forall q: nat, g': nat, l': nat :: q < p ==> !MatchesAt(s, e, q, g', l')
  }

  /** The captured group of `s.match(pattern of e)`, or `None` when the pattern does not match. */
  function MatchedText(s: string, e: Element): (r: Option<string>)
    ensures r.Some? ==> r.value != []
  {
    match FirstMatch(s, e, 0)
    case None => None
    case Some((p, g, l)) => Some(s[g + 1..l])
  }

  /**
   * `MatchedText` succeeds exactly when the pattern matches somewhere, and
   * then captures the text of the leftmost match: non-empty and without `<`.
   */
  lemma MatchedTextSpec(s: string, e: Element)
    ensures MatchedText(s, e).Some? <==> exists p: nat, g: nat, l: nat :: MatchesAt(s, e, p, g, l)
    ensures MatchedText(s, e).Some? ==>
      exists p: nat, g: nat, l: nat :: Leftmost(s, e, p, g, l) && l <= |s| && MatchedText(s, e).value == s[g + 1..l]
    ensures MatchedText(s, e).Some? ==> '<' !in MatchedText(s, e).value
  {
    match FirstMatch(s, e, 0)
    case None => NoFirstMatch(s, e);
    case Some((p, g, l)) => FirstMatchLeftmost(s, e, p, g, l);
  }

  /** When `FirstMatch` finds nothing, the pattern matches nowhere. */
  lemma NoFirstMatch(s: string, e: Element)
    requires FirstMatch(s, e, 0).None?
    ensures forall q: nat, g: nat, l: nat :: !MatchesAt(s, e, q, g, l)
  {
    forall q: nat, g: nat, l: nat
      ensures !MatchesAt(s, e, q, g, l)
    {
      if q < |s| {
        FirstMatchSkips(s, e, 0, q);
        MatchAtSpec(s, e, q);
      } else {
        NoMatchAtEnd(s, e, q, g, l);
      }
    }
  }

  /** What `FirstMatch` finds is the leftmost match, and its text has no `<`. */
  lemma FirstMatchLeftmost(s: string, e: Element, p: nat, g: nat, l: nat)
    requires FirstMatch(s, e, 0) == Some((p, g, l))
    ensures Leftmost(s, e, p, g, l) && g + 1 <= l <= |s|
    ensures MatchedText(s, e) == Some(s[g + 1..l]) && '<' !in s[g + 1..l]
  {
    assert MatchesAt(s, e, p, g, l) by {
      FirstMatchFound(s, e, 0);
      MatchAtSpec(s, e, p);
    }
    forall q: nat, g': nat, l': nat | q < p
      ensures !MatchesAt(s, e, q, g', l')
    {
      FirstMatchSkips(s, e, 0, q);
      MatchAtSpec(s, e, q);
    }
    MatchedTextHasNoOpen(s, e, p, g, l);
  }

  /** The captured text of a match has no `<`. */
  lemma MatchedTextHasNoOpen(s: string, e: Element, p: nat, g: nat, l: nat)
    requires MatchesAt(s, e, p, g, l)
    ensures g + 1 <= l <= |s| && '<' !in s[g + 1..l]
  {
    var t := s[g + 1..l];
    assert forall k :: 0 <= k < |t| ==> t[k] == s[g + 1 + k];
  }

  /**
   * `extractXmlTagContent(xml, tagName)`: the trimmed text of the first
   * `<tagName …>text</tagName>`; the open tag may carry attributes, the text
   * is non-empty and has no `<`. The trimmed result may still be empty.
   */
  function ExtractTagContent(xml: string, tagName: string): Option<string> {
    match MatchedText(xml, Element(tagName, true))
    case None => None
    case Some(t) => Some(Trim(t))
  }

  /**
   * `ExtractTagContent` succeeds exactly when the pattern matches, and then
   * holds the trimmed text of the leftmost match, which has no `<` and which
   * trimming leaves as it is.
   */
  lemma ExtractTagContentSpec(xml: string, tagName: string)
    ensures ExtractTagContent(xml, tagName).Some? <==> exists p: nat, g: nat, l: nat :: MatchesAt(xml, Element(tagName, true), p, g, l)
    ensures ExtractTagContent(xml, tagName).Some? ==> exists p: nat, g: nat, l: nat ::
      Leftmost(xml, Element(tagName, true), p, g, l) && l <= |xml| && ExtractTagContent(xml, tagName).value == Trim(xml[g + 1..l])
    ensures ExtractTagContent(xml, tagName).Some? ==>
      var r := ExtractTagContent(xml, tagName).value; '<' !in r && Trim(r) == r
  {
    MatchedTextSpec(xml, Element(tagName, true));
    if MatchedText(xml, Element(tagName, true)).Some? {
      var t := MatchedText(xml, Element(tagName, true)).value;
      TrimIdempotent(t);
      TrimSpec(t);
    }
  }

  /**
   * An element written at the front of a document is the one the pattern
   * finds: the text of `<tag attrs>text</tag>` is `text`, whatever follows.
   */
  lemma MatchedTextOfElement(e: Element, attrs: string, text: string, rest: string)
    requires e.attributes || attrs == []
    requires '>' !in attrs && text != [] && '<' !in text
    ensures MatchedText(OpenStart(e.tag) + attrs + ">" + text + CloseTag(e.tag) + rest, e) == Some(text)
  {
    var s := OpenStart(e.tag) + attrs + ">" + text + CloseTag(e.tag) + rest;
    var a := 1 + |e.tag|;
    var g := a + |attrs|;
    var l := g + 1 + |text|;
    assert s[g + 1..l] == text;
    assert MatchesAt(s, e, 0, g, l) by {
      assert s[..a] == OpenStart(e.tag);
      assert s[a..g] == attrs;
      assert forall k :: a <= k < g ==> s[k] == s[a..g][k - a];
      assert s[g] == '>';
      assert forall k :: g + 1 <= k < l ==> s[k] == s[g + 1..l][k - g - 1];
      assert s[l..l + |CloseTag(e.tag)|] == CloseTag(e.tag);
    }
    assert FirstMatch(s, e, 0) == Some((0, g, l)) by {
      MatchAtSpec(s, e, 0);
    }
  }

  /** `ExtractTagContent` on such an element is the trimmed text. */
  lemma ExtractTagContentOfElement(tagName: string, attrs: string, text: string, rest: string)
    requires '>' !in attrs && text != [] && '<' !in text
    ensures ExtractTagContent(OpenStart(tagName) + attrs + ">" + text + CloseTag(tagName) + rest, tagName) == Some(Trim(text))
  {
    MatchedTextOfElement(Element(tagName, true), attrs, text, rest);
  }
}
