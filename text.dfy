/**
 * The JavaScript string operations the two route handlers rely on:
 * `trim`, `includes`, `startsWith`, `split` with a one-character separator,
 * `join`, and the string order used for the last sort key.
 */
module Text {
  import opened Wrappers

  /** The WhiteSpace and LineTerminator code points that `String.prototype.trim` removes. */
  predicate IsSpace(c: char) {
    c == '\t' || c == '\n' || c == '\U{000B}' || c == '\U{000C}' || c == '\r' || c == ' '
    || c == '\U{00A0}' || c == '\U{1680}' || ('\U{2000}' <= c <= '\U{200A}')
    || c == '\U{2028}' || c == '\U{2029}' || c == '\U{202F}' || c == '\U{205F}'
    || c == '\U{3000}' || c == '\U{FEFF}'
  }

  predicate AllSpace(s: string) {
    forall k :: 0 <= k < |s| ==> IsSpace(s[k])
  }

  /** Number of whitespace characters at the front of `s`. */
  function LeadingSpaces(s: string): (n: nat)
    ensures n <= |s|
    ensures AllSpace(s[..n])
    ensures n < |s| ==> !IsSpace(s[n])
  {
    if s != [] && IsSpace(s[0]) then
      var n := 1 + LeadingSpaces(s[1..]);
      assert s[..n] == [s[0]] + s[1..][..n - 1];
      n
    else 0
  }

  /** Number of whitespace characters at the back of `s`. */
  function TrailingSpaces(s: string): (n: nat)
    ensures n <= |s|
    ensures AllSpace(s[|s| - n..])
    ensures n < |s| ==> !IsSpace(s[|s| - 1 - n])
  {
    if s != [] && IsSpace(s[|s| - 1]) then
      var n := 1 + TrailingSpaces(s[..|s| - 1]);
      assert s[|s| - n..] == s[..|s| - 1][|s| - n..] + [s[|s| - 1]];
      n
    else 0
  }

  /**
   * `r` is what remains of `s` once all leading and trailing whitespace is removed:
   * it starts at offset `i`, everything around it is whitespace and it neither
   * starts nor ends with whitespace.
   */
  ghost predicate TrimmedAt(s: string, i: nat, r: string) {
    && i + |r| <= |s|
    && s[i..i + |r|] == r
    && (forall k :: 0 <= k < i ==> IsSpace(s[k]))
    && (forall k :: i + |r| <= k < |s| ==> IsSpace(s[k]))
    && (r != [] ==> !IsSpace(r[0]) && !IsSpace(r[|r| - 1]))
  }

  /** `String.prototype.trim`; `TrimSpec` states what it removes. */
  function Trim(s: string): (r: string)
    ensures |r| <= |s|
  {
    var i := LeadingSpaces(s);
    var t := s[i..];
    t[..|t| - TrailingSpaces(t)]
  }

  /** `Trim` keeps the text between the leading and the trailing whitespace, and adds no character. */
  lemma TrimSpec(s: string)
    ensures TrimmedAt(s, LeadingSpaces(s), Trim(s))
    ensures forall c :: c in Trim(s) ==> c in s
  {
    var i := LeadingSpaces(s);
    var t := s[i..];
    var j := TrailingSpaces(t);
    TrimmedBetween(s, i, t, j);
  }

  /** What is left between `i` leading and `j` trailing whitespace characters is the trimmed form. */
  lemma TrimmedBetween(s: string, i: nat, t: string, j: nat)
    requires i <= |s| && t == s[i..] && j <= |t|
    requires AllSpace(s[..i]) && (i < |s| ==> !IsSpace(s[i]))
    requires AllSpace(t[|t| - j..]) && (j < |t| ==> !IsSpace(t[|t| - 1 - j]))
    ensures TrimmedAt(s, i, t[..|t| - j])
    ensures forall c :: c in t[..|t| - j] ==> c in s
  {
    var r := t[..|t| - j];
    assert s[i..i + |r|] == r;
    assert forall k :: 0 <= k < i ==> IsSpace(s[k]) by {
      forall k | 0 <= k < i ensures IsSpace(s[k]) { assert s[..i][k] == s[k]; }
    }
    assert forall k :: i + |r| <= k < |s| ==> IsSpace(s[k]) by {
      var tail := t[|t| - j..];
      forall k | i + |r| <= k < |s| ensures IsSpace(s[k]) {
        assert tail[k - i - |r|] == t[k - i];
      }
    }
    if r != [] {
      assert r[0] == s[i];
      assert r[|r| - 1] == t[|t| - 1 - j];
    }
    assert forall c :: c in r ==> c in s by {
      forall c | c in r ensures c in s {
        var k :| 0 <= k < |r| && r[k] == c;
        assert s[i + k] == c;
      }
    }
  }

  /** Only one string is the trimmed form of `s`, so `Trim` is fully determined by `TrimmedAt`. */
  lemma TrimmedAtUnique(s: string, i1: nat, r1: string, i2: nat, r2: string)
    requires TrimmedAt(s, i1, r1) && TrimmedAt(s, i2, r2)
    ensures r1 == r2
  {
    // A non-empty trimmed form starts at the first and ends at the last non-space character.
    if r1 != [] { assert s[i1] == r1[0] && s[i1 + |r1| - 1] == r1[|r1| - 1]; }
    if r2 != [] { assert s[i2] == r2[0] && s[i2 + |r2| - 1] == r2[|r2| - 1]; }
  }

  /** Trimming twice is trimming once. */
  lemma TrimIdempotent(s: string)
    ensures Trim(Trim(s)) == Trim(s)
  {
    var r := Trim(s);
    TrimSpec(s);
    TrimUnchanged(r);
  }

  /** A string without whitespace at either end is its own trimmed form. */
  lemma TrimUnchanged(s: string)
    requires s != [] ==> !IsSpace(s[0]) && !IsSpace(s[|s| - 1])
    ensures Trim(s) == s
  {
    assert TrimmedAt(s, 0, s) by {
      assert s[..0] == [] && s[|s|..] == [];
    }
    TrimSpec(s);
    TrimmedAtUnique(s, 0, s, LeadingSpaces(s), Trim(s));
  }

  /** `pat` occurs in `s` starting at index `i`. */
  predicate OccursAt(s: string, pat: string, i: nat) {
    i + |pat| <= |s| && s[i..i + |pat|] == pat
  }

  /** `s.indexOf(pat, from)`: the first occurrence of `pat` at or after `from`. */
  function FindFrom(s: string, pat: string, from: nat): (r: Option<nat>)
    ensures r.Some? ==> from <= r.value && OccursAt(s, pat, r.value)
    ensures r.Some? ==> forall k :: from <= k < r.value ==> !OccursAt(s, pat, k)
    ensures r.None? ==> forall k: nat :: from <= k ==> !OccursAt(s, pat, k)
    decreases |s| - from
  {
    if from + |pat| > |s| then None
    else if s[from..from + |pat|] == pat then Some(from)
    else FindFrom(s, pat, from + 1)
  }

  function Find(s: string, pat: string): Option<nat> {
    FindFrom(s, pat, 0)
  }

  /** The first occurrence is the one `Find` reports. */
  lemma FindFirst(s: string, pat: string, i: nat)
    requires OccursAt(s, pat, i)
    requires forall k: nat :: k < i ==> !OccursAt(s, pat, k)
    ensures Find(s, pat) == Some(i)
  {
  }

  /** `s.includes(pat)`. */
  function Contains(s: string, pat: string): (b: bool)
    ensures b <==> exists i: nat :: OccursAt(s, pat, i)
  {
    Find(s, pat).Some?
  }

  /** A pattern with a character that `s` lacks occurs nowhere in `s`. */
  lemma NotContainsMissingChar(s: string, pat: string, c: char)
    requires c in pat && c !in s
    ensures !Contains(s, pat)
  {
    var k :| 0 <= k < |pat| && pat[k] == c;
    forall i: nat | i + |pat| <= |s|
      ensures !OccursAt(s, pat, i)
    {
      assert s[i..i + |pat|][k] == s[i + k];
    }
  }

  /** An occurrence inside a prefix of `u` is an occurrence in `u`, and conversely. */
  lemma OccursInPrefix(t: string, u: string, pat: string, k: nat)
    requires |t| <= |u| && t == u[..|t|]
    requires k + |pat| <= |t|
    ensures OccursAt(t, pat, k) <==> OccursAt(u, pat, k)
  {
    assert t[k..k + |pat|] == u[k..k + |pat|];
  }

  /** First index at or after `from` holding `c`, or `|s|` when there is none. */
  function IndexOfFrom(s: string, c: char, from: nat): (i: nat)
    requires from <= |s|
    ensures from <= i <= |s|
    ensures forall k :: from <= k < i ==> s[k] != c
    ensures i < |s| ==> s[i] == c
    decreases |s| - from
  {
    if from == |s| || s[from] == c then from else IndexOfFrom(s, c, from + 1)
  }

  /** `parts.join(sep)`. */
  function Join(parts: seq<string>, sep: char): string {
    if |parts| == 0 then ""
    else if |parts| == 1 then parts[0]
    else Join(parts[..|parts| - 1], sep) + [sep] + parts[|parts| - 1]
  }

  /**
   * `s.split(sep)` for a one-character separator, read from the back: a
   * separator starts a new, empty last part, any other character extends the
   * last part. `JoinSplit` and `SplitJoin` show that split and join are inverse.
   */
  function Split(s: string, sep: char): (parts: seq<string>)
    ensures |parts| >= 1
    ensures forall k :: 0 <= k < |parts| ==> sep !in parts[k]
    ensures |parts| == 1 <==> sep !in s
    decreases |s|
  {
    if s == [] then [""]
    else
      var init, c := s[..|s| - 1], s[|s| - 1];
      assert s == init + [c];
      var p := Split(init, sep);
      if c == sep then
        var parts := p + [""];
        assert parts[..|p|] == p;
        parts
      else
        var parts := p[..|p| - 1] + [p[|p| - 1] + [c]];
        assert |p| > 1 ==> parts[..|p| - 1] == p[..|p| - 1];
        assert sep in s <==> sep in init;
        parts
  }

  /** One more character: a separator starts a new, empty last part; any other character extends the last part. */
  lemma SplitSnoc(s: string, c: char, sep: char)
    ensures var p := Split(s, sep);
      Split(s + [c], sep) == if c == sep then p + [""] else p[..|p| - 1] + [p[|p| - 1] + [c]]
  {
    var t := s + [c];
    assert t[..|t| - 1] == s && t[|t| - 1] == c;
  }

  /** Joining one more part: a separator and the part follow the join of the others. */
  lemma JoinSnoc(front: seq<string>, x: string, sep: char)
    ensures Join(front + [x], sep) == if front == [] then x else Join(front, sep) + [sep] + x
  {
    var q := front + [x];
    assert q[..|q| - 1] == front && q[|q| - 1] == x;
  }

  /** Joining the parts of a split gives the text back. */
  lemma {:induction false} JoinSplit(s: string, sep: char)
    ensures Join(Split(s, sep), sep) == s
    decreases |s|, 1
  {
    if s != [] {
      var init, c := s[..|s| - 1], s[|s| - 1];
      assert s == init + [c];
      JoinSplitSnoc(init, c, sep);
    }
  }

  /** `JoinSplit` for a text with one more character. */
  lemma {:induction false} JoinSplitSnoc(init: string, c: char, sep: char)
    ensures Join(Split(init + [c], sep), sep) == init + [c]
    decreases |init| + 1, 0
  {
    JoinSplit(init, sep);
    SplitSnoc(init, c, sep);
    JoinNext(Split(init, sep), init, c, sep);
  }

  /** The join of the parts one more character gives (as `SplitSnoc` describes them) is the text with that character. */
  lemma JoinNext(p: seq<string>, text: string, c: char, sep: char)
    requires |p| >= 1 && Join(p, sep) == text
    ensures Join(if c == sep then p + [""] else p[..|p| - 1] + [p[|p| - 1] + [c]], sep) == text + [c]
  {
    var front, w := p[..|p| - 1], p[|p| - 1];
    assert p == front + [w];
    JoinSnoc(front, w, sep);
    if c == sep {
      JoinSnoc(p, "", sep);
      assert text + [sep] + "" == text + [c];
    } else {
      JoinSnoc(front, w + [c], sep);
      if front != [] {
        assert Join(front, sep) + [sep] + (w + [c]) == (Join(front, sep) + [sep] + w) + [c];
      }
    }
  }

  /** A trailing separator adds an empty last part. */
  lemma SplitSeparator(s: string, sep: char)
    ensures Split(s + [sep], sep) == Split(s, sep) + [""]
  {
    SplitSnoc(s, sep, sep);
  }

  /** Appending separator-free text extends the last part. */
  lemma {:induction false} SplitAppend(s: string, x: string, sep: char, front: seq<string>, w: string)
    requires Split(s, sep) == front + [w]
    requires sep !in x
    ensures Split(s + x, sep) == front + [w + x]
    decreases |x|
  {
    if x == [] {
      assert s + x == s;
      assert w + x == w;
    } else {
      var c, z := x[0], x[1..];
      var t := s + [c];
      assert t + z == s + x;
      assert (w + [c]) + z == w + x;
      assert c != sep && sep !in z;
      SplitSnoc(s, c, sep);
      ExtendLast(front, w, c);
      SplitAppend(t, z, sep, front, w + [c]);
    }
  }

  /** Extending the last part of a list of parts by one character. */
  lemma ExtendLast(front: seq<string>, w: string, c: char)
    ensures var q := front + [w];
      q[..|q| - 1] + [q[|q| - 1] + [c]] == front + [w + [c]]
  {
    var q := front + [w];
    assert q[..|q| - 1] == front;
  }

  /** The other half of the round trip: splitting a join of separator-free parts gives them back. */
  lemma {:induction false} SplitJoin(parts: seq<string>, sep: char)
    requires |parts| >= 1
    requires forall k :: 0 <= k < |parts| ==> sep !in parts[k]
    ensures Split(Join(parts, sep), sep) == parts
    decreases |parts|, 1
  {
    var init, x := parts[..|parts| - 1], parts[|parts| - 1];
    assert parts == init + [x];
    if init == [] {
      SplitAppend("", x, sep, [], "");
      assert "" + x == x;
    } else {
      assert forall k :: 0 <= k < |init| ==> sep !in init[k] by {
        forall k | 0 <= k < |init| ensures sep !in init[k] { assert init[k] == parts[k]; }
      }
      SplitJoinSnoc(init, x, sep);
    }
  }

  /** `SplitJoin` for one more part. */
  lemma {:induction false} SplitJoinSnoc(init: seq<string>, x: string, sep: char)
    requires |init| >= 1 && sep !in x
    requires forall k :: 0 <= k < |init| ==> sep !in init[k]
    ensures Split(Join(init + [x], sep), sep) == init + [x]
    decreases |init| + 1, 0
  {
    SplitJoin(init, sep);
    SplitJoinStep(init, x, sep);
  }

  /** One more part on a join that splits back. */
  lemma SplitJoinStep(init: seq<string>, x: string, sep: char)
    requires |init| >= 1 && sep !in x
    requires Split(Join(init, sep), sep) == init
    ensures Join(init + [x], sep) == Join(init, sep) + [sep] + x
    ensures Split(Join(init + [x], sep), sep) == init + [x]
  {
    var parts := init + [x];
    assert parts[..|parts| - 1] == init;
    var s := Join(init, sep) + [sep];
    SplitSeparator(Join(init, sep), sep);
    SplitAppend(s, x, sep, init, "");
    assert "" + x == x;
  }

  /**
   * Ordinal (code point by code point) comparison: negative when `a` comes
   * first, zero when equal, positive when `b` comes first.
   */
  function OrdinalCompare(a: string, b: string): (r: int)
    ensures -1 <= r <= 1
    ensures r == 0 <==> a == b
  {
    if a == [] then (if b == [] then 0 else -1)
    else if b == [] then 1
    else if a[0] < b[0] then -1
    else if b[0] < a[0] then 1
    else
      var r := OrdinalCompare(a[1..], b[1..]);
      assert a == [a[0]] + a[1..] && b == [b[0]] + b[1..];
      r
  }

  lemma {:induction false} OrdinalCompareAntisymmetric(a: string, b: string)
    ensures OrdinalCompare(a, b) == -OrdinalCompare(b, a)
  {
    if a != [] && b != [] && a[0] == b[0] {
      OrdinalCompareAntisymmetric(a[1..], b[1..]);
    }
  }

  lemma {:induction false} OrdinalCompareTransitive(a: string, b: string, c: string)
    requires OrdinalCompare(a, b) <= 0 && OrdinalCompare(b, c) <= 0
    ensures OrdinalCompare(a, c) <= 0
  {
    if a != [] && b != [] && c != [] && a[0] == b[0] && b[0] == c[0] {
      OrdinalCompareTransitive(a[1..], b[1..], c[1..]);
    }
  }

  /** A `string | null` that JavaScript reads as true: present and not empty. */
  predicate Truthy(s: Option<string>) {
    s.Some? && s.value != []
  }

  /** `!text || !text.trim().startsWith('<')`: the check both handlers make before scanning a document. */
  predicate MalformedXml(text: string) {
    text == [] || !("<" <= Trim(text))
  }
}
