/**
 * The sort of `app/api/getProductVersions/route.ts` (lines 127-142): the
 * comparator, newest version first, then newest build, then `core` before any
 * other type, then type order; and the in-place sort of the entry array.
 *
 * A comparator result below zero puts its first argument first. A build that
 * `parseInt` cannot read makes the build difference NaN, which the comparator
 * returns as it is and which `Array.prototype.sort` reads as "equal"; here
 * that is a `None` build in the entry's `SortKey` and `Compare` returning 0.
 */
module VersionOrder {
  import opened Wrappers
  import opened Text
  import opened JsNumber
  import opened VersionEntries

  /** `version.split('.').map(Number)`, each component read as by `Number(part) || 0`. */
  function VersionParts(version: string): seq<int> {
    Numbers(Split(version, '.'))
  }

  /** `parts.map(Number)`, each part read as by `Number(part) || 0`. */
  function Numbers(parts: seq<string>): (r: seq<int>)
    ensures |r| == |parts|
  {
    seq(|parts|, k requires 0 <= k < |parts| => NumberOrZero(parts[k]))
  }

  /** `parts[i] || 0`: a missing component counts as 0. */
  function PartAt(parts: seq<int>, i: nat): int {
    if i < |parts| then parts[i] else 0
  }

  function Max(m: nat, n: nat): nat {
    if m >= n then m else n
  }

  /**
   * The loop of lines 131-135 from index `i` up to `n`: `b`'s component minus
   * `a`'s at the first index where they differ, 0 when none does.
   */
  function DiffFrom(a: seq<int>, b: seq<int>, i: nat, n: nat): int
    decreases n - i
  {
    if i >= n then 0
    else if PartAt(a, i) != PartAt(b, i) then PartAt(b, i) - PartAt(a, i)
    else DiffFrom(a, b, i + 1, n)
  }

  /** The version key: the loop runs to the longer of the two component lists. */
  function VersionDiff(a: seq<int>, b: seq<int>): int {
    DiffFrom(a, b, 0, Max(|a|, |b|))
  }

  /** Lines 139-141: `core` before every other type, otherwise `localeCompare`, read as code point order. */
  function TypeOrder(s: string, t: string): int {
    if s == "core" && t != "core" then -1
    else if s != "core" && t == "core" then 1
    else OrdinalCompare(s, t)
  }

  /**
   * What the comparator reads of an entry: its version components, its build
   * as `parseInt` reads it (`None` for NaN) and its type.
   */
  datatype SortKey = SortKey(parts: seq<int>, build: Option<int>, kind: string)

  function KeyOf(e: VersionEntry): SortKey {
    SortKey(VersionParts(e.version), ParseInt(e.build), e.entryType)
  }

  /**
   * The comparator on keys. `parseInt(b.build, 10) - parseInt(a.build, 10)`
   * is NaN when either build is, and NaN is returned as it is and read as 0.
   */
  function CompareKeys(k: SortKey, l: SortKey): int {
    var v := VersionDiff(k.parts, l.parts);
    if v != 0 then v
    else if k.build.None? || l.build.None? then 0
    else if l.build.value - k.build.value != 0 then l.build.value - k.build.value
    else TypeOrder(k.kind, l.kind)
  }

  /** The comparator of lines 128-142. */
  function Compare(x: VersionEntry, y: VersionEntry): int {
    CompareKeys(KeyOf(x), KeyOf(y))
  }

  /** The body of the comparator: the index loop over the components, then the build, then the type. */
  method CompareKeysInOrder(a: SortKey, b: SortKey) returns (r: int)
    ensures r == CompareKeys(a, b)
  {
    var n := Max(|a.parts|, |b.parts|);
    var i := 0;
    while i < n
      invariant 0 <= i <= n
      invariant VersionDiff(a.parts, b.parts) == DiffFrom(a.parts, b.parts, i, n)
    {
      var aPart := PartAt(a.parts, i);
      var bPart := PartAt(b.parts, i);
      if aPart != bPart {
        return bPart - aPart;
      }
      i := i + 1;
    }
    if a.build.None? || b.build.None? {
      return 0;
    }
    var buildDiff := b.build.value - a.build.value;
    if buildDiff != 0 {
      return buildDiff;
    }
    if a.kind == "core" && b.kind != "core" {
      return -1;
    }
    if a.kind != "core" && b.kind == "core" {
      return 1;
    }
    r := OrdinalCompare(a.kind, b.kind);
  }

  // ---------------------------------------------------------------------------
  // The version key

  /** The version key is zero exactly when the padded component lists agree. */
  lemma {:induction false} DiffFromZero(a: seq<int>, b: seq<int>, i: nat, n: nat)
    ensures DiffFrom(a, b, i, n) == 0 <==> forall k :: i <= k < n ==> PartAt(a, k) == PartAt(b, k)
    decreases n - i
  {
    if i < n {
      DiffFromZero(a, b, i + 1, n);
    }
  }

  /** A larger component at the first difference decides for the newer version. */
  lemma {:induction false} DiffFromNewer(a: seq<int>, b: seq<int>, i: nat, n: nat, m: nat)
    requires i <= m < n
    requires forall k :: i <= k < m ==> PartAt(a, k) == PartAt(b, k)
    requires PartAt(a, m) > PartAt(b, m)
    ensures DiffFrom(a, b, i, n) == PartAt(b, m) - PartAt(a, m) < 0
    decreases m - i
  {
    if i < m {
      DiffFromNewer(a, b, i + 1, n, m);
    }
  }

  /** Past both lists every component is 0, so the loop bound does not matter once it covers both. */
  lemma {:induction false} DiffFromBound(a: seq<int>, b: seq<int>, i: nat, n: nat)
    requires n >= Max(|a|, |b|)
    ensures DiffFrom(a, b, i, n) == DiffFrom(a, b, i, Max(|a|, |b|))
    decreases n - i
  {
    if i < n {
      DiffFromBound(a, b, i + 1, n);
      if i >= Max(|a|, |b|) {
        DiffFromZero(a, b, i, n);
      }
    }
  }

  lemma {:induction false} DiffFromAntisymmetric(a: seq<int>, b: seq<int>, i: nat, n: nat)
    ensures DiffFrom(a, b, i, n) == -DiffFrom(b, a, i, n)
    decreases n - i
  {
    if i < n {
      DiffFromAntisymmetric(a, b, i + 1, n);
    }
  }

  /** The version key orders component lists like a total preorder. */
  lemma {:induction false} DiffFromTransitive(a: seq<int>, b: seq<int>, c: seq<int>, i: nat, n: nat)
    ensures DiffFrom(a, b, i, n) <= 0 && DiffFrom(b, c, i, n) <= 0 ==> DiffFrom(a, c, i, n) <= 0
    ensures DiffFrom(a, b, i, n) == 0 && DiffFrom(b, c, i, n) == 0 ==> DiffFrom(a, c, i, n) == 0
    ensures DiffFrom(a, b, i, n) < 0 && DiffFrom(b, c, i, n) <= 0 ==> DiffFrom(a, c, i, n) < 0
    ensures DiffFrom(a, b, i, n) <= 0 && DiffFrom(b, c, i, n) < 0 ==> DiffFrom(a, c, i, n) < 0
    decreases n - i
  {
    if i < n {
      DiffFromTransitive(a, b, c, i + 1, n);
    }
  }

  /** Two versions tie exactly when their components agree, a missing component counting as 0. */
  lemma VersionDiffZero(a: seq<int>, b: seq<int>)
    ensures VersionDiff(a, b) == 0 <==> forall k: nat :: PartAt(a, k) == PartAt(b, k)
  {
    DiffFromZero(a, b, 0, Max(|a|, |b|));
  }

  /** The version with the larger component at the first difference comes first. */
  lemma VersionDiffNewer(a: seq<int>, b: seq<int>, m: nat)
    requires forall k :: 0 <= k < m ==> PartAt(a, k) == PartAt(b, k)
    requires PartAt(a, m) > PartAt(b, m)
    ensures VersionDiff(a, b) < 0
  {
    var n := Max(|a|, |b|);
    DiffFromBound(a, b, 0, Max(n, m + 1));
    DiffFromNewer(a, b, 0, Max(n, m + 1), m);
  }

  /** The version key of three lists, compared over one common bound. */
  lemma VersionDiffTransitive(a: seq<int>, b: seq<int>, c: seq<int>)
    ensures VersionDiff(a, b) <= 0 && VersionDiff(b, c) <= 0 ==> VersionDiff(a, c) <= 0
    ensures VersionDiff(a, b) == 0 && VersionDiff(b, c) == 0 ==> VersionDiff(a, c) == 0
    ensures VersionDiff(a, b) < 0 && VersionDiff(b, c) <= 0 ==> VersionDiff(a, c) < 0
    ensures VersionDiff(a, b) <= 0 && VersionDiff(b, c) < 0 ==> VersionDiff(a, c) < 0
  {
    var n := Max(Max(|a|, |b|), |c|);
    DiffFromBound(a, b, 0, n);
    DiffFromBound(b, c, 0, n);
    DiffFromBound(a, c, 0, n);
    DiffFromTransitive(a, b, c, 0, n);
  }

  // ---------------------------------------------------------------------------
  // The comparator

  lemma TypeOrderAntisymmetric(s: string, t: string)
    ensures TypeOrder(s, t) == -TypeOrder(t, s)
  {
    OrdinalCompareAntisymmetric(s, t);
  }

  lemma TypeOrderTransitive(s: string, t: string, u: string)
    requires TypeOrder(s, t) <= 0 && TypeOrder(t, u) <= 0
    ensures TypeOrder(s, u) <= 0
  {
    if s != "core" && t != "core" && u != "core" {
      OrdinalCompareTransitive(s, t, u);
    }
  }

  lemma CompareKeysAntisymmetric(k: SortKey, l: SortKey)
    ensures CompareKeys(k, l) == -CompareKeys(l, k)
  {
    DiffFromAntisymmetric(k.parts, l.parts, 0, Max(|k.parts|, |l.parts|));
    assert Max(|k.parts|, |l.parts|) == Max(|l.parts|, |k.parts|);
    TypeOrderAntisymmetric(k.kind, l.kind);
  }

  lemma CompareKeysTransitive(k: SortKey, l: SortKey, m: SortKey)
    requires k.build.Some? && l.build.Some? && m.build.Some?
    requires CompareKeys(k, l) <= 0 && CompareKeys(l, m) <= 0
    ensures CompareKeys(k, m) <= 0
  {
    VersionDiffTransitive(k.parts, l.parts, m.parts);
    if VersionDiff(k.parts, l.parts) == 0 && VersionDiff(l.parts, m.parts) == 0
      && k.build == l.build && l.build == m.build
    {
      TypeOrderTransitive(k.kind, l.kind, m.kind);
    }
  }

  /** Swapping the arguments negates the result; in particular every entry ties with itself. */
  lemma CompareAntisymmetric(x: VersionEntry, y: VersionEntry)
    ensures Compare(x, y) == -Compare(y, x)
  {
    CompareKeysAntisymmetric(KeyOf(x), KeyOf(y));
  }

  /** The build is a number `parseInt` can read. */
  predicate NumericBuild(e: VersionEntry) {
    ParseInt(e.build).Some?
  }

  /** When every build is numeric the comparator is transitive, so it is a total preorder. */
  lemma CompareTransitive(x: VersionEntry, y: VersionEntry, z: VersionEntry)
    requires NumericBuild(x) && NumericBuild(y) && NumericBuild(z)
    requires Compare(x, y) <= 0 && Compare(y, z) <= 0
    ensures Compare(x, z) <= 0
  {
    CompareKeysTransitive(KeyOf(x), KeyOf(y), KeyOf(z));
  }

  /** The keys in turn: the newer version comes first (line 134). */
  lemma KeysNewerVersionFirst(k: SortKey, l: SortKey, m: nat)
    requires forall i :: 0 <= i < m ==> PartAt(k.parts, i) == PartAt(l.parts, i)
    requires PartAt(k.parts, m) > PartAt(l.parts, m)
    ensures CompareKeys(k, l) < 0
  {
    VersionDiffNewer(k.parts, l.parts, m);
  }

  /** Then, among equal versions, the larger build comes first (lines 136-137). */
  lemma KeysNewerBuildFirst(k: SortKey, l: SortKey)
    requires forall i: nat :: PartAt(k.parts, i) == PartAt(l.parts, i)
    requires k.build.Some? && l.build.Some? && k.build.value > l.build.value
    ensures CompareKeys(k, l) < 0
  {
    VersionDiffZero(k.parts, l.parts);
  }

  /** Then, among equal versions and builds, `core` comes first and the rest by type (lines 139-141). */
  lemma KeysTypeDecidesTies(k: SortKey, l: SortKey)
    requires forall i: nat :: PartAt(k.parts, i) == PartAt(l.parts, i)
    requires k.build.Some? && k.build == l.build
    ensures CompareKeys(k, l) == TypeOrder(k.kind, l.kind)
  {
    VersionDiffZero(k.parts, l.parts);
  }

  /** A build `parseInt` cannot read ties equal versions whatever their types. */
  lemma KeysNaNBuildTies(k: SortKey, l: SortKey)
    requires forall i: nat :: PartAt(k.parts, i) == PartAt(l.parts, i)
    requires k.build.None? || l.build.None?
    ensures CompareKeys(k, l) == 0
  {
    VersionDiffZero(k.parts, l.parts);
  }

  /** `KeysNewerVersionFirst` for entries. */
  lemma NewerVersionFirst(x: VersionEntry, y: VersionEntry, m: nat)
    requires forall k :: 0 <= k < m ==> PartAt(VersionParts(x.version), k) == PartAt(VersionParts(y.version), k)
    requires PartAt(VersionParts(x.version), m) > PartAt(VersionParts(y.version), m)
    ensures Compare(x, y) < 0
  {
    KeysNewerVersionFirst(KeyOf(x), KeyOf(y), m);
  }

  /** `KeysNewerBuildFirst` for entries. */
  lemma NewerBuildFirst(x: VersionEntry, y: VersionEntry)
    requires forall k: nat :: PartAt(VersionParts(x.version), k) == PartAt(VersionParts(y.version), k)
    requires ParseInt(x.build).Some? && ParseInt(y.build).Some?
    requires ParseInt(x.build).value > ParseInt(y.build).value
    ensures Compare(x, y) < 0
  {
    KeysNewerBuildFirst(KeyOf(x), KeyOf(y));
  }

  /** `KeysTypeDecidesTies` for entries. */
  lemma TypeDecidesTies(x: VersionEntry, y: VersionEntry)
    requires forall k: nat :: PartAt(VersionParts(x.version), k) == PartAt(VersionParts(y.version), k)
    requires ParseInt(x.build).Some? && ParseInt(x.build) == ParseInt(y.build)
    ensures Compare(x, y) == TypeOrder(x.entryType, y.entryType)
    ensures x.entryType == "core" && y.entryType != "core" ==> Compare(x, y) < 0
  {
    KeysTypeDecidesTies(KeyOf(x), KeyOf(y));
  }

  /** `KeysNaNBuildTies` for entries. */
  lemma NaNBuildTies(x: VersionEntry, y: VersionEntry)
    requires forall k: nat :: PartAt(VersionParts(x.version), k) == PartAt(VersionParts(y.version), k)
    requires !NumericBuild(x) || !NumericBuild(y)
    ensures Compare(x, y) == 0
  {
    KeysNaNBuildTies(KeyOf(x), KeyOf(y));
  }

  // ---------------------------------------------------------------------------
  // Numeric, not lexical; missing components count as 0

  /** A component made of digits is read as their decimal value. */
  lemma NumberOrZeroDigits(s: string)
    requires AllDigits(s)
    ensures NumberOrZero(s) == DigitsValue(s)
  {
    TrimUnchanged(s);
  }

  lemma NumberOfZero()
    ensures NumberOrZero("0") == 0
  {
    NumberOrZeroDigits("0");
    assert "0"[..0] == "";
  }

  /**
   * A first component with more digits (and no leading zero) is the newer
   * version, whatever the digits: "10.0.0" comes before "9.9.9".
   */
  lemma MoreDigitsFirst(x: VersionEntry, y: VersionEntry)
    requires AllDigits(Split(x.version, '.')[0]) && AllDigits(Split(y.version, '.')[0])
    requires |Split(x.version, '.')[0]| > |Split(y.version, '.')[0]|
    requires Split(x.version, '.')[0][0] != '0'
    ensures Compare(x, y) < 0
  {
    var p, q := Split(x.version, '.')[0], Split(y.version, '.')[0];
    NumberOrZeroDigits(p);
    NumberOrZeroDigits(q);
    LongerNumberIsLarger(p, q);
    assert PartAt(VersionParts(x.version), 0) == DigitsValue(p);
    assert PartAt(VersionParts(y.version), 0) == DigitsValue(q);
    NewerVersionFirst(x, y, 0);
  }

  /** Appending a ".0" component never changes a version: "17.5" ties "17.5.0". */
  lemma TrailingZeroTies(v: string)
    ensures VersionDiff(VersionParts(v), VersionParts(v + ".0")) == 0
  {
    assert v + ".0" == v + "." + "0";
    VersionPartsAppend(v, "0");
    NumberOfZero();
    TrailingZeroDiff(VersionParts(v));
  }

  /** A trailing 0 component leaves the version key at zero. */
  lemma TrailingZeroDiff(a: seq<int>)
    ensures VersionDiff(a, a + [0]) == 0
  {
    var b := a + [0];
    forall k: nat
      ensures PartAt(a, k) == PartAt(b, k)
    {
      if k < |a| {
        assert b[k] == a[k];
      }
    }
    VersionDiffZero(a, b);
  }

  /** A further dot-free component adds one number at the end. */
  lemma VersionPartsAppend(v: string, c: string)
    requires '.' !in c
    ensures VersionParts(v + "." + c) == VersionParts(v) + [NumberOrZero(c)]
  {
    var parts := Split(v, '.');
    assert Split(v + "." + c, '.') == parts + [c] by {
      SplitSeparator(v, '.');
      assert v + "." + c == (v + ".") + c;
      SplitAppend(v + ".", c, '.', parts, "");
      assert "" + c == c;
    }
    NumbersSnoc(parts, c);
  }

  /** One more part adds its number at the end. */
  lemma NumbersSnoc(parts: seq<string>, c: string)
    ensures Numbers(parts + [c]) == Numbers(parts) + [NumberOrZero(c)]
  {
    var longer := parts + [c];
    var a, b := Numbers(longer), Numbers(parts) + [NumberOrZero(c)];
    forall k | 0 <= k < |a|
      ensures a[k] == b[k]
    {
      if k < |parts| {
        assert longer[k] == parts[k];
      }
    }
  }

  /**
   * Without numeric builds the comparator is not transitive: with the same
   * version and type, builds "3" and "5" are ordered but "n/a" ties with both.
   */
  lemma NaNBuildBreaksTransitivity()
    ensures var x := VersionEntry("a", "", "a", "1", "3", "", "core");
            var y := VersionEntry("b", "", "b", "1", "n/a", "", "core");
            var z := VersionEntry("c", "", "c", "1", "5", "", "core");
            Compare(x, y) == 0 && Compare(y, z) == 0 && Compare(x, z) > 0
  {
    var x := VersionEntry("a", "", "a", "1", "3", "", "core");
    var y := VersionEntry("b", "", "b", "1", "n/a", "", "core");
    var z := VersionEntry("c", "", "c", "1", "5", "", "core");
    var v := VersionParts("1");
    assert VersionDiff(v, v) == 0 by {
      VersionDiffZero(v, v);
    }
    assert KeyOf(x) == SortKey(v, Some(3), "core") by {
      ParseIntDigits("3");
    }
    assert KeyOf(y) == SortKey(v, None, "core") by {
      ParseIntNaN("n/a");
    }
    assert KeyOf(z) == SortKey(v, Some(5), "core") by {
      ParseIntDigits("5");
    }
  }

  // ---------------------------------------------------------------------------
  // The sort

  /** Every pair of neighbours in `s[lo..hi]` is in `cmp` order. */
  predicate PairsSortedBy<T>(s: seq<T>, lo: nat, hi: nat, cmp: (T, T) -> int)
    requires hi <= |s|
  {
    forall k :: lo <= k && k + 1 < hi ==> cmp(s[k], s[k + 1]) <= 0
  }

  /** Every earlier element is in `cmp` order with every later one. */
  predicate SortedBy<T>(s: seq<T>, cmp: (T, T) -> int) {
    forall i, j :: 0 <= i < j < |s| ==> cmp(s[i], s[j]) <= 0
  }

  ghost predicate Antisymmetric<T(!new)>(cmp: (T, T) -> int) {
    forall x, y :: cmp(x, y) == -cmp(y, x)
  }

  /** `cmp` is transitive on the elements of `s`. */
  ghost predicate TransitiveOn<T>(s: seq<T>, cmp: (T, T) -> int) {
    forall i, j, k :: 0 <= i < |s| && 0 <= j < |s| && 0 <= k < |s| && cmp(s[i], s[j]) <= 0 && cmp(s[j], s[k]) <= 0
      ==> cmp(s[i], s[k]) <= 0
  }

  /** With a comparator transitive on the elements, neighbours in order means the whole sequence is in order. */
  lemma {:induction false} PairsSortedIsSorted<T>(s: seq<T>, cmp: (T, T) -> int)
    requires PairsSortedBy(s, 0, |s|, cmp) && TransitiveOn(s, cmp)
    ensures SortedBy(s, cmp)
    decreases |s|
  {
    if |s| > 1 {
      var init := s[..|s| - 1];
      var last := |s| - 1;
      assert PairsSortedBy(init, 0, |init|, cmp);
      assert TransitiveOn(init, cmp) by {
        forall i, j, k | 0 <= i < |init| && 0 <= j < |init| && 0 <= k < |init|
          ensures init[i] == s[i] && init[j] == s[j] && init[k] == s[k]
        {
        }
      }
      PairsSortedIsSorted(init, cmp);
      forall i, j | 0 <= i < j < |s|
        ensures cmp(s[i], s[j]) <= 0
      {
        if j < last {
          assert cmp(init[i], init[j]) <= 0;
        } else if i < last - 1 {
          assert cmp(init[i], init[last - 1]) <= 0;
          assert cmp(s[last - 1], s[last]) <= 0;
        }
      }
    }
  }

  /**
   * `Array.prototype.sort(comparefn)` on an array, as an insertion sort that
   * swaps each new element towards the front while its left neighbour must
   * come after it. For an antisymmetric comparator the neighbours end in
   * order whether or not it is transitive.
   */
  method SortBy<T(!new)>(a: array<T>, cmp: (T, T) -> int)
    requires Antisymmetric(cmp)
    modifies a
    ensures PairsSortedBy(a[..], 0, a.Length, cmp)
    ensures multiset(a[..]) == multiset(old(a[..]))
  {
    var i := 0;
    while i < a.Length
      invariant 0 <= i <= a.Length
      invariant PairsSortedBy(a[..], 0, i, cmp)
      invariant multiset(a[..]) == multiset(old(a[..]))
    {
      Insert(a, i, cmp);
      i := i + 1;
    }
  }

  /** One pass of the insertion sort: moves `a[i]` left into the ordered prefix `a[..i]`. */
  method Insert<T(!new)>(a: array<T>, i: nat, cmp: (T, T) -> int)
    requires Antisymmetric(cmp)
    requires i < a.Length && PairsSortedBy(a[..], 0, i, cmp)
    modifies a
    ensures PairsSortedBy(a[..], 0, i + 1, cmp)
    ensures multiset(a[..]) == multiset(old(a[..]))
    ensures multiset(a[..i + 1]) == multiset(old(a[..i + 1]))
    ensures a[i + 1..] == old(a[i + 1..])
  {
    var j := i;
    while 0 < j && cmp(a[j - 1], a[j]) > 0
      invariant 0 <= j <= i < a.Length
      invariant Inserting(a[..], j, i, cmp)
      invariant multiset(a[..]) == multiset(old(a[..]))
      invariant a[i + 1..] == old(a[i + 1..])
    {
      ghost var s := a[..];
      a[j - 1], a[j] := a[j], a[j - 1];
      SwapStep(s, a[..], j, i, cmp);
      SwapKeepsElements(s, a[..], j, i);
      j := j - 1;
    }
    InsertDone(a[..], j, i, cmp);
    PrefixKeepsElements(a[..], old(a[..]), i + 1);
  }

  /**
   * The state of an insertion pass with the moving element at `j`: the
   * neighbours left of it and right of it are in order, it must come before
   * its right neighbour, and its two neighbours are in order with each other.
   */
  predicate Inserting<T>(s: seq<T>, j: nat, i: nat, cmp: (T, T) -> int)
    requires j <= i < |s|
  {
    && PairsSortedBy(s, 0, j, cmp)
    && PairsSortedBy(s, j + 1, i + 1, cmp)
    && (0 < j < i ==> cmp(s[j - 1], s[j + 1]) <= 0)
    && (j < i ==> cmp(s[j], s[j + 1]) < 0)
  }

  /** Swapping the moving element with a left neighbour that must come after it keeps the pass's state. */
  lemma SwapStep<T(!new)>(s: seq<T>, t: seq<T>, j: nat, i: nat, cmp: (T, T) -> int)
    requires Antisymmetric(cmp)
    requires 0 < j <= i < |s| && Inserting(s, j, i, cmp) && cmp(s[j - 1], s[j]) > 0
    requires t == s[j - 1 := s[j]][j := s[j - 1]]
    ensures Inserting(t, j - 1, i, cmp)
  {
    assert cmp(t[j - 1], t[j]) < 0;
  }

  /** Exchanging two neighbours at or before `i` keeps the same elements and everything after `i`. */
  lemma SwapKeepsElements<T>(s: seq<T>, t: seq<T>, j: nat, i: nat)
    requires 0 < j <= i < |s| && t == s[j - 1 := s[j]][j := s[j - 1]]
    ensures multiset(t) == multiset(s)
    ensures t[i + 1..] == s[i + 1..]
  {
  }

  /** Two sequences with the same elements and the same tail from `n` on have the same elements before `n`. */
  lemma PrefixKeepsElements<T>(s: seq<T>, t: seq<T>, n: nat)
    requires n <= |s| == |t| && multiset(s) == multiset(t) && s[n..] == t[n..]
    ensures multiset(s[..n]) == multiset(t[..n])
  {
    assert s == s[..n] + s[n..];
    assert t == t[..n] + t[n..];
    assert multiset(s) == multiset(s[..n]) + multiset(s[n..]);
    assert multiset(t) == multiset(t[..n]) + multiset(t[n..]);
    forall x
      ensures multiset(s[..n])[x] == multiset(t[..n])[x]
    {
      assert multiset(s)[x] == multiset(s[..n])[x] + multiset(s[n..])[x];
      assert multiset(t)[x] == multiset(t[..n])[x] + multiset(t[n..])[x];
    }
  }

  /** A pass that stops, at the front or behind an element that may precede the moving one, leaves `s[..i + 1]` in order. */
  lemma InsertDone<T>(s: seq<T>, j: nat, i: nat, cmp: (T, T) -> int)
    requires j <= i < |s| && Inserting(s, j, i, cmp)
    requires 0 < j ==> cmp(s[j - 1], s[j]) <= 0
    ensures PairsSortedBy(s, 0, i + 1, cmp)
  {
  }

  /** Neighbours in comparator order. */
  predicate AdjacentSorted(s: seq<VersionEntry>) {
    PairsSortedBy(s, 0, |s|, Compare)
  }

  /** Every earlier entry in comparator order with every later one. */
  predicate Sorted(s: seq<VersionEntry>) {
    SortedBy(s, Compare)
  }

  predicate NumericBuilds(s: seq<VersionEntry>) {
    forall k :: 0 <= k < |s| ==> NumericBuild(s[k])
  }

  /** With numeric builds, neighbours in order means the whole list is in order. */
  lemma AdjacentSortedIsSorted(s: seq<VersionEntry>)
    requires AdjacentSorted(s) && NumericBuilds(s)
    ensures Sorted(s)
  {
    forall i, j, k | 0 <= i < |s| && 0 <= j < |s| && 0 <= k < |s| && Compare(s[i], s[j]) <= 0 && Compare(s[j], s[k]) <= 0
      ensures Compare(s[i], s[k]) <= 0
    {
      CompareTransitive(s[i], s[j], s[k]);
    }
    PairsSortedIsSorted(s, Compare);
  }

  /** Line 128: `availableEntries.sort(comparator)`. */
  method SortEntries(a: array<VersionEntry>)
    modifies a
    ensures AdjacentSorted(a[..])
    ensures NumericBuilds(a[..]) ==> Sorted(a[..])
    ensures multiset(a[..]) == multiset(old(a[..]))
  {
    forall x, y {
      CompareAntisymmetric(x, y);
    }
    SortBy(a, Compare);
    if NumericBuilds(a[..]) {
      AdjacentSortedIsSorted(a[..]);
    }
  }
}
