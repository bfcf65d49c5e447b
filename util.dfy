/**
 * `src/util.rs`: the byte-pattern search used to find the record magic and the
 * trailer, and the dotted-numeric version comparison used to gate export.
 */
module Util {
  import opened Types
  import Numbers

  // ------------------------------------------------------- find_subsequence

  /** `needle` occurs in `haystack` starting at index `i`. */
  predicate MatchAt(haystack: seq<Byte>, needle: seq<Byte>, i: int)
  {
    0 <= i && i + |needle| <= |haystack| && haystack[i..i + |needle|] == needle
  }

  /** No occurrence of `needle` starts at an index in `[from, to)`. */
  predicate NoMatchIn(haystack: seq<Byte>, needle: seq<Byte>, from: int, to: int)
  {
    forall j :: from <= j < to ==> !MatchAt(haystack, needle, j)
  }

  /**
   * `haystack.windows(needle.len()).position(|w| w == needle)`: the index of the
   * first occurrence. `windows(0)` panics, so the needle must not be empty.
   */
  function FindSubsequence(haystack: seq<Byte>, needle: seq<Byte>): (r: Option<nat>)
    requires |needle| > 0
    ensures r.Some? ==> MatchAt(haystack, needle, r.value) && NoMatchIn(haystack, needle, 0, r.value)
    ensures r.None? ==> NoMatchIn(haystack, needle, 0, |haystack|)
  {
    FindFrom(haystack, needle, 0)
  }

  function FindFrom(haystack: seq<Byte>, needle: seq<Byte>, i: nat): (r: Option<nat>)
    requires |needle| > 0
    ensures r.Some? ==> i <= r.value && MatchAt(haystack, needle, r.value) && NoMatchIn(haystack, needle, i, r.value)
    ensures r.None? ==> NoMatchIn(haystack, needle, i, |haystack|)
    decreases |haystack| - i
  {
    if i + |needle| > |haystack| then None
    else if haystack[i..i + |needle|] == needle then Some(i)
    else FindFrom(haystack, needle, i + 1)
  }

  /** Appending bytes after a match does not move the first match. */
  lemma FindInPrefix(haystack: seq<Byte>, rest: seq<Byte>, needle: seq<Byte>)
    requires |needle| > 0 && FindSubsequence(haystack, needle).Some?
    ensures FindSubsequence(haystack + rest, needle) == FindSubsequence(haystack, needle)
  {
    var i := FindSubsequence(haystack, needle).value;
    var h := haystack + rest;
    assert h[i..i + |needle|] == haystack[i..i + |needle|];
    forall j | 0 <= j < i
      ensures !MatchAt(h, needle, j)
    {
      assert !MatchAt(haystack, needle, j);
      assert h[j..j + |needle|] == haystack[j..j + |needle|];
    }
    FindFirst(h, needle, i);
  }

  /** A match with no match before it is what the search returns. */
  lemma FindFirst(haystack: seq<Byte>, needle: seq<Byte>, i: nat)
    requires |needle| > 0 && MatchAt(haystack, needle, i) && NoMatchIn(haystack, needle, 0, i)
    ensures FindSubsequence(haystack, needle) == Some(i)
  {
    var r := FindSubsequence(haystack, needle);
  }

  // --------------------------------------------------------- compareVersion

  /** `s.split(sep).collect()`: always at least one piece; empty pieces are kept. */
  function Split(s: string, sep: char): (r: seq<string>)
    ensures |r| >= 1
  {
    if s == [] then [[]]
    else
      var rest := Split(s[1..], sep);
      if s[0] == sep then [[]] + rest else [[s[0]] + rest[0]] + rest[1..]
  }

  lemma SplitStep(s: string, sep: char)
    requires s != []
    ensures Split(s, sep) == if s[0] == sep then [[]] + Split(s[1..], sep)
      else [[s[0]] + Split(s[1..], sep)[0]] + Split(s[1..], sep)[1..]
  {
  }

  /** The pieces joined back with `sep` between them, the inverse of `Split`. */
  function Join(parts: seq<string>, sep: char): string
    requires |parts| >= 1
  {
    if |parts| == 1 then parts[0] else parts[0] + [sep] + Join(parts[1..], sep)
  }

  /** `Split` cuts at every `sep` and nowhere else: no piece holds `sep`, and joining gives `s` back. */
  lemma {:induction false} SplitJoin(s: string, sep: char)
    ensures Join(Split(s, sep), sep) == s
    ensures forall i :: 0 <= i < |Split(s, sep)| ==> sep !in Split(s, sep)[i]
  {
    if s != [] {
      var rest := Split(s[1..], sep);
      SplitJoin(s[1..], sep);
      assert s == [s[0]] + s[1..];
      if s[0] == sep {
        assert Split(s, sep) == [[]] + rest;
        assert ([[]] + rest)[1..] == rest;
      } else {
        var r := Split(s, sep);
        assert r == [[s[0]] + rest[0]] + rest[1..];
        assert r[1..] == rest[1..];
        forall i | 0 <= i < |r|
          ensures sep !in r[i]
        {
          if i == 0 {
            assert sep !in rest[0];
          } else {
            assert r[i] == rest[i];
          }
        }
      }
    }
  }

  /** Every piece parses as an `i32`; the parsed values in order. */
  function ParseAll(parts: seq<string>): (r: Option<seq<int>>)
    ensures r.Some? ==> |r.value| == |parts|
    ensures r.Some? ==> forall i :: 0 <= i < |parts| ==> Numbers.ParseI32(parts[i]) == Some(r.value[i])
  {
    if parts == [] then Some([])
    else match (Numbers.ParseI32(parts[0]), ParseAll(parts[1..]))
      case (Some(x), Some(xs)) => Some([x] + xs)
      case _ => None
  }

  /** The numeric components of a dotted version, when each parses as `i32`. */
  function Components(v: string): Option<seq<int>>
  {
    ParseAll(Split(v, '.'))
  }

  /**
   * Every component parses as `i32`. Such a version never makes `compareVersion`
   * panic; other versions may pass too, since the walk stops at the first difference.
   */
  predicate ValidVersion(v: string)
  {
    Components(v).Some?
  }

  /** Component `i`, with missing trailing components read as 0. */
  function At(a: seq<int>, i: nat): int
  {
    if i < |a| then a[i] else 0
  }

  function Max(x: nat, y: nat): nat { if x < y then y else x }

  /** The comparison from component `i` on. */
  function CompareFrom(a: seq<int>, b: seq<int>, i: nat): Ordering
    decreases Max(|a|, |b|) - i
  {
    if i >= Max(|a|, |b|) then Equal
    else if At(a, i) != At(b, i) then (if At(a, i) > At(b, i) then Greater else Less)
    else CompareFrom(a, b, i + 1)
  }

  /** The ordering of two component lists. */
  function Compare(a: seq<int>, b: seq<int>): Ordering
  {
    CompareFrom(a, b, 0)
  }

  /** The ordering `compareVersion` computes for two valid versions. */
  function VersionOrder(v1: string, v2: string): Ordering
    requires ValidVersion(v1) && ValidVersion(v2)
  {
    Compare(Components(v1).value, Components(v2).value)
  }

  /**
   * Piece `i` as `compareVersion` reads it: 0 when missing, otherwise its `i32`
   * parse, where `None` is the panic of the `unwrap`.
   */
  function PieceAt(nums: seq<string>, i: nat): Option<int>
  {
    if i < |nums| then Numbers.ParseI32(nums[i]) else Some(0)
  }

  /**
   * `compareVersion` from piece `i` on, as it runs: pieces are parsed one index at
   * a time and the walk returns at the first difference, so a piece after it is
   * never parsed. `None` when the walk reaches a piece that does not parse.
   */
  function CompareLazyFrom(nums1: seq<string>, nums2: seq<string>, i: nat): Option<Ordering>
    decreases Max(|nums1|, |nums2|) - i
  {
    if i >= Max(|nums1|, |nums2|) then Some(Equal)
    else match (PieceAt(nums1, i), PieceAt(nums2, i))
      case (Some(x), Some(y)) =>
        if x != y then Some(if x > y then Greater else Less) else CompareLazyFrom(nums1, nums2, i + 1)
      case _ => None
  }

  /** `compareVersion(v1, v2)`; `None` when it panics. */
  function VersionCompare(v1: string, v2: string): Option<Ordering>
  {
    CompareLazyFrom(Split(v1, '.'), Split(v2, '.'), 0)
  }

  /**
   * `compareVersion`: walks `0..max(n1, n2)`, reading a missing component as 0,
   * parsing each present one with `unwrap`, and returns at the first component
   * that differs. `None` is the panic.
   */
  method CompareVersion(version1: string, version2: string) returns (r: Option<Ordering>)
    ensures r == VersionCompare(version1, version2)
  {
    var nums1 := Split(version1, '.');
    var nums2 := Split(version2, '.');
    var n1, n2 := |nums1|, |nums2|;
    var i := 0;
    while i < Max(n1, n2)
      invariant 0 <= i <= Max(n1, n2)
      invariant CompareLazyFrom(nums1, nums2, i) == CompareLazyFrom(nums1, nums2, 0)
    {
      var p1 := PieceAt(nums1, i);
      if p1.None? {
        return None;
      }
      var p2 := PieceAt(nums2, i);
      if p2.None? {
        return None;
      }
      var i1, i2 := p1.value, p2.value;
      if i1 != i2 {
        return Some(if i1 > i2 then Greater else Less);
      }
      i := i + 1;
    }
    return Some(Equal);
  }

  /** On versions whose components all parse, the walk is the comparison of the components. */
  lemma {:induction false} LazyOfValid(nums1: seq<string>, nums2: seq<string>, i: nat)
    requires ParseAll(nums1).Some? && ParseAll(nums2).Some?
    ensures CompareLazyFrom(nums1, nums2, i) == Some(CompareFrom(ParseAll(nums1).value, ParseAll(nums2).value, i))
    decreases Max(|nums1|, |nums2|) - i
  {
    var a, b := ParseAll(nums1).value, ParseAll(nums2).value;
    PieceOfValid(nums1, i);
    PieceOfValid(nums2, i);
    if i < Max(|nums1|, |nums2|) && At(a, i) == At(b, i) {
      LazyOfValid(nums1, nums2, i + 1);
    }
  }

  /** A piece of a version whose pieces all parse reads as its component. */
  lemma PieceOfValid(nums: seq<string>, i: nat)
    requires ParseAll(nums).Some?
    ensures PieceAt(nums, i) == Some(At(ParseAll(nums).value, i))
  {
  }

  /** For two valid versions `compareVersion` returns their `VersionOrder`. */
  lemma VersionCompareValid(v1: string, v2: string)
    requires ValidVersion(v1) && ValidVersion(v2)
    ensures VersionCompare(v1, v2) == Some(VersionOrder(v1, v2))
  {
    LazyOfValid(Split(v1, '.'), Split(v2, '.'), 0);
  }

  /** Pieces `i` to `k` exclusive parse and agree. */
  predicate PiecesAgree(nums1: seq<string>, nums2: seq<string>, i: nat, k: nat)
  {
    forall j :: i <= j < k ==> PieceAt(nums1, j).Some? && PieceAt(nums1, j) == PieceAt(nums2, j)
  }

  /** The walk from `i` reaches piece `k`, and one of the two pieces there does not parse. */
  predicate PanicAt(nums1: seq<string>, nums2: seq<string>, i: nat, k: nat)
  {
    && i <= k < Max(|nums1|, |nums2|) && PiecesAgree(nums1, nums2, i, k)
    && (PieceAt(nums1, k).None? || PieceAt(nums2, k).None?)
  }

  /**
   * `compareVersion` panics exactly when a piece that does not parse comes before
   * any difference: "2.x" against "1.0.0" is `Greater`, "1.x" panics.
   */
  lemma {:induction false} LazyPanics(nums1: seq<string>, nums2: seq<string>, i: nat)
    ensures CompareLazyFrom(nums1, nums2, i).None? <==> exists k :: PanicAt(nums1, nums2, i, k)
    decreases Max(|nums1|, |nums2|) - i
  {
    var n := Max(|nums1|, |nums2|);
    if i >= n {
    } else if PieceAt(nums1, i).None? || PieceAt(nums2, i).None? {
      assert PanicAt(nums1, nums2, i, i);
    } else if PieceAt(nums1, i) != PieceAt(nums2, i) {
      forall k | i < k ensures !PiecesAgree(nums1, nums2, i, k) {
        assert i <= i < k;
      }
      assert !PanicAt(nums1, nums2, i, i);
    } else {
      LazyPanics(nums1, nums2, i + 1);
      if CompareLazyFrom(nums1, nums2, i + 1).None? {
        var k :| PanicAt(nums1, nums2, i + 1, k);
        assert PanicAt(nums1, nums2, i, k);
      }
      forall k | PanicAt(nums1, nums2, i, k) ensures PanicAt(nums1, nums2, i + 1, k) {
      }
    }
  }

  /** A walk that ends `Equal` parsed every piece of both versions. */
  lemma {:induction false} LazyEqualParses(nums1: seq<string>, nums2: seq<string>, i: nat)
    requires CompareLazyFrom(nums1, nums2, i) == Some(Equal)
    ensures forall j :: i <= j < |nums1| ==> Numbers.ParseI32(nums1[j]).Some?
    ensures forall j :: i <= j < |nums2| ==> Numbers.ParseI32(nums2[j]).Some?
    decreases Max(|nums1|, |nums2|) - i
  {
    if i < Max(|nums1|, |nums2|) {
      LazyEqualParses(nums1, nums2, i + 1);
      assert PieceAt(nums1, i).Some? && PieceAt(nums2, i).Some?;
    }
  }

  /** Pieces that each parse parse together. */
  lemma {:induction false} ParseAllSome(parts: seq<string>)
    requires forall j :: 0 <= j < |parts| ==> Numbers.ParseI32(parts[j]).Some?
    ensures ParseAll(parts).Some?
  {
    if parts != [] {
      ParseAllSome(parts[1..]);
    }
  }

  /** `compareVersion` returns `Equal` only for two valid versions whose components compare equal. */
  lemma VersionCompareEqual(v1: string, v2: string)
    requires VersionCompare(v1, v2) == Some(Equal)
    ensures ValidVersion(v1) && ValidVersion(v2) && VersionOrder(v1, v2) == Equal
  {
    var nums1, nums2 := Split(v1, '.'), Split(v2, '.');
    LazyEqualParses(nums1, nums2, 0);
    ParseAllSome(nums1);
    ParseAllSome(nums2);
    VersionCompareValid(v1, v2);
  }

  /** Components agree (reading missing ones as 0) on `[from, to)`. */
  predicate AgreeIn(a: seq<int>, b: seq<int>, from: nat, to: nat)
  {
    forall i :: from <= i < to ==> At(a, i) == At(b, i)
  }

  /** `Equal` from component `i` on exactly when all later components agree. */
  lemma {:induction false} CompareFromEqual(a: seq<int>, b: seq<int>, i: nat)
    ensures CompareFrom(a, b, i) == Equal <==> AgreeIn(a, b, i, Max(|a|, |b|))
    decreases Max(|a|, |b|) - i
  {
    if i < Max(|a|, |b|) && At(a, i) == At(b, i) {
      CompareFromEqual(a, b, i + 1);
    }
  }

  /** `a`'s component `k` is larger and all components before it agree. */
  predicate GreaterAt(a: seq<int>, b: seq<int>, i: nat, k: nat)
  {
    i <= k < Max(|a|, |b|) && AgreeIn(a, b, i, k) && At(a, k) > At(b, k)
  }

  /**
   * The first differing component decides: `Greater` exactly when there is a `k`
   * before which all components agree and at which `a`'s is larger.
   */
  lemma {:induction false} CompareFromGreater(a: seq<int>, b: seq<int>, i: nat)
    ensures CompareFrom(a, b, i) == Greater <==> exists k :: GreaterAt(a, b, i, k)
    decreases Max(|a|, |b|) - i
  {
    var n := Max(|a|, |b|);
    if i >= n {
    } else if At(a, i) != At(b, i) {
      if At(a, i) > At(b, i) {
        assert GreaterAt(a, b, i, i);
      } else {
        forall k: nat | i < k ensures !AgreeIn(a, b, i, k) {
          assert i <= i < k && At(a, i) != At(b, i);
        }
      }
    } else {
      CompareFromGreater(a, b, i + 1);
      if CompareFrom(a, b, i + 1) == Greater {
        var k :| GreaterAt(a, b, i + 1, k);
        assert GreaterAt(a, b, i, k);
      }
      forall k | GreaterAt(a, b, i, k) ensures GreaterAt(a, b, i + 1, k) {
      }
    }
  }

  /** `Less` exactly when at the first differing component `b`'s is larger. */
  lemma CompareFromLess(a: seq<int>, b: seq<int>, i: nat)
    ensures CompareFrom(a, b, i) == Less <==> exists k :: GreaterAt(b, a, i, k)
  {
    CompareAntisymmetric(a, b, i);
    CompareFromGreater(b, a, i);
  }

  /** `Equal` exactly when every component agrees, missing ones read as 0. */
  lemma CompareEqualIff(a: seq<int>, b: seq<int>)
    ensures Compare(a, b) == Equal <==> forall i: nat :: At(a, i) == At(b, i)
  {
    CompareFromEqual(a, b, 0);
    if Compare(a, b) == Equal {
      forall i: nat ensures At(a, i) == At(b, i) {
        if i < Max(|a|, |b|) {
          assert AgreeIn(a, b, 0, Max(|a|, |b|));
        }
      }
    }
  }

  /** Comparing a version with itself gives `Equal`. */
  lemma {:induction false} CompareReflexive(a: seq<int>)
    ensures Compare(a, a) == Equal
  {
    CompareEqualIff(a, a);
  }

  /** Swapping the arguments reverses the ordering. */
  lemma {:induction false} CompareAntisymmetric(a: seq<int>, b: seq<int>, i: nat)
    ensures CompareFrom(a, b, i) == CompareFrom(b, a, i).Reverse()
    decreases Max(|a|, |b|) - i
  {
    if i < Max(|a|, |b|) && At(a, i) == At(b, i) {
      CompareAntisymmetric(a, b, i + 1);
    }
  }

  /** A missing trailing component compares like an explicit 0 ("1.0" equals "1.0.0"). */
  lemma {:induction false} TrailingZero(a: seq<int>, b: seq<int>, i: nat)
    ensures CompareFrom(a + [0], b, i) == CompareFrom(a, b, i)
    decreases Max(|a| + 1, |b|) - i
  {
    assert At(a + [0], i) == At(a, i);
    if i < Max(|a| + 1, |b|) && At(a, i) == At(b, i) {
      TrailingZero(a, b, i + 1);
    }
  }

  /** The components of "1.0" and "1.0.0". */
  lemma ShortVersions()
    ensures Components("1.0") == Some([1, 0])
    ensures Components("1.0.0") == Some([1, 0, 0])
  {
    ShortSplits();
    ShortParses();
  }

  /** "1.0" and "1.0.0" split at their dots. */
  lemma ShortSplits()
    ensures Split("1.0", '.') == ["1", "0"]
    ensures Split("1.0.0", '.') == ["1", "0", "0"]
  {
    assert "0"[1..] == [] && ".0"[1..] == "0" && "1.0"[1..] == ".0";
    assert Split([], '.') == [[]];
    assert [""][1..] == [] && ['0'] + [] == "0" && ['1'] + "" == "1";
    assert Split("0", '.') == [['0'] + Split([], '.')[0]] + Split([], '.')[1..];
    assert Split("0", '.') == ["0"];
    assert Split(".0", '.') == ["", "0"];
    assert Split("1.0", '.') == [['1'] + Split(".0", '.')[0]] + Split(".0", '.')[1..];
    assert ["", "0"][1..] == ["0"];
    assert Split("1.0", '.') == ["1", "0"];
    assert "0.0"[1..] == ".0" && ".0.0"[1..] == "0.0" && "1.0.0"[1..] == ".0.0";
    assert Split("0.0", '.') == ["0", "0"];
    assert Split(".0.0", '.') == ["", "0", "0"];
  }

  /** The pieces "1" and "0" parse to 1 and 0. */
  lemma ShortParses()
    ensures ParseAll(["1", "0"]) == Some([1, 0])
    ensures ParseAll(["1", "0", "0"]) == Some([1, 0, 0])
  {
    assert Numbers.DigitsValue("1") == 1;
    assert Numbers.DigitsValue("0") == 0;
    assert Numbers.ParseI32("1") == Some(1);
    assert Numbers.ParseI32("0") == Some(0);
    assert ["0"][1..] == [] && ["0", "0"][1..] == ["0"] && ["1", "0"][1..] == ["0"] && ["1", "0", "0"][1..] == ["0", "0"];
    assert ParseAll([]) == Some([]);
    assert [0] + [] == [0] && [1] + [0] == [1, 0] && [0] + [0] == [0, 0] && [1] + [0, 0] == [1, 0, 0];
    assert ParseAll(["0"]) == Some([0] + []);
    assert ParseAll(["1", "0"]) == Some([1] + [0]);
    assert ParseAll(["0", "0"]) == Some([0] + [0]);
  }

  /** "1.0" and "1.0.0" are the same version. */
  lemma ShortVersionEqual()
    ensures ValidVersion("1.0") && ValidVersion("1.0.0")
    ensures VersionOrder("1.0", "1.0.0") == Equal
  {
    ShortVersions();
    ShortComponentsEqual();
  }

  /** Components 1, 0 and 1, 0, 0 compare equal. */
  lemma ShortComponentsEqual()
    ensures Compare([1, 0], [1, 0, 0]) == Equal
  {
    TrailingZero([1, 0], [1, 0, 0], 0);
    CompareReflexive([1, 0, 0]);
    assert [1, 0] + [0] == [1, 0, 0];
  }
}
