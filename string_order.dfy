/** The order in which `Array.prototype.sort()` without a comparator puts strings:
    JavaScript compares the strings' UTF-16 code units lexicographically, a proper
    prefix coming first. Dafny's `char` is a Unicode scalar value, so the order is
    first stated on code units (`CodeUnitsLess` over `Utf16`) and then character by
    character (`Less`, through `UnitRank`), and the two are proved to agree. */
module StringOrder {

  /** The UTF-16 code units of one character: itself when it lies in the Basic
      Multilingual Plane, otherwise a high and a low surrogate. */
  function CharUnits(c: char): (u: seq<int>)
    ensures 1 <= |u| <= 2
    ensures c as int < 0x1_0000 <==> |u| == 1
    ensures forall k :: 0 <= k < |u| ==> 0 <= u[k] < 0x1_0000
  {
    if c as int < 0x1_0000 then [c as int]
    else
      var v := c as int - 0x1_0000;
      [0xD800 + v / 0x400, 0xDC00 + v % 0x400]
  }

  /** The code units JavaScript stores for a string. */
  function Utf16(s: string): (u: seq<int>)
    ensures |s| <= |u| <= 2 * |s|
  {
    if s == [] then [] else CharUnits(s[0]) + Utf16(s[1..])
  }

  /** JavaScript's `<` on strings: lexicographic on code units. A string is never
      before itself, and a proper prefix comes first. */
  predicate CodeUnitsLess(a: seq<int>, b: seq<int>): (r: bool)
    ensures r ==> a != b
    ensures |a| < |b| && a == b[..|a|] ==> r
  {
    if a == [] then b != []
    else b != [] && (a[0] < b[0] || (a[0] == b[0] && CodeUnitsLess(a[1..], b[1..])))
  }

  /** Where a character falls in code-unit order: characters below the surrogate
      range come first, then every supplementary character (its high surrogate is
      smaller than any BMP character above the surrogate range), then the BMP
      characters from U+E000 up. */
  function UnitRank(c: char): (r: int)
    ensures 0 <= r < 0x12_0000
  {
    if c as int < 0xD800 then c as int
    else if c as int < 0x1_0000 then c as int + 0x11_0000
    else c as int
  }

  /** The same order, character by character. */
  predicate Less(a: string, b: string)
  {
    if a == [] then b != []
    else b != [] && (UnitRank(a[0]) < UnitRank(b[0]) || (a[0] == b[0] && Less(a[1..], b[1..])))
  }

  lemma {:induction false} CodeUnitsLessCommonPrefix(p: seq<int>, x: seq<int>, y: seq<int>)
    ensures CodeUnitsLess(p + x, p + y) <==> CodeUnitsLess(x, y)
  {
    if p == [] {
      assert p + x == x && p + y == y;
    } else {
      assert (p + x)[1..] == p[1..] + x;
      assert (p + y)[1..] == p[1..] + y;
      CodeUnitsLessCommonPrefix(p[1..], x, y);
    }
  }

  /** Two different characters are ordered by their code units before anything
      that follows them is looked at. */
  lemma FirstCharDecides(a: char, b: char, x: seq<int>, y: seq<int>)
    requires a != b
    ensures CodeUnitsLess(CharUnits(a) + x, CharUnits(b) + y) <==> UnitRank(a) < UnitRank(b)
  {
    var ua, ub := CharUnits(a) + x, CharUnits(b) + y;
    assert ua[0] == CharUnits(a)[0] && ub[0] == CharUnits(b)[0];
    if ua[0] == ub[0] {
      // only two supplementary characters can share a first code unit
      assert a as int >= 0x1_0000 && b as int >= 0x1_0000;
      var va, vb := a as int - 0x1_0000, b as int - 0x1_0000;
      assert va / 0x400 == vb / 0x400;
      assert va == 0x400 * (va / 0x400) + va % 0x400;
      assert vb == 0x400 * (vb / 0x400) + vb % 0x400;
      assert ua[1] == 0xDC00 + va % 0x400 && ub[1] == 0xDC00 + vb % 0x400;
      assert ua[1..][0] == ua[1] && ub[1..][0] == ub[1];
    }
  }

  /** `Less` is exactly JavaScript's comparison of the UTF-16 encodings. */
  lemma {:induction false} LessIsCodeUnitOrder(a: string, b: string)
    ensures Less(a, b) <==> CodeUnitsLess(Utf16(a), Utf16(b))
  {
    if a != [] && b != [] {
      if a[0] == b[0] {
        CodeUnitsLessCommonPrefix(CharUnits(a[0]), Utf16(a[1..]), Utf16(b[1..]));
        LessIsCodeUnitOrder(a[1..], b[1..]);
      } else {
        FirstCharDecides(a[0], b[0], Utf16(a[1..]), Utf16(b[1..]));
      }
    }
  }

  lemma {:induction false} LessIrreflexive(a: string)
    ensures !Less(a, a)
  {
    if a != [] {
      LessIrreflexive(a[1..]);
    }
  }

  lemma {:induction false} LessTransitive(a: string, b: string, c: string)
    requires Less(a, b) && Less(b, c)
    ensures Less(a, c)
  {
    if a != [] && a[0] == b[0] && b[0] == c[0] {
      LessTransitive(a[1..], b[1..], c[1..]);
    }
  }

  lemma {:induction false} LessTotal(a: string, b: string)
    requires a != b
    ensures Less(a, b) || Less(b, a)
  {
    if a != [] && b != [] && a[0] == b[0] {
      assert a == [a[0]] + a[1..] && b == [b[0]] + b[1..];
      LessTotal(a[1..], b[1..]);
    }
  }

  lemma LessAsymmetric(a: string, b: string)
    requires Less(a, b)
    ensures !Less(b, a)
  {
    if Less(b, a) {
      LessTransitive(a, b, a);
      LessIrreflexive(a);
    }
  }

  /** "Not after" is transitive, because `Less` is a strict total order. */
  lemma NotLessTransitive(a: string, b: string, c: string)
    requires !Less(a, b) && !Less(b, c)
    ensures !Less(a, c)
  {
    if Less(a, c) {
      if a == b {
      } else {
        LessTotal(a, b);
        LessTransitive(b, a, c);
      }
    }
  }

  /** Non-decreasing: no element is before an earlier one. */
  ghost predicate Sorted(s: seq<string>)
  {
    forall i, j :: 0 <= i < j < |s| ==> !Less(s[j], s[i])
  }

  ghost predicate StrictlyAscending(s: seq<string>)
  {
    forall i, j :: 0 <= i < j < |s| ==> Less(s[i], s[j])
  }

  ghost predicate NoDuplicates<T>(s: seq<T>)
  {
    forall i, j :: 0 <= i < j < |s| ==> s[i] != s[j]
  }

  lemma InsertFrontSorted(x: string, s: seq<string>)
    requires Sorted(s) && s != [] && !Less(s[0], x)
    ensures Sorted([x] + s)
  {
    forall k | 0 <= k < |s|
      ensures !Less(s[k], x)
    {
      if k > 0 {
        NotLessTransitive(s[k], s[0], x);
      }
    }
  }

  lemma InsertBehindSorted(x: string, s: seq<string>, t: seq<string>)
    requires Sorted(s) && s != [] && Less(s[0], x)
    requires Sorted(t) && multiset(t) == multiset(s[1..]) + multiset{x}
    ensures Sorted([s[0]] + t)
  {
    forall k | 0 <= k < |t|
      ensures !Less(t[k], s[0])
    {
      assert t[k] in multiset(t);
      if t[k] == x {
        LessAsymmetric(s[0], x);
      } else {
        assert t[k] in s[1..];
        var m :| 0 <= m < |s[1..]| && s[1..][m] == t[k];
        assert s[m + 1] == t[k];
      }
    }
  }

  /** Inserts `x` into a sorted sequence after every element not after it. */
  function Insert(x: string, s: seq<string>): (r: seq<string>)
    requires Sorted(s)
    ensures Sorted(r)
    ensures multiset(r) == multiset(s) + multiset{x}
  {
    if s == [] then [x]
    else if !Less(s[0], x) then
      InsertFrontSorted(x, s);
      [x] + s
    else
      var t := Insert(x, s[1..]);
      InsertBehindSorted(x, s, t);
      assert s == [s[0]] + s[1..];
      [s[0]] + t
  }

  /** `Array.prototype.sort()` with the default comparator: a permutation of its
      input, in code-unit order. (The engine's own algorithm is not visible; with a
      strict total order every sorting algorithm yields this same sequence on
      distinct elements, see `AscendingUnique`.) */
  function SortStrings(xs: seq<string>): (r: seq<string>)
    ensures Sorted(r)
    ensures multiset(r) == multiset(xs)
  {
    if xs == [] then []
    else
      assert xs == [xs[0]] + xs[1..];
      Insert(xs[0], SortStrings(xs[1..]))
  }

  /** A sorted sequence without duplicates is strictly ascending. */
  lemma SortedDistinctIsAscending(s: seq<string>)
    requires Sorted(s) && NoDuplicates(s)
    ensures StrictlyAscending(s)
  {
    forall i, j | 0 <= i < j < |s|
      ensures Less(s[i], s[j])
    {
      LessTotal(s[i], s[j]);
    }
  }

  /** Sorting keeps distinctness, since it permutes. */
  lemma PermutationKeepsNoDuplicates(s: seq<string>, t: seq<string>)
    requires multiset(s) == multiset(t) && NoDuplicates(s)
    ensures NoDuplicates(t)
  {
    forall i, j | 0 <= i < j < |t|
      ensures t[i] != t[j]
    {
      if t[i] == t[j] {
        assert multiset(t)[t[i]] >= 2 by {
          assert t == t[..j] + [t[j]] + t[j + 1..];
          assert t[i] in multiset(t[..j]);
        }
        DistinctMultiplicity(s, t[i]);
        assert false;
      }
    }
  }

  lemma {:induction false} DistinctMultiplicity(s: seq<string>, x: string)
    requires NoDuplicates(s)
    ensures multiset(s)[x] <= 1
  {
    if s != [] {
      var init := s[..|s| - 1];
      assert s == init + [s[|s| - 1]];
      DistinctMultiplicity(init, x);
      if x == s[|s| - 1] {
        assert x !in init;
      }
    }
  }

  /** Two strictly ascending sequences with the same elements are equal: the sorted
      category list is determined by the set of categories alone. */
  lemma {:induction false} AscendingUnique(a: seq<string>, b: seq<string>)
    requires StrictlyAscending(a) && StrictlyAscending(b)
    requires forall x :: x in a <==> x in b
    ensures a == b
  {
    if a != [] {
      assert a[0] in b;
    }
    if b != [] {
      assert b[0] in a;
    }
    if a != [] && b != [] {
      var k :| 0 <= k < |b| && b[k] == a[0];
      var m :| 0 <= m < |a| && a[m] == b[0];
      if k > 0 {
        assert Less(b[0], a[0]);
        if m > 0 {
          LessAsymmetric(b[0], a[0]);
        } else {
          LessIrreflexive(a[0]);
        }
        assert false;
      }
      forall x
        ensures x in a[1..] <==> x in b[1..]
      {
        if x in a[1..] {
          var i :| 0 <= i < |a[1..]| && a[1..][i] == x;
          assert Less(a[0], a[i + 1]);
          LessIrreflexive(x);
          assert x == a[i + 1] && x in a && x in b;
          var j :| 0 <= j < |b| && b[j] == x;
          assert j != 0 && b[1..][j - 1] == x;
        }
        if x in b[1..] {
          var i :| 0 <= i < |b[1..]| && b[1..][i] == x;
          assert Less(b[0], b[i + 1]);
          LessIrreflexive(x);
          assert x == b[i + 1] && x in b && x in a;
          var j :| 0 <= j < |a| && a[j] == x;
          assert j != 0 && a[1..][j - 1] == x;
        }
      }
      AscendingUnique(a[1..], b[1..]);
      assert a == [a[0]] + a[1..] && b == [b[0]] + b[1..];
    }
  }
}
