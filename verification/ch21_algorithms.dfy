/**
  The algorithms of ch21: the hand-written linear search `my_find`
  (ch21/ch21_hw_1.cc), and `std::sort` followed by `std::binary_search`
  (ch21/ch21_hw_2.cc; sections [alg.sort] and [alg.binary.search] of
  ISO/IEC 14882). Iterators into a vector are indices into its sequence.
 */
module Algorithms {
  import opened LexOrder

  /** `my_find(first, last, val)`: advances `first` while it differs from
      `last` and designates an element other than `val`. */
  method MyFind<T(==)>(s: seq<T>, first: nat, last: nat, val: T) returns (it: nat)
    requires first <= last <= |s|
    ensures first <= it <= last
    ensures it < last ==> s[it] == val
    ensures forall k :: first <= k < it ==> s[k] != val
    ensures it == last <==> val !in s[first..last]
  {
    it := first;
    while it != last && s[it] != val
      invariant first <= it <= last
      invariant forall k :: first <= k < it ==> s[k] != val
      decreases last - it
    {
      it := it + 1;
    }
    if it < last {
      assert s[first..last][it - first] == val;
    }
  }

  /** Inserts `x` in front of the first element that is not below it. */
  function InsertSorted(s: seq<string>, x: string): (r: seq<string>)
    ensures multiset(r) == multiset(s) + multiset{x}
    ensures |r| == |s| + 1
  {
    if |s| == 0 || !LexLess(s[0], x) then [x] + s
    else
      assert s == [s[0]] + s[1..];
      [s[0]] + InsertSorted(s[1..], x)
  }

  lemma {:induction false} InsertSortedAscending(s: seq<string>, x: string)
    requires Ascending(s)
    ensures Ascending(InsertSorted(s, x))
    decreases |s|
  {
    var r := InsertSorted(s, x);
    if |s| == 0 || !LexLess(s[0], x) {
      forall i, j | 0 <= i < j < |r|
        ensures !LexLess(r[j], r[i])
      {
        if i == 0 && LexLess(s[j - 1], x) {
          AscendingBelow(s, 0, j - 1, x);
        }
      }
    } else {
      var tail := InsertSorted(s[1..], x);
      InsertSortedAscending(s[1..], x);
      forall i, j | 0 <= i < j < |r|
        ensures !LexLess(r[j], r[i])
      {
        if i == 0 {
          assert r[j] == tail[j - 1];
          assert r[j] in multiset(tail);
          if r[j] == x {
            LexLessAsymmetric(s[0], x);
          } else {
            assert r[j] in multiset(s[1..]);
            var m :| 0 <= m < |s[1..]| && s[1..][m] == r[j];
            assert s[m + 1] == r[j];
          }
        } else {
          assert r[i] == tail[i - 1] && r[j] == tail[j - 1];
        }
      }
    }
  }

  /** `std::sort` on strings with `operator<`, as an insertion sort: the
      result is ascending and a permutation of the input. */
  method Sort(s: seq<string>) returns (r: seq<string>)
    ensures Ascending(r)
    ensures multiset(r) == multiset(s)
  {
    r := [];
    for i := 0 to |s|
      invariant Ascending(r)
      invariant multiset(r) == multiset(s[..i])
    {
      InsertSortedAscending(r, s[i]);
      r := InsertSorted(r, s[i]);
      assert s[..i + 1] == s[..i] + [s[i]];
    }
    assert s[..|s|] == s;
  }

  /** Whatever algorithm `std::sort` uses, its outcome is determined: two
      ascending permutations of the same input coincide. */
  lemma SortIsDetermined(s: seq<string>, r1: seq<string>, r2: seq<string>)
    requires Ascending(r1) && multiset(r1) == multiset(s)
    requires Ascending(r2) && multiset(r2) == multiset(s)
    ensures r1 == r2
  {
    AscendingUnique(r1, r2);
  }

  /** `std::binary_search(first, last, x)` on an ascending range: a
      `lower_bound` search, then `first != last && !(x < *first)`. */
  method BinarySearch(s: seq<string>, x: string) returns (found: bool)
    requires Ascending(s)
    ensures found <==> x in s
  {
    var lo, hi := 0, |s|;
    while lo < hi
      invariant 0 <= lo <= hi <= |s|
      invariant forall k :: 0 <= k < lo ==> LexLess(s[k], x)
      invariant forall k :: hi <= k < |s| ==> !LexLess(s[k], x)
      decreases hi - lo
    {
      var mid := lo + (hi - lo) / 2;
      if LexLess(s[mid], x) {
        forall k | 0 <= k <= mid
          ensures LexLess(s[k], x)
        {
          AscendingBelow(s, k, mid, x);
        }
        lo := mid + 1;
      } else {
        forall k | mid <= k < |s|
          ensures !LexLess(s[k], x)
        {
          if LexLess(s[k], x) {
            AscendingBelow(s, mid, k, x);
          }
        }
        hi := mid;
      }
    }
    found := lo < |s| && !LexLess(x, s[lo]);
    if found && s[lo] != x {
      LexLessTotal(s[lo], x);
    }
    if x in s {
      var k :| 0 <= k < |s| && s[k] == x;
      LexLessIrreflexive(x);
      if k > lo {
        assert !LexLess(s[k], s[lo]);
      }
    }
  }

  /** The ten titles of both programs, in the order they are listed. */
  const Books: seq<string> := [
    "The Hobbit", "1984", "Brave New World", "Dune", "To Kill a Mockingbird",
    "The Great Gatsby", "The Lord of the Rings", "The Catcher in the Rye",
    "The Handmaid's Tale", "The Alchemist"]

  /** ch21/ch21_hw_1.cc with `target` as the line read: the search stops at
      the title when the library has it, and at `books.end()` otherwise. */
  method FindBookDemo(target: string) returns (it: nat)
    ensures it <= |Books|
    ensures it < |Books| <==> target in Books
    ensures it < |Books| ==> Books[it] == target
    ensures target == "Dune" ==> it == 3
  {
    it := MyFind(Books, 0, |Books|, target);
    assert Books[0..|Books|] == Books;
    if target == "Dune" {
      assert Books[3] == "Dune";
      assert Books[0][0] != 'D' && Books[1][0] != 'D' && Books[2][0] != 'D';
    }
  }

  const SortedBooks: seq<string> := [
    "1984", "Brave New World", "Dune", "The Alchemist", "The Catcher in the Rye",
    "The Great Gatsby", "The Handmaid's Tale", "The Hobbit", "The Lord of the Rings",
    "To Kill a Mockingbird"]

  /** The listed order of `SortedBooks` is strictly ascending: neighbouring
      titles first differ at the positions listed, at a smaller character of
      the earlier title. */
  lemma SortedBooksAscending()
    ensures StrictlyAscending(SortedBooks)
  {
    var ks := [0, 0, 0, 4, 4, 4, 5, 4, 1];
    forall i | 0 <= i < |ks|
      ensures FirstDifferenceBelow(SortedBooks[i], SortedBooks[i + 1], ks[i])
    {
    }
    ChainByFirstDifferences(SortedBooks, ks);
  }

  /** Any ten strings, taken in the order in which `SortedBooks` lists the
      titles of `Books`, are the same set of elements. */
  lemma SortingPermutation(b: seq<string>)
    requires |b| == 10
    ensures Elements([b[1], b[2], b[3], b[9], b[7], b[5], b[8], b[0], b[6], b[4]]) == Elements(b)
  {
    assert b == [b[0], b[1], b[2], b[3], b[4], b[5], b[6], b[7], b[8], b[9]];
  }

  /** `SortedBooks` lists the ten distinct titles of `Books` in strictly
      ascending order. */
  lemma SortedBooksListBooks()
    ensures StrictlyAscending(SortedBooks)
    ensures Elements(SortedBooks) == Elements(Books)
    ensures |Elements(Books)| == |Books|
  {
    SortedBooksAscending();
    StrictlyAscendingIsDistinct(SortedBooks);
    DistinctCardinality(SortedBooks);
    assert SortedBooks == [Books[1], Books[2], Books[3], Books[9], Books[7], Books[5], Books[8], Books[0], Books[6], Books[4]];
    SortingPermutation(Books);
  }

  /** Sorting `Books` yields `SortedBooks`. */
  lemma SortedLibrary(library: seq<string>)
    requires Ascending(library) && multiset(library) == multiset(Books)
    ensures library == SortedBooks
  {
    SortedBooksListBooks();
    // the sorted library: ascending, and the same ten distinct titles
    SameMultisetSameElements(library, Books);
    assert |library| == |multiset(library)| == |multiset(Books)| == |Books|;
    CardinalityDistinct(library);
    AscendingDistinctIsStrict(library);
    StrictlyAscendingUnique(library, SortedBooks);
  }

  /** ch21/ch21_hw_2.cc with `searchTitle` as the line read: the sorted
      library begins with "1984", and the search reports exactly whether the
      title is in the library. */
  method LibraryDemo(searchTitle: string) returns (library: seq<string>, found: bool)
    ensures library == SortedBooks && library[0] == "1984"
    ensures multiset(library) == multiset(Books)
    ensures found <==> searchTitle in Books
  {
    library := Sort(Books);
    SortedLibrary(library);
    found := BinarySearch(library, searchTitle);
    assert searchTitle in library <==> searchTitle in multiset(library);
    assert searchTitle in Books <==> searchTitle in multiset(Books);
  }
}
