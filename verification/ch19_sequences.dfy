/**
  `insert` and `erase` at an iterator position on `std::vector` and
  `std::list` (sections [vector.modifiers] and [list.modifiers] of ISO/IEC
  14882), as used by ch19/ch19_book.cpp and ch19/ch19_hw.cc.

  Both containers are modelled by their element sequence and an iterator by
  the index of the element it designates (`|s|` for `end()`). On elements,
  the two containers behave alike; they differ in which other iterators stay
  valid, which `ListIteratorAfterInsert` and `ListIteratorAfterErase` state
  for the list.
 */
module SequenceEdits {

  /** `c.insert(pos, x)`: `x` is placed before position `pos`, the elements
      from `pos` on move one place right, and the result designates `x`. */
  function InsertAt<T>(s: seq<T>, pos: nat, x: T): (r: (seq<T>, nat))
    requires pos <= |s|
    ensures |r.0| == |s| + 1 && r.1 == pos && r.0[r.1] == x
    ensures forall i :: 0 <= i < pos ==> r.0[i] == s[i]
    ensures forall i :: pos < i < |r.0| ==> r.0[i] == s[i - 1]
  {
    (s[..pos] + [x] + s[pos..], pos)
  }

  /** `c.erase(pos)`: the element at `pos` is removed, later elements move
      one place left, and the result designates the element that followed
      the erased one (`end()` if there was none). */
  function EraseAt<T>(s: seq<T>, pos: nat): (r: (seq<T>, nat))
    requires pos < |s|
    ensures |r.0| == |s| - 1 && r.1 == pos
    ensures forall i :: 0 <= i < pos ==> r.0[i] == s[i]
    ensures forall i :: pos <= i < |r.0| ==> r.0[i] == s[i + 1]
  {
    (s[..pos] + s[pos + 1..], pos)
  }

  /** Erasing through the iterator `insert` returned undoes the insertion,
      and the returned iterator designates the element that was at `pos`. */
  lemma InsertEraseRoundTrip<T>(s: seq<T>, pos: nat, x: T)
    requires pos <= |s|
    ensures var ins := InsertAt(s, pos, x); EraseAt(ins.0, ins.1) == (s, pos)
  {
    var ins := InsertAt(s, pos, x);
    var er := EraseAt(ins.0, ins.1);
    assert |er.0| == |s|;
    forall i | 0 <= i < |s|
      ensures er.0[i] == s[i]
    {
      if i >= pos {
        assert er.0[i] == ins.0[i + 1];
      }
    }
    assert er.0 == s;
  }

  /** In a list, `insert` leaves every other iterator valid: one designating
      element `q` before the call designates the same element after it, one
      place further on when it was at or past `pos`. */
  lemma ListIteratorAfterInsert<T>(s: seq<T>, pos: nat, x: T, q: nat)
    requires pos <= |s| && q < |s|
    ensures var q' := if q < pos then q else q + 1;
      q' < |InsertAt(s, pos, x).0| && InsertAt(s, pos, x).0[q'] == s[q]
  {
  }

  /** In a list, `erase` invalidates only iterators to the erased element;
      the others keep their element, one place back when they were past it. */
  lemma ListIteratorAfterErase<T>(s: seq<T>, pos: nat, q: nat)
    requires pos < |s| && q < |s| && q != pos
    ensures var q' := if q < pos then q else q - 1;
      q' < |EraseAt(s, pos).0| && EraseAt(s, pos).0[q'] == s[q]
  {
  }

  /** `++it`, `n` times (`std::advance(it, n)`), within the range. */
  function Advance(it: nat, n: nat, len: nat): (it': nat)
    requires it + n <= len
    ensures it' <= len && it' - it == n
  {
    it + n
  }

  /** ch19/ch19_book.cpp: a vector and a list built from the array
      `{1, .., 7}`, each given an insert and an erase at the fourth element. */
  method BookDemo() returns (vec: seq<int>, vp: nat, lst: seq<int>, lp: nat, lq: nat)
    ensures vec == [1, 2, 3, 4, 5, 6, 7] && vp == 3 && vec[vp] == 4
    ensures lst == [1, 2, 3, 4, 5, 6, 7] && lp == 3 && lst[lp] == 4
    ensures lq < |lst| && lst[lq] == 5
  {
    var initializer := [1, 2, 3, 4, 5, 6, 7];
    // vector<int> v(first, last), with p at index 3
    vec := initializer[0..7];
    vp := Advance(0, 3, |vec|);
    var ins := InsertAt(vec, vp, 99);
    assert ins.0 == [1, 2, 3, 99, 4, 5, 6, 7];
    InsertEraseRoundTrip(vec, vp, 99);
    var er := EraseAt(ins.0, ins.1);
    vec, vp := er.0, er.1;

    // list<int> v(first, last), with p at index 3 and q at index 4
    lst := initializer[0..7];
    lp := Advance(0, 3, |lst|);
    lq := Advance(lp, 1, |lst|);
    ins := InsertAt(lst, lp, 88);
    ListIteratorAfterInsert(lst, lp, 88, lq);
    var q1 := lq + 1;
    InsertEraseRoundTrip(lst, lp, 88);
    ListIteratorAfterErase(ins.0, ins.1, q1);
    er := EraseAt(ins.0, ins.1);
    lst, lp, lq := er.0, er.1, q1 - 1;
  }

  const Presidents: seq<string> := [
    "George Washington", "Thomas Jefferson", "Abraham Lincoln", "Theodore Roosevelt",
    "Franklin D. Roosevelt", "Andrew Jackson", "James Garfield", "Zachary Taylor",
    "James Monroe", "James Polk"]

  /** ch19/ch19_hw.cc: "John Adams" inserted before and erased from the
      second element of the vector, then "James Madison" inserted before and
      erased from the third element of a list copy. */
  method PresidentsDemo() returns (presidents: seq<string>, vit: nat, presList: seq<string>, lit: nat)
    ensures presidents == Presidents && vit == 1 && presidents[vit] == "Thomas Jefferson"
    ensures presList == presidents && lit == 2
  {
    presidents := Presidents;
    vit := Advance(0, 1, |presidents|);
    var ins := InsertAt(presidents, vit, "John Adams");
    assert |ins.0| == 11 && ins.0[ins.1] == "John Adams";
    InsertEraseRoundTrip(presidents, vit, "John Adams");
    var er := EraseAt(ins.0, ins.1);
    presidents, vit := er.0, er.1;

    presList := presidents;
    lit := Advance(0, 2, |presList|);
    ins := InsertAt(presList, lit, "James Madison");
    InsertEraseRoundTrip(presList, lit, "James Madison");
    er := EraseAt(ins.0, ins.1);
    presList, lit := er.0, er.1;
  }
}
