/**
  The function template `maximum` and the class template `FixedArray<T, SIZE>`
  of ch18/chapter18_practice.cpp.
 */
module Templates {
  import opened Wrappers
  import opened LexOrder

  /** `maximum(a, b)`: `(a > b) ? a : b`, with the type's `operator>` passed
      explicitly. */
  function Maximum<T>(a: T, b: T, greater: (T, T) -> bool): (r: T)
    ensures r == a || r == b
    ensures greater(a, b) ==> r == a
    ensures !greater(a, b) ==> r == b
  {
    if greater(a, b) then a else b
  }

  /** For an irreflexive, asymmetric `>` the result is not below either
      argument. */
  lemma MaximumIsUpperBound<T>(a: T, b: T, greater: (T, T) -> bool)
    requires forall x :: !greater(x, x)
    requires forall x, y :: greater(x, y) ==> !greater(y, x)
    ensures !greater(a, Maximum(a, b, greater)) && !greater(b, Maximum(a, b, greater))
  {
  }

  /** `operator>` on `std::string`. */
  predicate StringGreater(a: string, b: string)
  {
    LexLess(b, a)
  }

  /** On strings the result is the larger argument in the lexicographic
      order: it is at least each of them. */
  lemma StringMaximumIsUpperBound(a: string, b: string)
    ensures LexLessEq(a, Maximum(a, b, StringGreater))
    ensures LexLessEq(b, Maximum(a, b, StringGreater))
  {
    var r := Maximum(a, b, StringGreater);
    if r != a {
      assert !LexLess(r, a);
      LexLessTotal(a, r);
    }
    if r != b {
      assert r == a && LexLess(b, a);
    }
  }

  /** The first three calls of `main`: `maximum(5, 3)` and
      `maximum(string("hello"), string("world"))`. */
  lemma MaximumDemo()
    ensures Maximum(5, 3, (x: int, y: int) => x > y) == 5
    ensures Maximum("hello", "world", StringGreater) == "world"
  {
    assert LexLess("hello", "world") by {
      assert "hello"[0] == 'h' && "world"[0] == 'w';
    }
    LexLessAsymmetric("hello", "world");
  }

  /** `FixedArray<T, SIZE>`: the `current_size` initialised elements of the
      fixed buffer, and `SIZE`. Slots past `current_size` are never read. */
  datatype FixedArray<T> = FixedArray(data: seq<T>, capacity: nat)

  /** `size() <= capacity()`, which `push_back`'s guard keeps. */
  ghost predicate Valid<T>(a: FixedArray<T>)
  {
    |a.data| <= a.capacity
  }

  /** A default-constructed `FixedArray<T, SIZE>`. */
  function Empty<T>(capacity: nat): (a: FixedArray<T>)
    ensures Valid(a) && Size(a) == 0 && Capacity(a) == capacity
  {
    FixedArray([], capacity)
  }

  function Size<T>(a: FixedArray<T>): nat
  {
    |a.data|
  }

  function Capacity<T>(a: FixedArray<T>): nat
  {
    a.capacity
  }

  /** `operator[]` on an initialised slot. */
  function Get<T>(a: FixedArray<T>, index: nat): T
    requires index < Size(a)
  {
    a.data[index]
  }

  const ArrayFull := "Array is full!"

  /** `push_back(item)`: stores `item` at the old size when there is room,
      otherwise throws `runtime_error("Array is full!")` and leaves the array
      as it was. The second component is the exception, if any. */
  function PushBack<T>(a: FixedArray<T>, item: T): (r: (FixedArray<T>, Option<string>))
    requires Valid(a)
    ensures Valid(r.0) && Capacity(r.0) == Capacity(a)
    ensures r.1.Some? <==> Size(a) == Capacity(a)
    ensures r.1.Some? ==> r.1.value == ArrayFull && r.0 == a
    ensures r.1.None? ==> Size(r.0) == Size(a) + 1 && Get(r.0, Size(a)) == item
    ensures forall i :: 0 <= i < Size(a) ==> Get(r.0, i) == Get(a, i)
  {
    if |a.data| < a.capacity then (FixedArray(a.data + [item], a.capacity), None)
    else (a, Some(ArrayFull))
  }

  /** Calls `push_back` for each item in turn; the first exception ends the
      sequence of calls. */
  function PushAll<T>(a: FixedArray<T>, items: seq<T>): (r: (FixedArray<T>, Option<string>))
    requires Valid(a)
    ensures Valid(r.0) && Capacity(r.0) == Capacity(a)
    ensures r.1.Some? ==> r.1.value == ArrayFull
    // nothing already stored is lost
    ensures Size(a) <= Size(r.0) && r.0.data[..Size(a)] == a.data
    decreases |items|
  {
    if |items| == 0 then (a, None)
    else
      var step := PushBack(a, items[0]);
      if step.1.Some? then step else PushAll(step.0, items[1..])
  }

  /** Pushing `items` succeeds exactly when they fit; otherwise the items
      pushed before the exception stay in the array (there is no roll-back). */
  lemma {:induction false} PushAllFills<T>(a: FixedArray<T>, items: seq<T>)
    requires Valid(a)
    ensures var r := PushAll(a, items);
      && (r.1.None? <==> Size(a) + |items| <= Capacity(a))
      && (r.1.None? ==> r.0.data == a.data + items)
      && (r.1.Some? ==> r.1.value == ArrayFull && r.0.data == a.data + items[..Capacity(a) - Size(a)])
      && Capacity(r.0) == Capacity(a)
    decreases |items|
  {
    if |items| > 0 {
      var step := PushBack(a, items[0]);
      if step.1.None? {
        PushAllFills(step.0, items[1..]);
        assert a.data + [items[0]] + items[1..] == a.data + items;
        if Size(a) + |items| > Capacity(a) {
          assert [items[0]] + items[1..][..Capacity(a) - Size(a) - 1] == items[..Capacity(a) - Size(a)];
        }
      } else {
        assert items[..0] == [];
      }
    }
  }

  /** The `FixedArray<int, 5>` of `main`: two pushes leave size 2 of 5. */
  lemma FixedArrayDemo()
    ensures var r := PushAll(Empty<int>(5), [10, 20]);
      r.1.None? && Size(r.0) == 2 && Capacity(r.0) == 5 && Get(r.0, 0) == 10 && Get(r.0, 1) == 20
  {
    PushAllFills(Empty<int>(5), [10, 20]);
  }
}

/**
  `RAIIClass` (an owned `int` array with deep-copying special members) and
  `ExceptionSafeClass::safe_operation` of ch18/chapter18_practice.cpp. The
  arrays are modelled by their contents; allocation and `delete[]` are not
  modelled. Copy assignment compares object identity, so it acts on a store
  of objects indexed by handle.
 */
module Raii {
  import opened MachineInt

  /** `data[0 .. size)`; `size` is the length of the sequence. */
  datatype RaiiObject = RaiiObject(data: seq<int>)

  function Size(o: RaiiObject): nat
  {
    |o.data|
  }

  /** `RAIIClass(n)`: element `i` is `static_cast<int>(i)`. */
  method NewRaii(n: nat) returns (o: RaiiObject)
    ensures Size(o) == n
    ensures forall i :: 0 <= i < n ==> o.data[i] == ToInt32(i)
    ensures forall i :: 0 <= i < n && i <= INT_MAX ==> o.data[i] == i
  {
    var data := seq(n, _ => 0);
    for i := 0 to n
      invariant |data| == n
      invariant forall j :: 0 <= j < i ==> data[j] == ToInt32(j)
    {
      data := data[i := ToInt32(i)];
    }
    o := RaiiObject(data);
  }

  /** The element-by-element copy loop shared by the copy constructor and the
      copy assignment. */
  method CopyElements(other: RaiiObject) returns (o: RaiiObject)
    ensures Size(o) == Size(other)
    ensures forall i :: 0 <= i < Size(o) ==> o.data[i] == other.data[i]
  {
    var data := seq(Size(other), _ => 0);
    for i := 0 to Size(other)
      invariant |data| == Size(other)
      invariant forall j :: 0 <= j < i ==> data[j] == other.data[j]
    {
      data := data[i := other.data[i]];
    }
    o := RaiiObject(data);
  }

  /** `operator=(const RAIIClass& other)` on a store of objects:
      self-assignment returns at once; otherwise the target gets the
      source's size and a copy of its elements. */
  method CopyAssign(h: seq<RaiiObject>, dst: nat, src: nat) returns (h': seq<RaiiObject>)
    requires dst < |h| && src < |h|
    ensures |h'| == |h|
    ensures dst == src ==> h' == h
    ensures Size(h'[dst]) == Size(h[src])
    ensures forall i :: 0 <= i < Size(h[src]) ==> h'[dst].data[i] == h[src].data[i]
    ensures forall k :: 0 <= k < |h| && k != dst ==> h'[k] == h[k]
  {
    if dst == src {
      return h;
    }
    var copy := CopyElements(h[src]);
    h' := h[dst := copy];
  }

  /** The RAII part of `main`: `obj1(5)` holds 0 .. 4 and the copy `obj2`
      holds the same. */
  method RaiiDemo() returns (obj1: RaiiObject, obj2: RaiiObject)
    ensures obj1.data == [0, 1, 2, 3, 4] && obj2.data == obj1.data
  {
    obj1 := NewRaii(5);
    obj2 := CopyElements(obj1);
    assert obj2.data == obj1.data;
  }

  /** `ExceptionSafeClass`: a `unique_ptr<int[]>` of `size` elements. */
  datatype SafeObject = SafeObject(data: seq<int>, size: nat)

  /** `ExceptionSafeClass(n)`: `make_unique<int[]>(n)` value-initialises, so
      every element is 0. */
  function NewSafeObject(n: nat): (o: SafeObject)
    ensures o.size == n && |o.data| == n
    ensures forall i :: 0 <= i < n ==> o.data[i] == 0
  {
    SafeObject(seq(n, _ => 0), n)
  }

  /** `safe_operation()`: fills a temporary with `static_cast<int>(i * 2)` and
      only then replaces the data with it; the size is unchanged. */
  method SafeOperation(o: SafeObject) returns (o': SafeObject)
    ensures o'.size == o.size && |o'.data| == o.size
    ensures forall i :: 0 <= i < o.size ==> o'.data[i] == ToInt32(i * 2)
    ensures forall i :: 0 <= i < o.size && i * 2 <= INT_MAX ==> o'.data[i] == 2 * i
  {
    var temp := seq(o.size, _ => 0);
    for i := 0 to o.size
      invariant |temp| == o.size
      invariant forall j :: 0 <= j < i ==> temp[j] == ToInt32(j * 2)
    {
      temp := temp[i := ToInt32(i * 2)];
    }
    o' := o.(data := temp);
  }
}
