/**
  NUL-terminated character buffers, as `strlen` and `strcpy` see them.
 */
module CStrings {

  /** A buffer that holds a terminating `'\0'` somewhere. */
  predicate IsTerminated(buf: seq<char>)
  {
    '\0' in buf
  }

  /** `strlen(buf)`: the number of characters before the first `'\0'`. */
  function StrLen(buf: seq<char>): (n: nat)
    requires IsTerminated(buf)
    ensures n < |buf| && buf[n] == '\0'
    ensures forall k :: 0 <= k < n ==> buf[k] != '\0'
  {
    if buf[0] == '\0' then 0 else 1 + StrLen(buf[1..])
  }

  /** The characters a C string denotes: those before its terminator. */
  function Content(buf: seq<char>): (s: string)
    requires IsTerminated(buf)
    ensures |s| == StrLen(buf) && '\0' !in s
    ensures s == buf[..|s|]
  {
    buf[..StrLen(buf)]
  }

  /** The buffer a string literal denotes: its characters and a terminator. */
  function Literal(s: string): (buf: seq<char>)
    requires '\0' !in s
    ensures IsTerminated(buf) && Content(buf) == s
  {
    var buf := s + ['\0'];
    assert buf[|s|] == '\0';
    StrLenOfLiteral(s);
    buf
  }

  lemma {:induction false} StrLenOfLiteral(s: string)
    requires '\0' !in s
    ensures IsTerminated(s + ['\0']) && StrLen(s + ['\0']) == |s|
    decreases |s|
  {
    assert (s + ['\0'])[|s|] == '\0';
    if |s| > 0 {
      assert (s + ['\0'])[1..] == s[1..] + ['\0'];
      assert s[0] != '\0';
      StrLenOfLiteral(s[1..]);
    }
  }
}

/**
  The three palindrome checks of ch16/ch16_practice.cpp. They share one loop
  (compare `s[i]` with `s[len - 1 - i]` for `i < len / 2`), modelled once by
  `CheckHalves`; the wrappers differ only in how they obtain the sequence.
 */
module Palindromes {
  import opened Wrappers
  import CStrings

  /** Reads the same in both directions: every element equals the one at
      the mirrored position, over the whole sequence. */
  ghost predicate Mirrored<T>(s: seq<T>)
  {
    forall i, j :: 0 <= i < |s| && 0 <= j < |s| && i + j == |s| - 1 ==> s[i] == s[j]
  }

  /** The elements of `s` in the opposite order. */
  function Reverse<T>(s: seq<T>): (r: seq<T>)
  {
    seq(|s|, i requires 0 <= i < |s| => s[|s| - 1 - i])
  }

  /** A palindrome is exactly a sequence equal to its reverse. */
  lemma MirroredIffReversed<T>(s: seq<T>)
    ensures Mirrored(s) <==> s == Reverse(s)
  {
  }

  /** The shared loop: only the first half is compared with the second. */
  method CheckHalves<T(==)>(s: seq<T>) returns (b: bool)
    ensures b <==> Mirrored(s)
  {
    var len := |s|;
    for i := 0 to len / 2
      invariant forall j :: 0 <= j < i ==> s[j] == s[len - 1 - j]
    {
      if s[i] != s[len - 1 - i] {
        return false;
      }
    }
    forall i, j | 0 <= i < len && 0 <= j < len && i + j == len - 1
      ensures s[i] == s[j]
    {
      if i < len / 2 {
        assert s[i] == s[len - 1 - i];
      } else if j < len / 2 {
        assert s[j] == s[len - 1 - j];
      }
    }
    return true;
  }

  /** `is_palindrome_cstyle`: false for a null pointer, otherwise the check
      over the characters before the terminator. */
  method IsPalindromeCStyle(str: Option<seq<char>>) returns (b: bool)
    requires str.Some? ==> CStrings.IsTerminated(str.value)
    ensures str.None? ==> !b
    ensures str.Some? ==> (b <==> Mirrored(CStrings.Content(str.value)))
  {
    if str.None? {
      return false;
    }
    b := CheckHalves(CStrings.Content(str.value));
  }

  /** `is_palindrome_string`. */
  method IsPalindromeString(str: string) returns (b: bool)
    ensures b <==> Mirrored(str)
    ensures b <==> str == Reverse(str)
    ensures |str| <= 1 ==> b
  {
    b := CheckHalves(str);
    MirroredIffReversed(str);
  }

  /** `is_palindrome_array(arr, size)`: the first `size` elements. */
  method IsPalindromeArray(arr: seq<int>, size: nat) returns (b: bool)
    requires size <= |arr|
    ensures b <==> Mirrored(arr[..size])
    ensures size <= 1 ==> b
  {
    b := CheckHalves(arr[..size]);
  }

  /** Which of the C strings of `demonstrate_palindromes` read the same
      backwards. */
  lemma CStyleWordsMirrored()
    ensures Mirrored("racecar") && Mirrored("madam") && Mirrored("hannah")
    ensures !Mirrored("hello") && !Mirrored("world")
  {
    assert "hello"[0] != "hello"[4];
    assert "world"[0] != "world"[4];
  }

  /** Which of the `std::string`s of `demonstrate_palindromes` read the same
      backwards. */
  lemma StringWordsMirrored()
    ensures Mirrored("level") && Mirrored("deed")
    ensures !Mirrored("programming") && !Mirrored("openai")
  {
    assert "programming"[0] != "programming"[10];
    assert "openai"[0] != "openai"[5];
  }

  /** `demonstrate_palindromes`, first part: the C-string verdicts it
      prints, in order. */
  method CStylePalindromeDemo() returns (verdicts: seq<bool>)
    ensures verdicts == [true, false, true, false, true]
  {
    verdicts := [];
    var words := ["racecar", "hello", "madam", "world", "hannah"];
    for k := 0 to |words|
      invariant |verdicts| == k
      invariant forall m :: 0 <= m < k ==> (verdicts[m] <==> Mirrored(words[m]))
    {
      var b := IsPalindromeCStyle(Some(CStrings.Literal(words[k])));
      verdicts := verdicts + [b];
    }
    CStyleWordsMirrored();
  }

  /** `demonstrate_palindromes`, second part: the `std::string` verdicts. */
  method StringPalindromeDemo() returns (verdicts: seq<bool>)
    ensures verdicts == [true, false, true, false]
  {
    verdicts := [];
    var words := ["level", "programming", "deed", "openai"];
    for k := 0 to |words|
      invariant |verdicts| == k
      invariant forall m :: 0 <= m < k ==> (verdicts[m] <==> Mirrored(words[m]))
    {
      var b := IsPalindromeString(words[k]);
      verdicts := verdicts + [b];
    }
    StringWordsMirrored();
  }

  /** `demonstrate_palindromes`, third part: the integer-array verdicts. */
  method ArrayPalindromeDemo() returns (verdicts: seq<bool>)
    ensures verdicts == [true, false]
  {
    var yes := IsPalindromeArray([1, 2, 3, 2, 1], 5);
    var no := IsPalindromeArray([1, 2, 3, 4, 5], 5);
    assert [1, 2, 3, 4, 5][..5][0] != [1, 2, 3, 4, 5][..5][4];
    verdicts := [yes, no];
  }
}

/**
  `SafeArray`: a vector of ints with a bounds-checked `at` and an unchecked
  `operator[]`.
 */
module RangeChecking {
  import opened Wrappers
  import opened MachineInt

  datatype SafeArray = SafeArray(data: seq<int>)

  /** The `out_of_range` thrown by `at`, with the index and size its message
      reports. */
  datatype OutOfRange = OutOfRange(index: nat, size: nat)

  /** `SafeArray(size)`: a vector of `size` value-initialised ints. */
  function NewSafeArray(size: nat): (a: SafeArray)
    ensures Size(a) == size
    ensures forall i :: 0 <= i < size ==> a.data[i] == 0
  {
    SafeArray(seq(size, _ => 0))
  }

  function Size(a: SafeArray): nat
  {
    |a.data|
  }

  /** `at(index)`: throws exactly when `index >= size()`. */
  function At(a: SafeArray, index: nat): (r: Result<int, OutOfRange>)
    ensures r.Failure? <==> index >= Size(a)
    ensures r.Failure? ==> r.error == OutOfRange(index, Size(a))
    ensures r.Success? ==> r.value == a.data[index]
  {
    if index >= |a.data| then Failure(OutOfRange(index, |a.data|)) else Success(a.data[index])
  }

  /** `operator[]`: no check, so an index past the end is undefined
      behaviour and excluded. */
  function Subscript(a: SafeArray, index: nat): (v: int)
    requires index < Size(a)
    ensures At(a, index) == Success(v)
  {
    a.data[index]
  }

  /** `fill_with_values`: element `i` becomes `static_cast<int>(i * 10)`. */
  method FillWithValues(a: SafeArray) returns (a': SafeArray)
    ensures Size(a') == Size(a)
    ensures forall i :: 0 <= i < Size(a) ==> a'.data[i] == ToInt32(i * 10)
    ensures forall i :: 0 <= i < Size(a) && i * 10 <= INT_MAX ==> a'.data[i] == i * 10
  {
    var data := a.data;
    for i := 0 to |data|
      invariant |data| == |a.data|
      invariant forall j :: 0 <= j < i ==> data[j] == ToInt32(j * 10)
    {
      data := data[i := ToInt32(i * 10)];
    }
    a' := SafeArray(data);
  }

  /** `demonstrate_range_checking`: `at(0)` .. `at(4)` read 0, 10, .., 40
      after the fill, and `at(10)` throws. */
  method RangeCheckingDemo() returns (readings: seq<Result<int, OutOfRange>>, beyond: Result<int, OutOfRange>)
    ensures readings == [Success(0), Success(10), Success(20), Success(30), Success(40)]
    ensures beyond == Failure(OutOfRange(10, 5))
  {
    var arr := NewSafeArray(5);
    arr := FillWithValues(arr);
    readings := [];
    for i := 0 to Size(arr)
      invariant |readings| == i
      invariant forall j :: 0 <= j < i ==> readings[j] == Success(j * 10)
    {
      readings := readings + [At(arr, i)];
    }
    beyond := At(arr, 10);
  }
}

/**
  Pointer and reference parameters: `process_optional_data` may receive
  null, `process_required_data` may not.
 */
module PointerParams {
  import opened Wrappers
  import opened MachineInt

  /** `process_optional_data(ptr)`: the pointee after the call, or null. */
  function ProcessOptionalData(ptr: Option<int>): (r: Option<int>)
    requires ptr.Some? ==> IsInt32(2 * ptr.value)
    ensures r.None? <==> ptr.None?
    ensures r.Some? ==> r.value == 2 * ptr.value && r.value % 2 == 0
  {
    match ptr
    case None => None
    case Some(v) => Some(v * 2)
  }

  /** `process_required_data(ref)`: the referent after the call. */
  function ProcessRequiredData(ref: int): (r: int)
    requires IsInt32(3 * ref)
    ensures r % 3 == 0 && r / 3 == ref
  {
    ref * 3
  }

  /** `demonstrate_pointers_vs_references`: 10 becomes 20 through the
      pointer, null is left alone, 7 becomes 21 through the reference. */
  lemma PointersVsReferencesDemo()
    ensures ProcessOptionalData(Some(10)) == Some(20)
    ensures ProcessOptionalData(None) == None
    ensures ProcessRequiredData(7) == 21
  {
  }
}
