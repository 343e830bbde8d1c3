/**
  `MyString` of ch17/ch17_practice.cpp: an owned, NUL-terminated character
  buffer (or null) and its size, with the five special members.

  Object identity matters to the assignments (`this == &other`) and a move
  writes to its source, so objects live in a store: a sequence indexed by
  object handle. The buffer is modelled by its characters, terminator
  included; allocation and `delete[]` are not modelled.
 */
module MyStrings {
  import opened Wrappers
  import CStrings

  datatype MyString = MyString(data: Option<seq<char>>, size: nat)

  type Objects = seq<MyString>

  /** The class invariant every member keeps: a null buffer has size 0, an
      owned buffer holds `size` characters and then its terminator. */
  ghost predicate Valid(s: MyString)
  {
    match s.data
    case None => s.size == 0
    case Some(buf) => |buf| == s.size + 1 && CStrings.IsTerminated(buf) && CStrings.StrLen(buf) == s.size
  }

  ghost predicate AllValid(h: Objects)
  {
    forall i :: 0 <= i < |h| ==> Valid(h[i])
  }

  /** The text `c_str()` denotes: `""` for a null buffer. */
  function Text(s: MyString): (t: string)
    requires Valid(s)
    ensures '\0' !in t
  {
    match s.data
    case None => ""
    case Some(buf) => CStrings.Content(buf)
  }

  /** `c_str()`: the buffer itself, or the literal `""` when it is null. */
  function CStr(s: MyString): (buf: seq<char>)
    requires Valid(s)
    ensures CStrings.IsTerminated(buf) && CStrings.Content(buf) == Text(s)
    ensures s.data.None? ==> CStrings.Content(buf) == ""
  {
    match s.data
    case None => CStrings.Literal("")
    case Some(buf) => buf
  }

  /** `length()`: the stored size. */
  function Length(s: MyString): (n: nat)
    requires Valid(s)
    ensures n == |Text(s)|
    ensures n == CStrings.StrLen(CStr(s))
  {
    s.size
  }

  /** `strcpy` into a fresh array: the source's characters up to and
      including its first terminator. */
  function StrCopy(buf: seq<char>): (dst: seq<char>)
    requires CStrings.IsTerminated(buf)
    ensures CStrings.IsTerminated(dst) && |dst| == CStrings.StrLen(buf) + 1
    ensures CStrings.StrLen(dst) == CStrings.StrLen(buf)
    ensures CStrings.Content(dst) == CStrings.Content(buf)
  {
    var n := CStrings.StrLen(buf);
    var dst := buf[..n + 1];
    StrLenOfPrefix(buf, n + 1);
    dst
  }

  lemma {:induction false} StrLenOfPrefix(buf: seq<char>, k: nat)
    requires CStrings.IsTerminated(buf) && CStrings.StrLen(buf) < k <= |buf|
    ensures CStrings.IsTerminated(buf[..k]) && CStrings.StrLen(buf[..k]) == CStrings.StrLen(buf)
    decreases k
  {
    assert buf[..k][CStrings.StrLen(buf)] == '\0';
    if buf[0] != '\0' {
      assert buf[..k][1..] == buf[1..][..k - 1];
      StrLenOfPrefix(buf[1..], k - 1);
    }
  }

  /** `MyString()`: null buffer, size 0. */
  function Default(): (s: MyString)
    ensures Valid(s) && s.data.None? && Length(s) == 0 && Text(s) == ""
  {
    MyString(None, 0)
  }

  /** `MyString(const char* str)`: a copy of the C string, or the null state
      for a null argument. */
  function FromCString(str: Option<seq<char>>): (s: MyString)
    requires str.Some? ==> CStrings.IsTerminated(str.value)
    ensures Valid(s)
    ensures str.None? ==> s == Default()
    ensures str.Some? ==> s.data.Some? && Length(s) == CStrings.StrLen(str.value) && Text(s) == CStrings.Content(str.value)
  {
    match str
    case None => MyString(None, 0)
    case Some(buf) => MyString(Some(StrCopy(buf)), CStrings.StrLen(buf))
  }

  /** `MyString("...")` for a string literal. */
  function FromLiteral(text: string): (s: MyString)
    requires '\0' !in text
    ensures Valid(s) && s.data.Some? && Text(s) == text && Length(s) == |text|
  {
    FromCString(Some(CStrings.Literal(text)))
  }

  /** Adds a newly constructed object to the store. */
  function Construct(h: Objects, s: MyString): (r: (Objects, nat))
    requires AllValid(h) && Valid(s)
    ensures AllValid(r.0) && r.1 == |h| && |r.0| == |h| + 1
    ensures forall i :: 0 <= i < |h| ==> r.0[i] == h[i]
    ensures r.0[r.1] == s
  {
    var h' := h + [s];
    assert forall i :: 0 <= i < |h| ==> h'[i] == h[i];
    (h', |h|)
  }

  /** `MyString(const MyString& other)`: a deep copy with the same size and
      text; the source is untouched. */
  function CopyOf(other: MyString): (s: MyString)
    requires Valid(other)
    ensures Valid(s)
    ensures Length(s) == Length(other) && Text(s) == Text(other)
    ensures s.data.None? <==> other.data.None?
  {
    match other.data
    case None => MyString(None, other.size)
    case Some(buf) => MyString(Some(StrCopy(buf)), other.size)
  }

  /** The copy constructor as a call on the store. */
  function CopyConstruct(h: Objects, src: nat): (r: (Objects, nat))
    requires src < |h| && AllValid(h)
    ensures AllValid(r.0) && r.1 == |h| && |r.0| == |h| + 1
    ensures forall i :: 0 <= i < |h| ==> r.0[i] == h[i]
    ensures Length(r.0[r.1]) == Length(h[src]) && Text(r.0[r.1]) == Text(h[src])
  {
    Construct(h, CopyOf(h[src]))
  }

  /** `MyString(MyString&& other)`: the new object takes the source's buffer
      and size; the source is left null with size 0. */
  function MoveConstruct(h: Objects, src: nat): (r: (Objects, nat))
    requires src < |h| && AllValid(h)
    ensures AllValid(r.0) && r.1 == |h| && |r.0| == |h| + 1
    ensures r.0[r.1] == h[src]
    ensures r.0[src] == Default()
    ensures forall i :: 0 <= i < |h| && i != src ==> r.0[i] == h[i]
  {
    var moved := h[src];
    (h[src := MyString(None, 0)] + [moved], |h|)
  }

  /** `operator=(const MyString& other)`: self-assignment changes nothing;
      otherwise the target gets a deep copy of the source. */
  function CopyAssign(h: Objects, dst: nat, src: nat): (h': Objects)
    requires dst < |h| && src < |h| && AllValid(h)
    ensures AllValid(h') && |h'| == |h|
    ensures dst == src ==> h' == h
    ensures Length(h'[dst]) == Length(h[src]) && Text(h'[dst]) == Text(h[src])
    ensures forall i :: 0 <= i < |h| && i != dst ==> h'[i] == h[i]
  {
    if dst == src then h else h[dst := CopyOf(h[src])]
  }

  /** `operator=(MyString&& other)`: self-assignment changes nothing;
      otherwise the target takes the source's buffer and size and the
      source is left null with size 0. */
  function MoveAssign(h: Objects, dst: nat, src: nat): (h': Objects)
    requires dst < |h| && src < |h| && AllValid(h)
    ensures AllValid(h') && |h'| == |h|
    ensures dst == src ==> h' == h
    ensures dst != src ==> h'[dst] == h[src] && h'[src] == Default()
    ensures forall i :: 0 <= i < |h| && i != dst && i != src ==> h'[i] == h[i]
  {
    if dst == src then h
    else
      var moved := h[src];
      h[src := MyString(None, 0)][dst := moved]
  }

  /** `demonstrateCopyVsMove`, steps 1 to 3, for any literal `text`:
      `original`, its copy-constructed `copy1` and the copy-assigned `copy2`
      all hold `text`. */
  method CopySteps(text: string) returns (h: Objects)
    requires '\0' !in text
    ensures AllValid(h) && |h| == 3
    ensures Text(h[0]) == text && Text(h[1]) == text && Text(h[2]) == text
  {
    var r := Construct([], FromLiteral(text));
    var original := r.1;
    r := CopyConstruct(r.0, original);
    assert Text(r.0[0]) == text && Text(r.0[1]) == text;
    r := Construct(r.0, Default());
    h := CopyAssign(r.0, r.1, original);
  }

  /** `demonstrateCopyVsMove` with its literals `hello` and `temporary`: the
      text every object holds at the end of the scope, in order of
      construction (original, copy1, copy2, moved1, moved2, and the
      temporary moved from). */
  method CopyVsMove(hello: string, temporary: string) returns (h: Objects)
    requires '\0' !in hello && '\0' !in temporary
    ensures AllValid(h) && |h| == 6
    ensures Text(h[0]) == "" && h[0].data.None? && Length(h[0]) == 0
    ensures Text(h[1]) == hello && Text(h[2]) == hello && Text(h[3]) == hello
    ensures Text(h[4]) == temporary && Length(h[4]) == |temporary|
    ensures h[5] == Default()
  {
    h := CopySteps(hello);
    ghost var copies := h;
    var original, copy1 := 0, 1;
    var r := MoveConstruct(h, original);
    h := r.0;
    r := Construct(h, Default());
    h := r.0;
    var moved2 := r.1;
    r := Construct(h, FromLiteral(temporary));
    h := r.0;
    h := MoveAssign(h, moved2, r.1);
    h := CopyAssign(h, copy1, copy1);
    assert h[1] == copies[1] && h[2] == copies[2] && h[3] == copies[0];
  }

  /** The source's literals: "Hello World" and "Temporary". */
  method CopyVsMoveDemo() returns (h: Objects)
    ensures AllValid(h) && |h| == 6
    ensures h[0] == Default()
    ensures Text(h[1]) == "Hello World" && Text(h[2]) == "Hello World" && Text(h[3]) == "Hello World"
    ensures Text(h[4]) == "Temporary" && Length(h[4]) == 9
  {
    h := CopyVsMove("Hello World", "Temporary");
  }
}
