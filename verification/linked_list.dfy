/**
  The doubly linked `Link` of test/linked_list.cpp and its `insert`, which
  splices a node in front of a reference node.

  Nodes live in an arena (a sequence indexed by handle); a `Link*` becomes an
  `Option<Handle>`, with `None` for `nullptr`. `Insert` replays the source's
  four pointer writes in their order, so calls whose arguments alias (the new
  node is the reference node, or its predecessor) end exactly where the C++
  ends.
 */
module LinkedList {
  import opened Wrappers

  type Handle = nat

  datatype Link = Link(value: string, prev: Option<Handle>, succ: Option<Handle>)

  /** `new Link{v}`: the constructor's defaulted links are both null. */
  function NewLink(v: string): (l: Link)
    ensures l.value == v && l.prev == None && l.succ == None
  {
    Link(v, None, None)
  }

  /** Allocates a fresh node at the end of the arena and returns its handle. */
  function Allocate(arena: seq<Link>, v: string): (r: (seq<Link>, Handle))
    ensures r.1 == |arena| && |r.0| == |arena| + 1
    ensures r.0[..|arena|] == arena
    ensures r.0[r.1] == NewLink(v)
  {
    (arena + [NewLink(v)], |arena|)
  }

  /** A pointer that is null or designates a node of the arena. */
  ghost predicate ValidHandle(arena: seq<Link>, h: Option<Handle>)
  {
    h.None? || h.value < |arena|
  }

  /** No link of any node dangles. */
  ghost predicate WellFormed(arena: seq<Link>)
  {
    forall i :: 0 <= i < |arena| ==> ValidHandle(arena, arena[i].prev) && ValidHandle(arena, arena[i].succ)
  }

  /** Every forward link is matched by a backward link, and vice versa. */
  ghost predicate Consistent(arena: seq<Link>)
  {
    && WellFormed(arena)
    && (forall i :: 0 <= i < |arena| && arena[i].succ.Some? ==> arena[arena[i].succ.value].prev == Some(i))
    && (forall i :: 0 <= i < |arena| && arena[i].prev.Some? ==> arena[arena[i].prev.value].succ == Some(i))
  }

  /** A node that is linked to nothing, as `new Link{v}` leaves it. */
  ghost predicate Detached(arena: seq<Link>, h: Handle)
    requires h < |arena|
  {
    arena[h].prev.None? && arena[h].succ.None?
  }

  /** The predecessor the reference node had before the call. */
  function OldPrev(arena: seq<Link>, p: Option<Handle>): (a: Option<Handle>)
    requires WellFormed(arena) && ValidHandle(arena, p)
    ensures ValidHandle(arena, a)
  {
    if p.None? then None else arena[p.value].prev
  }

  /** `arena[i].succ = s`: one pointer write. */
  function SetSucc(arena: seq<Link>, i: Handle, s: Option<Handle>): (r: seq<Link>)
    requires i < |arena|
    ensures |r| == |arena| && r[i].succ == s
    ensures r[i].value == arena[i].value && r[i].prev == arena[i].prev
    ensures forall k :: 0 <= k < |arena| && k != i ==> r[k] == arena[k]
  {
    arena[i := arena[i].(succ := s)]
  }

  /** `arena[i].prev = p`: one pointer write. */
  function SetPrev(arena: seq<Link>, i: Handle, p: Option<Handle>): (r: seq<Link>)
    requires i < |arena|
    ensures |r| == |arena| && r[i].prev == p
    ensures r[i].value == arena[i].value && r[i].succ == arena[i].succ
    ensures forall k :: 0 <= k < |arena| && k != i ==> r[k] == arena[k]
  {
    arena[i := arena[i].(prev := p)]
  }

  /** `insert(p, n)`: splices `n` immediately before `p` and returns `n`; a
      null `n` returns `p`, a null `p` returns `n`, and neither touches a link. */
  function Insert(arena: seq<Link>, p: Option<Handle>, n: Option<Handle>): (r: (seq<Link>, Option<Handle>))
    requires WellFormed(arena) && ValidHandle(arena, p) && ValidHandle(arena, n)
    // the two pass-through cases
    ensures n.None? ==> r == (arena, p)
    ensures p.None? && n.Some? ==> r == (arena, n)
    // the splice
    ensures p.Some? && n.Some? ==> r.1 == n
    ensures |r.0| == |arena| && WellFormed(r.0)
    ensures p.Some? && n.Some? ==> r.0[p.value].prev == n
    ensures p.Some? && n.Some? && OldPrev(arena, p).Some? ==> r.0[OldPrev(arena, p).value].succ == n
    ensures p.Some? && n.Some? && OldPrev(arena, p) != n ==> r.0[n.value].succ == p
    ensures p.Some? && n.Some? && p != n ==> r.0[n.value].prev == OldPrev(arena, p)
    // the frame: only the successor of n and of p's old predecessor, and the
    // predecessor of n and of p, are written
    ensures forall i :: 0 <= i < |arena| ==> r.0[i].value == arena[i].value
    ensures forall i :: 0 <= i < |arena| && Some(i) != n && Some(i) != OldPrev(arena, p) ==> r.0[i].succ == arena[i].succ
    ensures forall i :: 0 <= i < |arena| && Some(i) != n && Some(i) != p ==> r.0[i].prev == arena[i].prev
  {
    if n.None? then (arena, p)
    else if p.None? then (arena, n)
    else
      var pi, ni := p.value, n.value;
      // n now leads to p
      var a1 := SetSucc(arena, ni, p);
      // p's old predecessor, if there is one, now leads to n
      var a2 := if a1[pi].prev.Some? then SetSucc(a1, a1[pi].prev.value, n) else a1;
      // n takes over p's old predecessor
      var a3 := SetPrev(a2, ni, a2[pi].prev);
      // and p's predecessor becomes n
      var a4 := SetPrev(a3, pi, n);
      (a4, n)
  }

  /** Handles met walking forward from `h` along `succ`, at most `fuel` of them. */
  function Forward(arena: seq<Link>, h: Option<Handle>, fuel: nat): (hs: seq<Handle>)
    requires WellFormed(arena) && ValidHandle(arena, h)
    ensures |hs| <= fuel
    ensures forall k :: 0 <= k < |hs| ==> hs[k] < |arena|
    decreases fuel
  {
    if h.None? || fuel == 0 then [] else [h.value] + Forward(arena, arena[h.value].succ, fuel - 1)
  }

  /** The values stored at the given handles. */
  function Values(arena: seq<Link>, hs: seq<Handle>): (vs: seq<string>)
    requires forall k :: 0 <= k < |hs| ==> hs[k] < |arena|
    ensures |vs| == |hs|
    ensures forall k :: 0 <= k < |hs| ==> vs[k] == arena[hs[k]].value
  {
    seq(|hs|, k requires 0 <= k < |hs| => arena[hs[k]].value)
  }

  /** Splicing a detached node before a node of a consistent arena keeps the
      whole arena consistent: the old pair (a, p) becomes a <-> n <-> p. */
  lemma InsertPreservesConsistency(arena: seq<Link>, p: Handle, n: Handle)
    requires Consistent(arena)
    requires p < |arena| && n < |arena| && p != n
    requires Detached(arena, n)
    ensures Consistent(Insert(arena, Some(p), Some(n)).0)
  {
  }

  /** A forward walk that never reaches `n` reads only links `Insert` left
      alone when `p` has no predecessor. */
  lemma {:induction false} ForwardAvoidsSplice(arena: seq<Link>, arena': seq<Link>, n: Handle, h: Option<Handle>, fuel: nat)
    requires WellFormed(arena) && WellFormed(arena') && |arena'| == |arena|
    requires ValidHandle(arena, h) && h != Some(n)
    requires forall i :: 0 <= i < |arena| ==> arena[i].succ != Some(n)
    requires forall i :: 0 <= i < |arena| && i != n ==> arena'[i].succ == arena[i].succ
    ensures Forward(arena', h, fuel) == Forward(arena, h, fuel)
    decreases fuel
  {
    if h.Some? && fuel > 0 {
      ForwardAvoidsSplice(arena, arena', n, arena[h.value].succ, fuel - 1);
    }
  }

  /** Inserting a detached node in front of a chain head yields a chain that
      starts at the new node and continues with the old chain. */
  lemma InsertAtHead(arena: seq<Link>, p: Handle, n: Handle, fuel: nat)
    requires Consistent(arena)
    requires p < |arena| && n < |arena| && p != n
    requires arena[p].prev.None? && Detached(arena, n)
    ensures var r := Insert(arena, Some(p), Some(n));
      Forward(r.0, r.1, fuel + 1) == [n] + Forward(arena, Some(p), fuel)
  {
    var r := Insert(arena, Some(p), Some(n));
    assert forall i :: 0 <= i < |arena| ==> arena[i].succ != Some(n);
    ForwardAvoidsSplice(arena, r.0, n, Some(p), fuel);
  }

  /** The arena `main` ends with: Thor, Odin and Freja, in order of
      allocation, linked Freja <-> Odin <-> Thor. */
  const Gods: seq<Link> := [Link("Thor", Some(1), None), Link("Odin", Some(2), Some(0)), Link("Freja", None, Some(1))]

  lemma GodsChain()
    ensures Consistent(Gods)
    ensures Forward(Gods, Some(2), 3) == [2, 1, 0]
    ensures Values(Gods, [2, 1, 0]) == ["Freja", "Odin", "Thor"]
  {
    assert Forward(Gods, Some(0), 1) == [0];
    assert Forward(Gods, Some(1), 2) == [1, 0];
  }

  /** The `main` of test/linked_list.cpp: Thor, then Odin and Freja each
      inserted in front of the current head. */
  method NorseGods() returns (arena: seq<Link>, norseGods: Option<Handle>)
    ensures Consistent(arena) && ValidHandle(arena, norseGods)
    ensures norseGods.Some? && arena[norseGods.value].prev.None?
    ensures Values(arena, Forward(arena, norseGods, |arena|)) == ["Freja", "Odin", "Thor"]
    ensures arena[0].value == "Thor" && arena[0].prev == Some(1) && arena[0].succ.None?
  {
    var alloc := Allocate([], "Thor");
    arena, norseGods := alloc.0, Some(alloc.1);
    alloc := Allocate(arena, "Odin");
    var spliced := Insert(alloc.0, norseGods, Some(alloc.1));
    arena, norseGods := spliced.0, spliced.1;
    assert arena == [Link("Thor", Some(1), None), Link("Odin", None, Some(0))];
    alloc := Allocate(arena, "Freja");
    spliced := Insert(alloc.0, norseGods, Some(alloc.1));
    arena, norseGods := spliced.0, spliced.1;
    assert arena == Gods;
    GodsChain();
  }
}
