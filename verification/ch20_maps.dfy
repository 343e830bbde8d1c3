/**
  `std::map<std::string, V>` as ch20/ch20_hw_1.cc and ch20/ch20_hw_2.cc use
  it: `operator[]` (section [map.access] of ISO/IEC 14882), `find`, and
  in-order traversal. The map is a Dafny `map`; the order a traversal visits
  its entries is what `Traverse` establishes.
 */
module OrderedMaps {
  import opened Wrappers
  import opened LexOrder

  /** `m[k]`: when `k` is absent, a value-initialised `default` is inserted
      first; the second component is the mapped value. */
  function Subscript<V>(m: map<string, V>, k: string, default: V): (r: (map<string, V>, V))
    ensures k in r.0 && r.1 == r.0[k]
    ensures r.0.Keys == m.Keys + {k}
    ensures k in m ==> r.0 == m
    ensures k !in m ==> r.1 == default
    ensures forall x :: x in m ==> x in r.0 && r.0[x] == m[x]
  {
    if k in m then (m, m[k]) else (m[k := default], default)
  }

  /** `m.find(k)`: the mapped value, or `None` for `end()`. */
  function Find<V>(m: map<string, V>, k: string): (r: Option<V>)
    ensures r.Some? <==> k in m
    ensures r.Some? ==> r.value == m[k]
  {
    if k in m then Some(m[k]) else None
  }

  /** The keys of a sequence of entries, in order. */
  function KeysOf<V>(entries: seq<(string, V)>): (ks: seq<string>)
    ensures |ks| == |entries|
    ensures forall i :: 0 <= i < |entries| ==> ks[i] == entries[i].0
  {
    seq(|entries|, i requires 0 <= i < |entries| => entries[i].0)
  }

  /** `k` is the least element of `s`. */
  predicate IsLeast(k: string, s: set<string>)
  {
    k in s && forall y :: y in s && y != k ==> LexLess(k, y)
  }

  /** Every non-empty set of strings has a least element. */
  lemma {:induction false} MinimumExists(s: set<string>)
    requires s != {}
    ensures exists k :: IsLeast(k, s)
    decreases s
  {
    var x :| x in s;
    if s == {x} {
      assert IsLeast(x, s);
    } else {
      var rest := s - {x};
      MinimumExists(rest);
      var k :| IsLeast(k, rest);
      if LexLess(x, k) {
        forall y | y in s && y != x
          ensures LexLess(x, y)
        {
          if y != k {
            LexLessTransitive(x, k, y);
          }
        }
        assert IsLeast(x, s);
      } else {
        LexLessTotal(x, k);
        assert IsLeast(k, s);
      }
    }
  }

  /** Midway through a traversal of a map with key set `all`: the keys `ks`
      visited so far ascend strictly and all precede the keys `remaining`
      to visit, and the two together are the whole key set. */
  ghost predicate Visited(ks: seq<string>, remaining: set<string>, all: set<string>)
  {
    && Elements(ks) + remaining == all
    && Elements(ks) !! remaining
    && StrictlyAscending(ks)
    && (forall i, y :: 0 <= i < |ks| && y in remaining ==> LexLess(ks[i], y))
  }

  /** Visiting the least remaining key next keeps a traversal in order. */
  lemma VisitLeast(ks: seq<string>, remaining: set<string>, all: set<string>, k: string)
    requires Visited(ks, remaining, all) && IsLeast(k, remaining)
    ensures Visited(ks + [k], remaining - {k}, all)
  {
    ElementsSnoc(ks, k);
    var ks' := ks + [k];
    forall i, j | 0 <= i < j < |ks'|
      ensures LexLess(ks'[i], ks'[j])
    {
      if j < |ks| {
        assert ks'[i] == ks[i] && ks'[j] == ks[j];
      }
    }
  }

  /** `entries` lists the keys `ks` of `m`, each with its mapped value. */
  ghost predicate Listed<V>(entries: seq<(string, V)>, ks: seq<string>, m: map<string, V>)
  {
    |ks| == |entries| && forall i :: 0 <= i < |entries| ==> ks[i] == entries[i].0 && ks[i] in m && entries[i].1 == m[ks[i]]
  }

  lemma ListNext<V>(entries: seq<(string, V)>, ks: seq<string>, m: map<string, V>, k: string)
    requires Listed(entries, ks, m) && k in m
    ensures Listed(entries + [(k, m[k])], ks + [k], m)
  {
  }

  /** The least key of a non-empty set. */
  method Least(s: set<string>) returns (k: string)
    requires s != {}
    ensures IsLeast(k, s)
  {
    MinimumExists(s);
    k :| IsLeast(k, s);
  }

  /** `for (const auto& entry : m)`: every entry exactly once, in strictly
      ascending key order, each key with its mapped value. */
  method Traverse<V>(m: map<string, V>) returns (entries: seq<(string, V)>)
    ensures StrictlyAscending(KeysOf(entries))
    ensures Elements(KeysOf(entries)) == m.Keys
    ensures |entries| == |m|
    ensures forall i :: 0 <= i < |entries| ==> entries[i].0 in m && entries[i].1 == m[entries[i].0]
  {
    entries := [];
    ghost var ks: seq<string> := [];
    var remaining := m.Keys;
    ElementsEmpty(ks);
    while remaining != {}
      invariant Listed(entries, ks, m)
      invariant Visited(ks, remaining, m.Keys)
      decreases |remaining|
    {
      var k := Least(remaining);
      VisitLeast(ks, remaining, m.Keys, k);
      ListNext(entries, ks, m, k);
      ks := ks + [k];
      entries := entries + [(k, m[k])];
      remaining := remaining - {k};
    }
    assert ks == KeysOf(entries);
    assert forall i :: 0 <= i < |entries| ==> entries[i].0 == ks[i];
    StrictlyAscendingIsDistinct(ks);
    DistinctCardinality(ks);
  }
}

/**
  ch20/ch20_hw_1.cc: `++words[s]` for every whitespace-separated token read,
  then the counts in key order. The tokens are a parameter.
 */
module WordCount {
  import opened LexOrder
  import opened OrderedMaps
  import opened MachineInt

  /** How often `w` occurs in `s`, counted from the back. */
  function Occ(s: seq<string>, w: string): (n: nat)
    ensures n == multiset(s)[w]
    ensures n > 0 <==> w in s
  {
    if |s| == 0 then 0
    else
      assert s == s[..|s| - 1] + [s[|s| - 1]];
      Occ(s[..|s| - 1], w) + (if s[|s| - 1] == w then 1 else 0)
  }

  /** `words` holds the count of every token in `seen`, and nothing else. */
  ghost predicate Counts(words: map<string, int>, seen: seq<string>)
  {
    words.Keys == Elements(seen) && forall w :: w in words ==> words[w] == Occ(seen, w)
  }

  /** `++words[s]` extends the counts by one more token. */
  lemma CountNext(words: map<string, int>, seen: seq<string>, s: string)
    requires Counts(words, seen)
    ensures var entry := Subscript(words, s, 0);
      entry.1 == Occ(seen, s) && Counts(entry.0[s := entry.1 + 1], seen + [s])
  {
    var seen' := seen + [s];
    var entry := Subscript(words, s, 0);
    var words' := entry.0[s := entry.1 + 1];
    ElementsSnoc(seen, s);
    assert seen'[..|seen|] == seen;
    assert entry.1 == Occ(seen, s) by {
      if s !in words {
        assert s !in seen;
      }
    }
    forall w | w in words'
      ensures words'[w] == Occ(seen', w)
    {
      assert Occ(seen', w) == Occ(seen, w) + (if s == w then 1 else 0);
      if w != s {
        assert words'[w] == words[w];
      }
    }
    assert words'.Keys == Elements(seen') by {
      assert words'.Keys == words.Keys + {s} == Elements(seen) + {s};
    }
  }

  /** The word-count loop. Each count stays at most `|tokens|`, so a token
      stream no longer than `INT_MAX` cannot overflow the `int` counters. */
  method CountWords(tokens: seq<string>) returns (words: map<string, int>)
    requires |tokens| <= INT_MAX
    ensures words.Keys == Elements(tokens)
    ensures forall w :: w in words ==> words[w] == Occ(tokens, w) && words[w] >= 1
  {
    words := map[];
    ElementsEmpty(tokens[..0]);
    for i := 0 to |tokens|
      invariant Counts(words, tokens[..i])
    {
      var s := tokens[i];
      CountNext(words, tokens[..i], s);
      var entry := Subscript(words, s, 0);
      assert IsInt32(entry.1 + 1);
      words := entry.0[s := entry.1 + 1];
      assert tokens[..i + 1] == tokens[..i] + [s];
    }
    assert tokens[..|tokens|] == tokens;
  }

  /** The sum of the counts a traversal prints. */
  function SumCounts(entries: seq<(string, int)>): int
  {
    if |entries| == 0 then 0 else SumCounts(entries[..|entries| - 1]) + entries[|entries| - 1].1
  }

  /** `Occ(t, k)` summed over the keys `ks`. */
  ghost function Tally(ks: seq<string>, t: seq<string>): nat
  {
    if |ks| == 0 then 0 else Tally(ks[..|ks| - 1], t) + Occ(t, ks[|ks| - 1])
  }

  lemma {:induction false} TallySnoc(ks: seq<string>, t: seq<string>, x: string)
    ensures Tally(ks, t + [x]) == Tally(ks, t) + Occ(ks, x)
    decreases |ks|
  {
    if |ks| > 0 {
      TallySnoc(ks[..|ks| - 1], t, x);
      assert (t + [x])[..|t|] == t;
    }
  }

  lemma {:induction false} TallyEmpty(ks: seq<string>)
    ensures Tally(ks, []) == 0
    decreases |ks|
  {
    if |ks| > 0 {
      TallyEmpty(ks[..|ks| - 1]);
    }
  }

  lemma {:induction false} DistinctOcc(ks: seq<string>, x: string)
    requires Distinct(ks) && x in ks
    ensures Occ(ks, x) == 1
    decreases |ks|
  {
    var init := ks[..|ks| - 1];
    assert ks == init + [ks[|ks| - 1]];
    if ks[|ks| - 1] == x {
      assert x !in init;
    } else {
      DistinctOcc(init, x);
    }
  }

  /** Counting every token once under its own key accounts for all tokens. */
  lemma {:induction false} TallyCoversTokens(ks: seq<string>, t: seq<string>)
    requires Distinct(ks) && Elements(t) <= Elements(ks)
    ensures Tally(ks, t) == |t|
    decreases |t|
  {
    if |t| == 0 {
      TallyEmpty(ks);
    } else {
      var init := t[..|t| - 1];
      var x := t[|t| - 1];
      assert t == init + [x];
      ElementsSnoc(init, x);
      TallyCoversTokens(ks, init);
      TallySnoc(ks, init, x);
      DistinctOcc(ks, x);
    }
  }

  lemma {:induction false} SumCountsIsTally(entries: seq<(string, int)>, t: seq<string>)
    requires forall i :: 0 <= i < |entries| ==> entries[i].1 == Occ(t, entries[i].0)
    ensures SumCounts(entries) == Tally(KeysOf(entries), t)
    decreases |entries|
  {
    if |entries| > 0 {
      var init := entries[..|entries| - 1];
      assert KeysOf(init) == KeysOf(entries)[..|entries| - 1];
      SumCountsIsTally(init, t);
    }
  }

  /** The whole program: the printed lines are the distinct tokens in
      strictly ascending order, each with its number of occurrences, and the
      counts add up to the number of tokens read. */
  method WordFrequencies(tokens: seq<string>) returns (entries: seq<(string, int)>)
    requires |tokens| <= INT_MAX
    ensures StrictlyAscending(KeysOf(entries))
    ensures Elements(KeysOf(entries)) == Elements(tokens)
    ensures forall i :: 0 <= i < |entries| ==> entries[i].1 == Occ(tokens, entries[i].0) >= 1
    ensures SumCounts(entries) == |tokens|
  {
    var words := CountWords(tokens);
    entries := Traverse(words);
    SumCountsIsTally(entries, tokens);
    StrictlyAscendingIsDistinct(KeysOf(entries));
    TallyCoversTokens(KeysOf(entries), tokens);
  }
}

/**
  ch20/ch20_hw_2.cc: ten contacts stored through `operator[]`, a lookup
  guarded by `find`, and the traversal of the book.
 */
module PhoneBook {
  import opened Wrappers
  import opened LexOrder
  import opened OrderedMaps

  const Contacts: seq<(string, string)> := [
    ("Alice", "555-1234"), ("Bob", "555-5678"), ("Charlie", "555-9012"),
    ("Diana", "555-3456"), ("Ethan", "555-7890"), ("Fiona", "555-2468"),
    ("George", "555-1357"), ("Hannah", "555-8024"), ("Ivan", "555-6913"),
    ("Julia", "555-4792")]

  /** `book[name] = number`: `operator[]` inserts an empty string when the
      name is new, and the assignment overwrites it. */
  function Assign(book: map<string, string>, name: string, number: string): (book': map<string, string>)
    ensures book'.Keys == book.Keys + {name}
    ensures book'[name] == number
    ensures forall x :: x in book && x != name ==> book'[x] == book[x]
  {
    var slot := Subscript(book, name, "");
    slot.0[name := number]
  }

  /** The names of the contacts begin with ten different letters. */
  lemma ContactNamesDistinct()
    ensures forall j, l :: 0 <= j < l < |Contacts| ==> Contacts[j].0 != Contacts[l].0
  {
    forall j, l | 0 <= j < l < |Contacts|
      ensures Contacts[j].0 != Contacts[l].0
    {
      assert Contacts[j].0[0] != Contacts[l].0[0];
    }
  }

  /** `book[name] = number` for each contact in turn, starting from an empty
      book: every name is a key, and a name that is not assigned again later
      keeps the number it was given. */
  method AssignAll(contacts: seq<(string, string)>) returns (book: map<string, string>)
    ensures book.Keys == Elements(KeysOf(contacts))
    ensures forall j :: 0 <= j < |contacts| && (forall l :: j < l < |contacts| ==> contacts[l].0 != contacts[j].0) ==>
      book[contacts[j].0] == contacts[j].1
  {
    book := map[];
    for i := 0 to |contacts|
      invariant book.Keys == Elements(KeysOf(contacts[..i]))
      invariant forall j :: 0 <= j < i && (forall l :: j < l < i ==> contacts[l].0 != contacts[j].0) ==>
        book[contacts[j].0] == contacts[j].1
    {
      assert KeysOf(contacts[..i + 1]) == KeysOf(contacts[..i]) + [contacts[i].0];
      ElementsSnoc(KeysOf(contacts[..i]), contacts[i].0);
      book := Assign(book, contacts[i].0, contacts[i].1);
    }
    assert contacts[..|contacts|] == contacts;
  }

  /** The ten assignments at the start of `main`. */
  method Populate() returns (book: map<string, string>)
    ensures book.Keys == Elements(KeysOf(Contacts))
    ensures forall j :: 0 <= j < |Contacts| ==> book[Contacts[j].0] == Contacts[j].1
  {
    book := AssignAll(Contacts);
    ContactNamesDistinct();
  }

  /** The guarded lookup: `operator[]` runs only after `find` has succeeded,
      so it never inserts; the book is returned unchanged. */
  function Lookup(book: map<string, string>, name: string): (r: (map<string, string>, Option<string>))
    ensures r.0 == book
    ensures r.1.Some? <==> name in book
    ensures r.1.Some? ==> r.1.value == book[name]
  {
    if Find(book, name).Some? then
      var slot := Subscript(book, name, "");
      (slot.0, Some(slot.1))
    else (book, None)
  }

  /** The names of the contacts are listed in strictly ascending order. */
  lemma ContactNamesAscending()
    ensures StrictlyAscending(KeysOf(Contacts))
  {
    var names := KeysOf(Contacts);
    forall i | 0 <= i < |names| - 1
      ensures LexLess(names[i], names[i + 1])
    {
      assert names[i][0] < names[i + 1][0];
    }
    ChainIsStrictlyAscending(names);
  }

  /** `main` with the name read being `name`: the lookup's outcome, and the
      traversal, which lists the contacts Alice .. Julia in the order they
      were added. */
  method PhoneBookDemo(name: string) returns (found: Option<string>, entries: seq<(string, string)>)
    ensures found.Some? <==> name in KeysOf(Contacts)
    ensures name == "Alice" ==> found == Some("555-1234")
    ensures entries == Contacts
  {
    var book := Populate();
    assert name in book <==> name in KeysOf(Contacts);
    var r := Lookup(book, name);
    book, found := r.0, r.1;
    assert Contacts[0].0 == "Alice";
    entries := Traverse(book);
    ContactNamesAscending();
    StrictlyAscendingUnique(KeysOf(entries), KeysOf(Contacts));
    forall i | 0 <= i < |entries|
      ensures entries[i] == Contacts[i]
    {
      assert entries[i].0 == KeysOf(entries)[i] == KeysOf(Contacts)[i] == Contacts[i].0;
    }
  }
}
