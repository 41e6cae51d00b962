/** Properties of Flavors.Difference: which current flavors are reported as
    added, which cached flavors as removed, and the special cases the menu
    bot relies on. */
module DifferenceFacts {
  import opened Flavors

  /** Whether `latest[i]` is reported as added when the cached list holds
      the names `cached`: its name is new, or an earlier current item with
      the same name has already used up the match. */
  ghost predicate Kept(latest: seq<IceCream>, cached: set<string>, i: int)
    requires 0 <= i < |latest|
  {
    latest[i].name !in cached || exists j :: 0 <= j < i && latest[j].name == latest[i].name
  }

  /** The items of `latest` that are Kept, in their original order: the
      reference definition of the added side. */
  ghost function KeptItems(latest: seq<IceCream>, cached: set<string>): seq<IceCream>
  {
    if latest == [] then []
    else
      var n := |latest| - 1;
      KeptItems(latest[..n], cached) + (if Kept(latest, cached, n) then [latest[n]] else [])
  }

  /** The items of `s` whose name is not in `names`, in order. */
  function WithoutNames(s: seq<IceCream>, names: set<string>): seq<IceCream>
  {
    if s == [] then []
    else
      var n := |s| - 1;
      WithoutNames(s[..n], names) + (if s[n].name !in names then [s[n]] else [])
  }

  /** WithoutNames keeps exactly the items whose name is not in `names`. */
  lemma {:induction false} WithoutNamesMembers(s: seq<IceCream>, names: set<string>)
    ensures forall x :: x in WithoutNames(s, names) <==> x in s && x.name !in names
  {
    if s != [] {
      var n := |s| - 1;
      WithoutNamesMembers(s[..n], names);
      assert s == s[..n] + [s[n]];
    }
  }

  /** Extending the prefix by one item appends it to KeptItems exactly when
      its name is new or already seen earlier in the prefix. */
  lemma KeptItemsStep(s: seq<IceCream>, names: set<string>, n: int)
    requires 0 <= n < |s|
    ensures KeptItems(s[..n + 1], names) ==
      KeptItems(s[..n], names) + (if s[n].name !in names || s[n].name in Names(s[..n]) then [s[n]] else [])
  {
    var t := s[..n + 1];
    assert t[..n] == s[..n];
    assert t[n] == s[n];
    assert Kept(t, names, n) <==> s[n].name !in names || s[n].name in Names(s[..n]) by {
      if s[n].name in Names(s[..n]) {
        var j :| 0 <= j < n && s[..n][j].name == s[n].name;
        assert t[j] == s[..n][j];
      }
      if exists j :: 0 <= j < n && t[j].name == t[n].name {
        var j :| 0 <= j < n && t[j].name == t[n].name;
        assert s[..n][j] == t[j];
      }
    }
  }

  /** One step of the scan, seen from position `n`. */
  lemma ScanStep(s: seq<IceCream>, p: map<string, IceCream>, n: int)
    requires 0 <= n < |s|
    ensures s[n].name !in p ==> Scan(s[n..], p).0 == [s[n]] + Scan(s[n + 1..], p).0
    ensures s[n].name !in p ==> Scan(s[n..], p).1 == Scan(s[n + 1..], p).1
    ensures s[n].name in p ==> Scan(s[n..], p) == Scan(s[n + 1..], p - {s[n].name})
  {
    assert s[n..][0] == s[n] && s[n..][1..] == s[n + 1..];
  }

  lemma PendingStep(m: map<string, IceCream>, done: set<string>, name: string)
    ensures name !in m - done ==> m - (done + {name}) == m - done
    ensures name in m - done ==> m - (done + {name}) == (m - done) - {name}
  {
  }

  /** The loop invariant of the matching loop, stated on the reference
      definition: after the first `n` items, the added list so far is
      KeptItems of that prefix, and the rest of the scan supplies the rest. */
  lemma {:induction false} ScanFrom(s: seq<IceCream>, m: map<string, IceCream>, n: int)
    requires 0 <= n <= |s|
    ensures KeptItems(s[..n], m.Keys) + Scan(s[n..], m - Names(s[..n])).0 == KeptItems(s, m.Keys)
    decreases |s| - n
  {
    if n == |s| {
      assert s[..n] == s;
    } else {
      ScanFrom(s, m, n + 1);
      ScanFromStep(s, m, n);
    }
  }

  /** Moving the boundary of ScanFrom one item to the right changes
      neither side. */
  lemma ScanFromStep(s: seq<IceCream>, m: map<string, IceCream>, n: int)
    requires 0 <= n < |s|
    ensures KeptItems(s[..n], m.Keys) + Scan(s[n..], m - Names(s[..n])).0
         == KeptItems(s[..n + 1], m.Keys) + Scan(s[n + 1..], m - Names(s[..n + 1])).0
  {
    var name := s[n].name;
    var done := Names(s[..n]);
    var p := m - done;
    assert Names(s[..n + 1]) == done + {name} by {
      NamesSnoc(s[..n + 1]);
      assert s[..n + 1][..n] == s[..n];
    }
    ScanStep(s, p, n);
    KeptItemsStep(s, m.Keys, n);
    PendingStep(m, done, name);
    var before := KeptItems(s[..n], m.Keys);
    if name !in p {
      ConcatAssoc(before, [s[n]], Scan(s[n + 1..], p).0);
    }
  }

  lemma ConcatAssoc(a: seq<IceCream>, b: seq<IceCream>, c: seq<IceCream>)
    ensures a + (b + c) == (a + b) + c
  {
  }

  /** The whole scan of `s` against `m` is KeptItems of `s`. */
  lemma ScanKept(s: seq<IceCream>, m: map<string, IceCream>)
    ensures Scan(s, m).0 == KeptItems(s, m.Keys)
  {
    ScanFrom(s, m, 0);
    assert s[..0] == [] && s[0..] == s;
    assert Names(s[..0]) == {};
    assert m - Names(s[..0]) == m;
  }

  /** In the general case the added side is exactly KeptItems: every current
      item whose name is new, plus every repeat of a name whose first
      occurrence already matched a cached item, in current order. */
  lemma AddedCharacterization(latest: seq<IceCream>, last: seq<IceCream>)
    requires |latest| > 0 && |last| > 0
    ensures Difference(latest, last).added == KeptItems(latest, Names(last))
  {
    ScanKept(latest, IndexByName(last));
  }

  lemma {:induction false} KeptItemsUnique(s: seq<IceCream>, names: set<string>)
    requires UniqueNames(s)
    ensures KeptItems(s, names) == WithoutNames(s, names)
  {
    if s != [] {
      var n := |s| - 1;
      assert UniqueNames(s[..n]);
      KeptItemsUnique(s[..n], names);
      assert Kept(s, names, n) <==> s[n].name !in names;
    }
  }

  /** With unique current names, the added side is the current list with
      every cached name filtered out, order kept. */
  lemma AddedFilter(latest: seq<IceCream>, last: seq<IceCream>)
    requires UniqueNames(latest)
    ensures Difference(latest, last).added == WithoutNames(latest, Names(last))
  {
    if |latest| > 0 && |last| > 0 {
      AddedCharacterization(latest, last);
      KeptItemsUnique(latest, Names(last));
    } else if |latest| == 0 {
      assert WithoutNames(latest, Names(last)) == [];
    } else {
      WithoutNamesNone(latest, Names(last));
    }
  }

  lemma {:induction false} WithoutNamesNone(s: seq<IceCream>, names: set<string>)
    requires forall i :: 0 <= i < |s| ==> s[i].name !in names
    ensures WithoutNames(s, names) == s
  {
    if s != [] {
      var n := |s| - 1;
      assert s[n].name !in names;
      assert forall i :: 0 <= i < n ==> s[..n][i] == s[i];
      WithoutNamesNone(s[..n], names);
      assert s == s[..n] + [s[n]];
    }
  }

  /** With unique current names, a current flavor is reported as added if
      and only if no cached flavor has its name. */
  lemma AddedIff(latest: seq<IceCream>, last: seq<IceCream>, x: IceCream)
    requires UniqueNames(latest)
    ensures x in Difference(latest, last).added <==> x in latest && x.name !in Names(last)
  {
    AddedFilter(latest, last);
    WithoutNamesMembers(latest, Names(last));
  }

  lemma {:induction false} ScanCount(s: seq<IceCream>, p: map<string, IceCream>)
    ensures |Scan(s, p).0| == |s| - |Names(s) * p.Keys|
  {
    if s != [] {
      NamesCons(s);
      var name := s[0].name;
      if name !in p {
        ScanCount(s[1..], p);
        assert Names(s) * p.Keys == Names(s[1..]) * p.Keys;
      } else {
        ScanCount(s[1..], p - {name});
        var rest := Names(s[1..]) * (p - {name}).Keys;
        assert Names(s) * p.Keys == rest + {name};
        assert name !in rest;
      }
    }
  }

  /** Each cached name that occurs among the current flavors swallows
      exactly one current item (its first occurrence); all other current
      items are added. */
  lemma AddedCount(latest: seq<IceCream>, last: seq<IceCream>)
    requires |latest| > 0 && |last| > 0
    ensures |Difference(latest, last).added| == |latest| - |Names(latest) * Names(last)|
  {
    ScanCount(latest, IndexByName(last));
  }

  /** Two matching flavors with the same name: the first is matched against
      the cache, the second is reported as added. */
  lemma DuplicateNameSecondAdded(a: IceCream, a2: IceCream, b: IceCream)
    requires a.name == a2.name == b.name
    ensures Difference([a, a2], [b]) == Diff([a2], [])
  {
    AddedCharacterization([a, a2], [b]);
    assert Kept([a, a2], {b.name}, 1);
    assert [a, a2][..1] == [a];
    assert !Kept([a], {b.name}, 0);
    assert Names([b]) == {b.name};
    NamesCons([a, a2]);
    assert Names([a, a2]) == {b.name};
    DifferenceShape([a, a2], [b]);
    NoNames(Difference([a, a2], [b]).removed);
    assert KeptItems([a], {b.name}) == [];
    assert KeptItems([a, a2], {b.name}) == [a2];
  }

  /** For a unique-element list, each element occurs exactly once. */
  lemma {:induction false} UniqueMultiplicity(s: seq<IceCream>, x: IceCream)
    requires UniqueNames(s)
    ensures multiset(s)[x] == if x in s then 1 else 0
  {
    if s != [] {
      assert s == [s[0]] + s[1..];
      assert UniqueNames(s[1..]);
      UniqueMultiplicity(s[1..], x);
      if x == s[0] {
        assert x !in s[1..];
      }
    }
  }

  /** RemovedExactly pins the removed side down to a permutation: any two
      lists that meet it hold the same items the same number of times. */
  lemma RemovedUpToPermutation(latest: seq<IceCream>, last: seq<IceCream>, r1: seq<IceCream>, r2: seq<IceCream>)
    requires RemovedExactly(latest, last, r1) && RemovedExactly(latest, last, r2)
    ensures multiset(r1) == multiset(r2)
  {
    forall x | x in r1 ensures x in r2 {
      SameRemovedItem(latest, last, r1, r2, x);
    }
    forall x | x in r2 ensures x in r1 {
      SameRemovedItem(latest, last, r2, r1, x);
    }
    forall x ensures multiset(r1)[x] == multiset(r2)[x] {
      UniqueMultiplicity(r1, x);
      UniqueMultiplicity(r2, x);
    }
  }

  lemma SameRemovedItem(latest: seq<IceCream>, last: seq<IceCream>, r1: seq<IceCream>, r2: seq<IceCream>, x: IceCream)
    requires RemovedExactly(latest, last, r1) && RemovedExactly(latest, last, r2)
    requires x in r1
    ensures x in r2
  {
    assert x.name in Names(r2);
    var y :| y in r2 && y.name == x.name;
    var i :| 0 <= i < |last| && IsLastOccurrence(last, i) && last[i] == x;
    var j :| 0 <= j < |last| && IsLastOccurrence(last, j) && last[j] == y;
    assert i == j;
  }

  /** Comparing a list with unique names against itself reports nothing. */
  lemma DifferenceSelf(xs: seq<IceCream>)
    requires UniqueNames(xs)
    ensures Difference(xs, xs) == Diff([], [])
  {
    if xs != [] {
      AddedFilter(xs, xs);
      WithoutAllNames(xs, Names(xs));
      DifferenceShape(xs, xs);
      NoNames(Difference(xs, xs).removed);
    }
  }

  lemma {:induction false} WithoutAllNames(s: seq<IceCream>, names: set<string>)
    requires Names(s) <= names
    ensures WithoutNames(s, names) == []
  {
    if s != [] {
      var n := |s| - 1;
      NamesSnoc(s);
      WithoutAllNames(s[..n], names);
    }
  }

  /** Lists with no name in common: everything current is added and,
      up to order, everything cached is removed. */
  lemma DifferenceDisjoint(latest: seq<IceCream>, last: seq<IceCream>)
    requires Names(latest) !! Names(last)
    requires UniqueNames(last)
    ensures Difference(latest, last).added == latest
    ensures multiset(Difference(latest, last).removed) == multiset(last)
  {
    if |latest| > 0 && |last| > 0 {
      AddedCharacterization(latest, last);
      KeptItemsAll(latest, Names(last));
      AllRemoved(latest, last);
      DifferenceShape(latest, last);
      RemovedUpToPermutation(latest, last, Difference(latest, last).removed, last);
    }
  }

  /** A cached list with unique names, none of them current, meets the
      removed-side description itself. */
  lemma AllRemoved(latest: seq<IceCream>, last: seq<IceCream>)
    requires Names(latest) !! Names(last)
    requires UniqueNames(last)
    ensures RemovedExactly(latest, last, last)
  {
    forall x | x in last
      ensures exists i :: 0 <= i < |last| && IsLastOccurrence(last, i) && last[i] == x
    {
      var i :| 0 <= i < |last| && last[i] == x;
      assert IsLastOccurrence(last, i);
    }
  }

  lemma {:induction false} KeptItemsAll(s: seq<IceCream>, names: set<string>)
    requires Names(s) !! names
    ensures KeptItems(s, names) == s
  {
    if s != [] {
      var n := |s| - 1;
      NamesSnoc(s);
      KeptItemsAll(s[..n], names);
      assert Kept(s, names, n);
      assert s == s[..n] + [s[n]];
    }
  }

  /** Matching is by name only: with unique current names, a flavor whose
      description or details changed under the same name is neither added
      nor removed. */
  lemma NameOnlyMatching(latest: seq<IceCream>, last: seq<IceCream>, x: IceCream, y: IceCream)
    requires UniqueNames(latest)
    requires x in latest && y in last && x.name == y.name
    ensures x !in Difference(latest, last).added
    ensures x.name !in Names(Difference(latest, last).removed)
  {
    AddedIff(latest, last, x);
    DifferenceShape(latest, last);
  }
}
