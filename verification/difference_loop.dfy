/** The difference computed the way the source computes it: a lookup map
    built in one loop, a matching loop that deletes matched names, and a
    final loop over whatever the map still holds, taken in an arbitrary
    order (main.go:286-320, the same code as cmd/newcity/icecream.go). */
module DifferenceLoop {
  import opened Flavors
  import DifferenceFacts

  /** Deleting key `k` takes exactly its value out of the leftover items. */
  lemma {:induction false} LeftoverRemove(last: seq<IceCream>, m: map<string, IceCream>, k: string)
    requires WellKeyed(m) && k in m && k in Names(last)
    ensures multiset(Leftover(last, m)) == multiset(Leftover(last, m - {k})) + multiset{m[k]}
  {
    var n := |last| - 1;
    var init := last[..n];
    var name := last[n].name;
    var tail := if name in m then [m[name]] else [];
    var mk := m - {k};
    assert Leftover(last, m) == Leftover(init, m - {name}) + tail;
    if name == k {
      assert Leftover(last, mk) == Leftover(init, mk - {k}) by {
        assert k !in mk;
      }
      assert mk - {k} == mk;
    } else {
      assert k in Names(init) by {
        NamesSnoc(last);
      }
      var mn := m - {name};
      assert Leftover(last, mk) == Leftover(init, mk - {name}) + tail by {
        assert (if name in mk then [mk[name]] else []) == tail;
      }
      assert mn - {k} == mk - {name};
      LeftoverRemove(init, mn, k);
      assert mn[k] == m[k];
      calc {
        multiset(Leftover(last, m));
        multiset(Leftover(init, mn)) + multiset(tail);
        multiset(Leftover(init, mn - {k})) + multiset{m[k]} + multiset(tail);
        multiset(Leftover(init, mk - {name})) + multiset(tail) + multiset{m[k]};
        multiset(Leftover(last, mk)) + multiset{m[k]};
      }
    }
  }

  lemma LeftoverOfEmpty(last: seq<IceCream>, m: map<string, IceCream>)
    requires WellKeyed(m) && m == map[]
    ensures Leftover(last, m) == []
  {
  }

  /** The first loop of the source: every cached item is stored under its
      name, later ones overwriting earlier ones. */
  method BuildLookup(last: seq<IceCream>) returns (lastMapped: map<string, IceCream>)
    ensures lastMapped == IndexByName(last)
  {
    lastMapped := map[];
    var i := 0;
    while i < |last|
      invariant 0 <= i <= |last|
      invariant lastMapped == IndexByName(last[..i])
    {
      assert last[..i + 1][..i] == last[..i];
      lastMapped := lastMapped[last[i].name := last[i]];
      i := i + 1;
    }
    assert last[..|last|] == last;
  }

  /** The second loop of the source: an unmatched current item is added, a
      matched one deletes its name from the lookup map. */
  method MatchLatest(latest: seq<IceCream>, full: map<string, IceCream>) returns (added: seq<IceCream>, lastMapped: map<string, IceCream>)
    requires WellKeyed(full)
    ensures added == Scan(latest, full).0 && lastMapped == Scan(latest, full).1
  {
    added, lastMapped := [], full;
    var j := 0;
    while j < |latest|
      invariant 0 <= j <= |latest|
      invariant WellKeyed(lastMapped)
      invariant added + Scan(latest[j..], lastMapped).0 == Scan(latest, full).0
      invariant Scan(latest[j..], lastMapped).1 == Scan(latest, full).1
    {
      DifferenceFacts.ScanStep(latest, lastMapped, j);
      if latest[j].name !in lastMapped {
        DifferenceFacts.ConcatAssoc(added, [latest[j]], Scan(latest[j + 1..], lastMapped).0);
        added := added + [latest[j]];
      } else {
        WellKeyedMinus(lastMapped, {latest[j].name});
        lastMapped := lastMapped - {latest[j].name};
      }
      j := j + 1;
    }
    assert latest[j..] == [];
    assert Scan(latest[j..], lastMapped) == ([], lastMapped);
  }

  /** The third loop of the source: the values still in the map, in an
      order the map chooses. */
  method DrainLookup(last: seq<IceCream>, remaining: map<string, IceCream>) returns (removed: seq<IceCream>)
    requires WellKeyed(remaining) && remaining.Keys <= Names(last)
    ensures multiset(removed) == multiset(Leftover(last, remaining))
  {
    removed := [];
    var lastMapped := remaining;
    while lastMapped != map[]
      invariant WellKeyed(lastMapped) && lastMapped.Keys <= Names(last)
      invariant multiset(removed) + multiset(Leftover(last, lastMapped)) == multiset(Leftover(last, remaining))
      decreases lastMapped.Keys
    {
      var name :| name in lastMapped;
      LeftoverRemove(last, lastMapped, name);
      removed := removed + [lastMapped[name]];
      lastMapped := lastMapped - {name};
    }
    LeftoverOfEmpty(last, lastMapped);
  }

  /** Computes the added and removed flavors of one category. `added` is
      exactly the functional model's; `removed` holds the same items, in
      whatever order the map hands them out. */
  method ComputeDifference(latest: seq<IceCream>, last: seq<IceCream>) returns (added: seq<IceCream>, removed: seq<IceCream>)
    ensures added == Difference(latest, last).added
    ensures multiset(removed) == multiset(Difference(latest, last).removed)
  {
    if |latest| == 0 || |last| == 0 {
      added, removed := [], [];
      if |latest| == 0 {
        removed := last;
      }
      if |last| == 0 {
        added := latest;
      }
      return;
    }
    var lastMapped := BuildLookup(last);
    added, lastMapped := MatchLatest(latest, lastMapped);
    removed := DrainLookup(last, lastMapped);
  }
}
