/** Flavors, snapshots and the per-category difference between the
    current list and the cached one (cmd/newcity/icecream.go). */
module Flavors {

  /** One flavor as scraped from the menu: its raw allergen codes are the
      pieces of the parenthesised details text. */
  datatype IceCream = IceCream(name: string, description: string, rawDetails: seq<string>)

  /** One menu section and its flavors in display order. */
  datatype Category = Category(title: string, flavors: seq<IceCream>)

  /** A snapshot of the menu. The source keeps it in a Go map, whose
      iteration order is unspecified; here that order is part of the input. */
  type Snapshot = seq<Category>

  /** What changed in one category: the flavors that appeared and the
      flavors that disappeared. */
  datatype Diff = Diff(added: seq<IceCream>, removed: seq<IceCream>)

  function Names(s: seq<IceCream>): set<string>
  {
    set x | x in s :: x.name
  }

  predicate UniqueNames(s: seq<IceCream>)
  {
    forall i, j :: 0 <= i < j < |s| ==> s[i].name != s[j].name
  }

  /** No later item of `s` has the name of `s[i]`. */
  predicate IsLastOccurrence(s: seq<IceCream>, i: int)
    requires 0 <= i < |s|
  {
    forall j :: i < j < |s| ==> s[j].name != s[i].name
  }

  /** A snapshot is a map: no two categories share a title. */
  predicate DistinctTitles(snap: Snapshot)
  {
    forall i, j :: 0 <= i < j < |snap| ==> snap[i].title != snap[j].title
  }

  /** The flavors cached under `title`; a missing title reads as the empty
      list, as indexing a nil or missing Go map entry does. */
  function Lookup(snap: Snapshot, title: string): (r: seq<IceCream>)
    ensures (forall k :: 0 <= k < |snap| ==> snap[k].title != title) ==> r == []
    ensures forall k :: 0 <= k < |snap| && snap[k].title == title && DistinctTitles(snap) ==> r == snap[k].flavors
  {
    if snap == [] then []
    else if snap[0].title == title then snap[0].flavors
    else
      assert forall k :: 1 <= k < |snap| ==> snap[1..][k - 1] == snap[k];
      Lookup(snap[1..], title)
  }

  /** Every entry of a name-indexed map is stored under its own name. */
  predicate WellKeyed(m: map<string, IceCream>)
  {
    forall k :: k in m ==> m[k].name == k
  }

  /** `a` is `b` with some items dropped and the rest kept in order. */
  predicate Subsequence(a: seq<IceCream>, b: seq<IceCream>)
    decreases |b|
  {
    if a == [] then true
    else if b == [] then false
    else (a[0] == b[0] && Subsequence(a[1..], b[1..])) || Subsequence(a, b[1..])
  }

  lemma NamesCons(s: seq<IceCream>)
    requires s != []
    ensures Names(s) == {s[0].name} + Names(s[1..])
  {
    assert s == [s[0]] + s[1..];
  }

  lemma NoNames(s: seq<IceCream>)
    requires Names(s) == {}
    ensures s == []
  {
    assert s != [] ==> s[0].name in Names(s);
  }

  lemma NamesSnoc(s: seq<IceCream>)
    requires s != []
    ensures Names(s) == Names(s[..|s| - 1]) + {s[|s| - 1].name}
  {
    assert s == s[..|s| - 1] + [s[|s| - 1]];
  }

  /** The lookup map the source builds from the cached list: later items
      overwrite earlier ones with the same name, so each name keeps its
      last occurrence. */
  function IndexByName(last: seq<IceCream>): (m: map<string, IceCream>)
    ensures m.Keys == Names(last)
    ensures WellKeyed(m)
    ensures forall i :: 0 <= i < |last| && IsLastOccurrence(last, i) ==> m[last[i].name] == last[i]
    ensures forall k :: k in m ==> exists i :: 0 <= i < |last| && IsLastOccurrence(last, i) && last[i] == m[k]
  {
    if last == [] then map[]
    else
      var n := |last| - 1;
      var m := IndexByName(last[..n])[last[n].name := last[n]];
      IndexByNameStep(last, IndexByName(last[..n]), m);
      m
  }

  /** The inductive step of IndexByName: storing the final item on top of
      the map of the prefix keeps the last occurrence of every name. */
  lemma IndexByNameStep(last: seq<IceCream>, prev: map<string, IceCream>, m: map<string, IceCream>)
    requires last != []
    requires prev.Keys == Names(last[..|last| - 1]) && WellKeyed(prev)
    requires forall i :: 0 <= i < |last| - 1 && IsLastOccurrence(last[..|last| - 1], i) ==> prev[last[i].name] == last[i]
    requires forall k :: k in prev ==> exists i :: 0 <= i < |last| - 1 && IsLastOccurrence(last[..|last| - 1], i) && last[i] == prev[k]
    requires m == prev[last[|last| - 1].name := last[|last| - 1]]
    ensures m.Keys == Names(last) && WellKeyed(m)
    ensures forall i :: 0 <= i < |last| && IsLastOccurrence(last, i) ==> m[last[i].name] == last[i]
    ensures forall k :: k in m ==> exists i :: 0 <= i < |last| && IsLastOccurrence(last, i) && last[i] == m[k]
  {
    NamesSnoc(last);
    forall i | 0 <= i < |last| && IsLastOccurrence(last, i)
      ensures last[i].name in m && m[last[i].name] == last[i]
    {
      StepKeeps(last, prev, m, i);
    }
    forall k | k in m
      ensures exists i :: 0 <= i < |last| && IsLastOccurrence(last, i) && last[i] == m[k]
    {
      StepWitness(last, prev, m, k);
    }
  }

  lemma StepKeeps(last: seq<IceCream>, prev: map<string, IceCream>, m: map<string, IceCream>, i: int)
    requires last != [] && prev.Keys == Names(last[..|last| - 1])
    requires forall i :: 0 <= i < |last| - 1 && IsLastOccurrence(last[..|last| - 1], i) ==> prev[last[i].name] == last[i]
    requires m == prev[last[|last| - 1].name := last[|last| - 1]]
    requires 0 <= i < |last| && IsLastOccurrence(last, i)
    ensures last[i].name in m && m[last[i].name] == last[i]
  {
    if i < |last| - 1 {
      assert last[..|last| - 1][i] == last[i];
      LastOccurrenceOfPrefix(last, i);
    }
  }

  lemma StepWitness(last: seq<IceCream>, prev: map<string, IceCream>, m: map<string, IceCream>, k: string)
    requires last != [] && WellKeyed(prev)
    requires forall k :: k in prev ==> exists i :: 0 <= i < |last| - 1 && IsLastOccurrence(last[..|last| - 1], i) && last[i] == prev[k]
    requires m == prev[last[|last| - 1].name := last[|last| - 1]]
    requires k in m
    ensures exists i :: 0 <= i < |last| && IsLastOccurrence(last, i) && last[i] == m[k]
  {
    var n := |last| - 1;
    if k == last[n].name {
      assert IsLastOccurrence(last, n);
    } else {
      assert k in prev;
      var i :| 0 <= i < n && IsLastOccurrence(last[..n], i) && last[i] == prev[k];
      assert m[k] == prev[k];
      LastOccurrenceExtends(last, i);
    }
  }

  lemma LastOccurrenceOfPrefix(last: seq<IceCream>, i: int)
    requires 0 <= i < |last| - 1 && IsLastOccurrence(last, i)
    ensures IsLastOccurrence(last[..|last| - 1], i)
  {
  }

  lemma LastOccurrenceExtends(last: seq<IceCream>, i: int)
    requires 0 <= i < |last| - 1 && IsLastOccurrence(last[..|last| - 1], i)
    requires last[|last| - 1].name != last[i].name
    ensures IsLastOccurrence(last, i)
  {
    forall j | i < j < |last| ensures last[j].name != last[i].name {
      if j < |last| - 1 {
        assert last[..|last| - 1][j] == last[j];
      }
    }
  }

  /** The matching loop of the source: walks `latest` in order against the
      lookup map `pending`. An item whose name is not in the map is added;
      otherwise its name is deleted from the map. Returns the added items and
      what is left of the map. */
  function Scan(latest: seq<IceCream>, pending: map<string, IceCream>): (r: (seq<IceCream>, map<string, IceCream>))
    ensures r.1 == pending - Names(latest)
  {
    if latest == [] then ([], pending)
    else
      NamesCons(latest);
      if latest[0].name !in pending then
        var rest := Scan(latest[1..], pending);
        ([latest[0]] + rest.0, rest.1)
      else
        Scan(latest[1..], pending - {latest[0].name})
  }

  /** The scan keeps some current items and drops the others, never
      reordering them. */
  lemma {:induction false} ScanSubsequence(latest: seq<IceCream>, pending: map<string, IceCream>)
    ensures Subsequence(Scan(latest, pending).0, latest)
  {
    if latest != [] {
      if latest[0].name !in pending {
        ScanSubsequence(latest[1..], pending);
        assert ([latest[0]] + Scan(latest[1..], pending).0)[1..] == Scan(latest[1..], pending).0;
      } else {
        ScanSubsequence(latest[1..], pending - {latest[0].name});
        SubsequenceDrop(Scan(latest[1..], pending - {latest[0].name}).0, latest);
      }
    }
  }

  /** Dropping the first item of the longer list keeps a subsequence. */
  lemma SubsequenceDrop(a: seq<IceCream>, b: seq<IceCream>)
    requires b != [] && Subsequence(a, b[1..])
    ensures Subsequence(a, b)
  {
  }

  /** The values left in the lookup map, one per remaining key, listed in
      the order of their last occurrence in the cached list. The source
      ranges over the map, whose order Go leaves unspecified; this is one
      of those orders. */
  function Leftover(last: seq<IceCream>, remaining: map<string, IceCream>): seq<IceCream>
    requires WellKeyed(remaining)
  {
    if last == [] then []
    else
      var n := last[|last| - 1].name;
      Leftover(last[..|last| - 1], remaining - {n}) + (if n in remaining then [remaining[n]] else [])
  }

  /** Leftover lists each remaining map value exactly once. */
  lemma {:induction false} LeftoverValues(last: seq<IceCream>, remaining: map<string, IceCream>)
    requires WellKeyed(remaining)
    ensures UniqueNames(Leftover(last, remaining))
    ensures forall x :: x in Leftover(last, remaining) ==> x.name in remaining && remaining[x.name] == x && x.name in Names(last)
    ensures forall k :: k in remaining && k in Names(last) ==> remaining[k] in Leftover(last, remaining)
  {
    if last != [] {
      var n := last[|last| - 1].name;
      NamesSnoc(last);
      LeftoverValues(last[..|last| - 1], remaining - {n});
    }
  }

  /** The removed side of a difference in the general case: one item per
      cached name that no current item carries, namely the last cached item
      with that name. This fixes `removed` up to order. */
  ghost predicate RemovedExactly(latest: seq<IceCream>, last: seq<IceCream>, removed: seq<IceCream>)
  {
    && UniqueNames(removed)
    && Names(removed) == Names(last) - Names(latest)
    && forall x :: x in removed ==> exists i :: 0 <= i < |last| && IsLastOccurrence(last, i) && last[i] == x
  }

  /** What was added to and removed from one category since the cached run,
      matching flavors by name only. An empty list on either side short-cuts
      the comparison; DifferenceShape states the general case. */
  function Difference(latest: seq<IceCream>, last: seq<IceCream>): (d: Diff)
    ensures |last| == 0 ==> d.added == latest && d.removed == []
    ensures |latest| == 0 ==> d.added == [] && d.removed == last
  {
    if |latest| == 0 || |last| == 0 then
      Diff(if |last| == 0 then latest else [], if |latest| == 0 then last else [])
    else
      var scan := Scan(latest, IndexByName(last));
      Diff(scan.0, Leftover(last, scan.1))
  }

  /** With both lists non-empty, the added items keep their current order
      and the removed side holds, once per name, the last cached item of
      every cached name that no current item carries. */
  lemma DifferenceShape(latest: seq<IceCream>, last: seq<IceCream>)
    requires |latest| > 0 && |last| > 0
    ensures Subsequence(Difference(latest, last).added, latest)
    ensures RemovedExactly(latest, last, Difference(latest, last).removed)
  {
    var m := IndexByName(last);
    var scan := Scan(latest, m);
    ScanSubsequence(latest, m);
    RemovedNames(latest, last, m, scan.1);
    RemovedAreLast(last, m, scan.1, Names(latest));
    LeftoverValues(last, scan.1);
    assert Difference(latest, last) == Diff(scan.0, Leftover(last, scan.1));
  }

  /** Taking keys out of a name-indexed map keeps it name-indexed. */
  lemma WellKeyedMinus(m: map<string, IceCream>, names: set<string>)
    requires WellKeyed(m)
    ensures WellKeyed(m - names)
  {
  }

  /** The names left over are the cached names no current item carries. */
  lemma RemovedNames(latest: seq<IceCream>, last: seq<IceCream>, m: map<string, IceCream>, rest: map<string, IceCream>)
    requires m.Keys == Names(last) && WellKeyed(m) && rest == m - Names(latest)
    ensures WellKeyed(rest)
    ensures Names(Leftover(last, rest)) == Names(last) - Names(latest)
  {
    WellKeyedMinus(m, Names(latest));
    var removed := Leftover(last, rest);
    LeftoverValues(last, rest);
    forall k | k in Names(last) - Names(latest) ensures k in Names(removed) {
      assert rest[k] in removed;
    }
  }

  /** Every left-over item is the last cached item with its name. */
  lemma RemovedAreLast(last: seq<IceCream>, m: map<string, IceCream>, rest: map<string, IceCream>, names: set<string>)
    requires WellKeyed(m) && rest == m - names
    requires forall k :: k in m ==> exists i :: 0 <= i < |last| && IsLastOccurrence(last, i) && last[i] == m[k]
    ensures WellKeyed(rest)
    ensures forall x :: x in Leftover(last, rest) ==> exists i :: 0 <= i < |last| && IsLastOccurrence(last, i) && last[i] == x
  {
    WellKeyedMinus(m, names);
    LeftoverValues(last, rest);
    forall x | x in Leftover(last, rest)
      ensures exists i :: 0 <= i < |last| && IsLastOccurrence(last, i) && last[i] == x
    {
      assert x.name in m && m[x.name] == x;
    }
  }
}
