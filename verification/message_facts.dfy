/** Properties of the message renderer: when nothing is posted, where each
    body comes from, the title and originals-only rules, idempotence on an
    unchanged menu, and worked scenarios. */
module MessageFacts {
  import opened Flavors
  import opened Allergens
  import opened Message
  import DifferenceFacts

  /** A category that yields no body when unchanged results are not wanted:
      nothing was added, and either nothing was removed or the removal would
      only show up in a title that is not written and a cache section that is
      switched off. */
  predicate NothingToReport(opts: Options, categoryCount: int, d: Diff)
  {
    d.added == [] && (d.removed == [] || (!opts.useCache && (opts.onlyOriginals || categoryCount <= 1)))
  }

  /** The positions from `k` on of the non-empty texts, in increasing
      order. */
  ghost function NonEmptyIndices(texts: seq<string>, k: int): (ks: seq<int>)
    requires 0 <= k <= |texts|
    ensures forall i :: 0 <= i < |ks| ==> k <= ks[i] < |texts|
    decreases |texts| - k
  {
    if k == |texts| then []
    else (if texts[k] == "" then [] else [k]) + NonEmptyIndices(texts, k + 1)
  }

  /** The positions are increasing and are exactly the non-empty ones. */
  lemma NonEmptyIndicesFacts(texts: seq<string>, k: int)
    requires 0 <= k <= |texts|
    ensures var ks := NonEmptyIndices(texts, k);
      && (forall i, j :: 0 <= i < j < |ks| ==> ks[i] < ks[j])
      && (forall j :: k <= j < |texts| ==> (j in ks <==> texts[j] != ""))
  {
    NonEmptyIndicesIncreasing(texts, k);
    assert Increasing(NonEmptyIndices(texts, k));
    NonEmptyIndicesExact(texts, k);
  }

  predicate Increasing(ks: seq<int>)
  {
    forall i, j :: 0 <= i < j < |ks| ==> ks[i] < ks[j]
  }

  lemma {:induction false} NonEmptyIndicesIncreasing(texts: seq<string>, k: int)
    requires 0 <= k <= |texts|
    ensures Increasing(NonEmptyIndices(texts, k))
    decreases |texts| - k
  {
    if k < |texts| {
      var ks := NonEmptyIndices(texts, k);
      var ks' := NonEmptyIndices(texts, k + 1);
      NonEmptyIndicesIncreasing(texts, k + 1);
      assert Increasing(ks');
      if texts[k] == "" {
        assert ks == ks';
      } else {
        assert ks == [k] + ks';
        forall i, j | 0 <= i < j < |ks| ensures ks[i] < ks[j] {
          assert ks[j] == ks'[j - 1] && k + 1 <= ks'[j - 1];
          if i > 0 {
            assert ks[i] == ks'[i - 1] && ks'[i - 1] < ks'[j - 1];
          } else {
            assert ks[i] == k;
          }
        }
      }
    }
  }

  lemma {:induction false} NonEmptyIndicesExact(texts: seq<string>, k: int)
    requires 0 <= k <= |texts|
    ensures var ks := NonEmptyIndices(texts, k);
      forall j :: k <= j < |texts| ==> (j in ks <==> texts[j] != "")
    decreases |texts| - k
  {
    if k < |texts| {
      NonEmptyIndicesExact(texts, k + 1);
      var ks := NonEmptyIndices(texts, k);
      var ks' := NonEmptyIndices(texts, k + 1);
      assert k !in ks';
      assert ks == (if texts[k] == "" then [] else [k]) + ks';
    }
  }

  /** NonEmpty keeps exactly the texts at the non-empty positions, in
      order. */
  lemma {:induction false} NonEmptyFrom(texts: seq<string>, k: int)
    requires 0 <= k <= |texts|
    ensures var ks := NonEmptyIndices(texts, k);
      var r := NonEmpty(texts[k..]);
      |r| == |ks| && forall i :: 0 <= i < |ks| ==> r[i] == texts[ks[i]]
    decreases |texts| - k
  {
    if k < |texts| {
      NonEmptyFrom(texts, k + 1);
      var rest := NonEmpty(texts[k + 1..]);
      var ks' := NonEmptyIndices(texts, k + 1);
      assert texts[k..][0] == texts[k] && texts[k..][1..] == texts[k + 1..];
      if texts[k] == "" {
        assert NonEmpty(texts[k..]) == rest;
        assert NonEmptyIndices(texts, k) == ks';
      } else {
        var r := NonEmpty(texts[k..]);
        var ks := NonEmptyIndices(texts, k);
        assert r == [texts[k]] + rest;
        assert ks == [k] + ks';
        forall i | 0 <= i < |ks| ensures r[i] == texts[ks[i]] {
          if i > 0 {
            assert r[i] == rest[i - 1] && ks[i] == ks'[i - 1];
          }
        }
      }
    }
  }

  /** NonEmpty drops everything exactly when every text is empty. */
  lemma {:induction false} NonEmptyIff(texts: seq<string>)
    ensures NonEmpty(texts) == [] <==> forall j :: 0 <= j < |texts| ==> texts[j] == ""
  {
    if texts != [] {
      NonEmptyIff(texts[1..]);
      assert forall j :: 1 <= j < |texts| ==> texts[j] == texts[1..][j - 1];
    }
  }

  /** NonEmpty leaves a list without empty texts unchanged. */
  lemma {:induction false} NonEmptyAll(texts: seq<string>)
    requires forall j :: 0 <= j < |texts| ==> texts[j] != ""
    ensures NonEmpty(texts) == texts
  {
    if texts != [] {
      NonEmptyAll(texts[1..]);
    }
  }

  /** A category's body is empty, when unchanged results are not wanted,
      exactly when it is not selected or has nothing to report. */
  lemma CategoryBodyEmpty(variant: Variant, opts: Options, categoryCount: int, title: string, d: Diff)
    requires !opts.outputUnchangedResult
    ensures CategoryBody(variant, opts, categoryCount, title, d) == "" <==>
      !Selected(opts, title) || NothingToReport(opts, categoryCount, d)
  {
  }

  lemma RenderEmptyIff(variant: Variant, snap: Snapshot, diffs: seq<Diff>, opts: Options)
    requires |diffs| == |snap|
    ensures Render(variant, snap, diffs, opts) == [] <==>
      !opts.outputUnchangedResult &&
      forall k :: 0 <= k < |snap| && Selected(opts, snap[k].title) ==> NothingToReport(opts, |snap|, diffs[k])
  {
    var bs := CategoryBodies(variant, snap, diffs, opts);
    NonEmptyIff(bs);
    if !opts.outputUnchangedResult {
      forall k | 0 <= k < |snap|
        ensures bs[k] == "" <==> !Selected(opts, snap[k].title) || NothingToReport(opts, |snap|, diffs[k])
      {
        assert bs[k] == CategoryBody(variant, opts, |snap|, snap[k].title, diffs[k]);
        CategoryBodyEmpty(variant, opts, |snap|, snap[k].title, diffs[k]);
      }
    }
  }

  lemma DiffsAt(snap: Snapshot, cache: Snapshot, k: int)
    requires 0 <= k < |snap|
    ensures Diffs(snap, cache)[k] == DiffOf(snap, cache, k)
  {
  }

  /** The categories that contribute a body, in snapshot order. */
  ghost function Contributors(variant: Variant, snap: Snapshot, diffs: seq<Diff>, opts: Options): (ks: seq<int>)
    requires |diffs| == |snap|
    ensures forall i :: 0 <= i < |ks| ==> 0 <= ks[i] < |snap|
    ensures forall i, j :: 0 <= i < j < |ks| ==> ks[i] < ks[j]
    ensures forall j :: 0 <= j < |snap| ==>
      (j in ks <==> CategoryBody(variant, opts, |snap|, snap[j].title, diffs[j]) != "")
  {
    NonEmptyIndicesFacts(CategoryBodies(variant, snap, diffs, opts), 0);
    NonEmptyIndices(CategoryBodies(variant, snap, diffs, opts), 0)
  }

  /** Every body after the header is the body of one contributing
      category, in snapshot order, and no category contributes twice. */
  lemma RenderBodies(variant: Variant, snap: Snapshot, diffs: seq<Diff>, opts: Options)
    requires |diffs| == |snap|
    ensures var r := Render(variant, snap, diffs, opts);
      var ks := Contributors(variant, snap, diffs, opts);
      r != [] ==> |r| == 1 + |ks| && forall i :: 0 <= i < |ks| ==>
        r[i + 1] == CategoryBody(variant, opts, |snap|, snap[ks[i]].title, diffs[ks[i]])
  {
    HeaderThenBodies(Render(variant, snap, diffs, opts), Bold(HeaderText), CategoryBodies(variant, snap, diffs, opts));
  }

  /** A header followed by the non-empty texts holds, after the header,
      exactly the texts at the non-empty positions. */
  lemma HeaderThenBodies(r: seq<string>, header: string, texts: seq<string>)
    requires r == [] || r == [header] + NonEmpty(texts)
    ensures var ks := NonEmptyIndices(texts, 0);
      r != [] ==> |r| == 1 + |ks| && forall i :: 0 <= i < |ks| ==> r[i + 1] == texts[ks[i]]
  {
    NonEmptyAt(texts);
    if r != [] {
      var ks := NonEmptyIndices(texts, 0);
      forall i | 0 <= i < |ks| ensures r[i + 1] == texts[ks[i]] {
        assert r[i + 1] == NonEmpty(texts)[i];
      }
    }
  }

  lemma NonEmptyAt(texts: seq<string>)
    ensures var ks := NonEmptyIndices(texts, 0);
      |NonEmpty(texts)| == |ks| && forall i :: 0 <= i < |ks| ==> NonEmpty(texts)[i] == texts[ks[i]]
  {
    NonEmptyFrom(texts, 0);
    assert texts[0..] == texts;
  }

  /** Only selected categories contribute. */
  lemma ContributorsSelected(variant: Variant, snap: Snapshot, diffs: seq<Diff>, opts: Options)
    requires |diffs| == |snap|
    ensures var ks := Contributors(variant, snap, diffs, opts);
      forall i :: 0 <= i < |ks| ==> Selected(opts, snap[ks[i]].title)
  {
    var ks := Contributors(variant, snap, diffs, opts);
    forall i | 0 <= i < |ks| ensures Selected(opts, snap[ks[i]].title) {
      assert ks[i] in ks;
    }
  }

  /** Nothing at all is posted exactly when unchanged results are not wanted
      and no selected category has anything to report. */
  lemma MessagesEmptyIff(variant: Variant, snap: Snapshot, cache: Snapshot, opts: Options)
    ensures Messages(variant, snap, cache, opts) == [] <==>
      !opts.outputUnchangedResult &&
      forall k :: 0 <= k < |snap| && Selected(opts, snap[k].title) ==> NothingToReport(opts, |snap|, DiffOf(snap, cache, k))
  {
    RenderEmptyIff(variant, snap, Diffs(snap, cache), opts);
  }

  /** With the cache on, nothing is posted exactly when unchanged results are
      not wanted and no selected category gained or lost a flavor. */
  lemma MessagesEmptyWithCache(variant: Variant, snap: Snapshot, cache: Snapshot, opts: Options)
    requires opts.useCache
    ensures Messages(variant, snap, cache, opts) == [] <==>
      !opts.outputUnchangedResult &&
      forall k :: 0 <= k < |snap| && Selected(opts, snap[k].title) ==> DiffOf(snap, cache, k) == Diff([], [])
  {
    MessagesEmptyIff(variant, snap, cache, opts);
  }

  /** The messages' bodies, category by category: every body after the
      header is the body of one contributing category, written for that
      category's difference against the cache. */
  lemma MessagesBodies(variant: Variant, snap: Snapshot, cache: Snapshot, opts: Options)
    ensures var r := Messages(variant, snap, cache, opts);
      var ks := Contributors(variant, snap, Diffs(snap, cache), opts);
      r != [] ==> |r| == 1 + |ks| && forall i :: 0 <= i < |ks| ==>
        r[i + 1] == CategoryBody(variant, opts, |snap|, snap[ks[i]].title, DiffOf(snap, cache, ks[i]))
  {
    RenderBodies(variant, snap, Diffs(snap, cache), opts);
  }

  predicate FirstTwoShareTitle(snap: Snapshot, ks: seq<int>)
  {
    |ks| >= 2 && 0 <= ks[0] < ks[1] < |snap| && snap[ks[0]].title == snap[ks[1]].title
  }

  /** With only the originals wanted, at most one body is posted; it is the
      originals category's, written without a bold title. */
  lemma RenderOnlyOriginals(variant: Variant, snap: Snapshot, diffs: seq<Diff>, opts: Options)
    requires |diffs| == |snap|
    requires opts.onlyOriginals && DistinctTitles(snap)
    ensures var r := Render(variant, snap, diffs, opts);
      && |r| <= 2
      && (forall i :: 1 <= i < |r| ==> !StartsBold(r[i]))
      && (forall i :: 1 <= i < |r| ==> exists k :: (0 <= k < |snap| && snap[k].title == OriginalsTitle
           && r[i] == WriteCategory(variant, diffs[k], OriginalsTitle, false, opts.useCache, opts.outputUnchangedResult)))
  {
    var r := Render(variant, snap, diffs, opts);
    var ks := Contributors(variant, snap, diffs, opts);
    RenderBodies(variant, snap, diffs, opts);
    ContributorsSelected(variant, snap, diffs, opts);
    assert !FirstTwoShareTitle(snap, ks);
    assert |ks| <= 1;
    forall i | 1 <= i < |r|
      ensures exists k :: (0 <= k < |snap| && snap[k].title == OriginalsTitle
           && r[i] == WriteCategory(variant, diffs[k], OriginalsTitle, false, opts.useCache, opts.outputUnchangedResult))
    {
      assert r[i] == CategoryBody(variant, opts, |snap|, snap[ks[i - 1]].title, diffs[ks[i - 1]]);
    }
  }

  lemma OnlyOriginals(variant: Variant, snap: Snapshot, cache: Snapshot, opts: Options)
    requires opts.onlyOriginals && DistinctTitles(snap)
    ensures var r := Messages(variant, snap, cache, opts);
      && |r| <= 2
      && (forall i :: 1 <= i < |r| ==> !StartsBold(r[i]))
      && (forall i :: 1 <= i < |r| ==> exists k :: (0 <= k < |snap| && snap[k].title == OriginalsTitle
           && r[i] == WriteCategory(variant, DiffOf(snap, cache, k), OriginalsTitle, false, opts.useCache, opts.outputUnchangedResult)))
  {
    RenderOnlyOriginals(variant, snap, Diffs(snap, cache), opts);
  }

  /** A body starts with a bold category title exactly when several
      categories are shown together and its category changed. */
  lemma RenderTitleRule(variant: Variant, snap: Snapshot, diffs: seq<Diff>, opts: Options)
    requires |diffs| == |snap|
    ensures var r := Render(variant, snap, diffs, opts);
      var ks := Contributors(variant, snap, diffs, opts);
      r != [] ==> |r| == 1 + |ks| && forall i :: 0 <= i < |ks| ==>
        (StartsBold(r[i + 1]) <==> !opts.onlyOriginals && |snap| > 1 && diffs[ks[i]] != Diff([], []))
  {
    RenderBodies(variant, snap, diffs, opts);
    ContributorsSelected(variant, snap, diffs, opts);
  }

  lemma TitleRule(variant: Variant, snap: Snapshot, cache: Snapshot, opts: Options)
    ensures var r := Messages(variant, snap, cache, opts);
      var ks := Contributors(variant, snap, Diffs(snap, cache), opts);
      r != [] ==> |r| == 1 + |ks| && forall i :: 0 <= i < |ks| ==>
        (StartsBold(r[i + 1]) <==> !opts.onlyOriginals && |snap| > 1 && DiffOf(snap, cache, ks[i]) != Diff([], []))
  {
    RenderTitleRule(variant, snap, Diffs(snap, cache), opts);
  }

  /** Without the cache a body holds no subtitle, no notice and no removed
      line: it does not depend on the renderer copy, the removed items or
      the unchanged-result switch. */
  lemma UncachedBody(v1: Variant, v2: Variant, d: Diff, removed: seq<IceCream>, title: string, writeTitle: bool, o1: bool, o2: bool)
    ensures WriteCategory(v1, d, title, writeTitle, false, o1) == WriteCategory(v2, Diff(d.added, removed), title, writeTitle, false, o2)
  {
  }

  /** Against an empty cache every flavor of every category counts as
      added and nothing as removed. */
  lemma EmptyCacheAllAdded(snap: Snapshot)
    ensures Diffs(snap, []) == seq(|snap|, k requires 0 <= k < |snap| => Diff(snap[k].flavors, []))
  {
    forall k | 0 <= k < |snap| ensures Diffs(snap, [])[k] == Diff(snap[k].flavors, []) {
      assert Lookup([], snap[k].title) == [];
    }
  }

  /** Without the cache, a category all of whose flavors count as added is
      listed in full, after a bold title when several categories are shown
      and it has any flavor. */
  lemma FlatListing(variant: Variant, opts: Options, categoryCount: int, title: string, flavors: seq<IceCream>)
    requires !opts.useCache && Selected(opts, title)
    ensures CategoryBody(variant, opts, categoryCount, title, Diff(flavors, [])) ==
      (if !opts.onlyOriginals && categoryCount > 1 && flavors != [] then Bold(title) + "\n" else "")
      + AddedLines(flavors)
  {
  }

  /** A menu compared with itself shows no difference in any category. */
  lemma DiffsSelf(snap: Snapshot)
    requires DistinctTitles(snap)
    requires forall k :: 0 <= k < |snap| ==> UniqueNames(snap[k].flavors)
    ensures Diffs(snap, snap) == seq(|snap|, k => Diff([], []))
  {
    forall k | 0 <= k < |snap| ensures Diffs(snap, snap)[k] == Diff([], []) {
      DifferenceFacts.DifferenceSelf(snap[k].flavors);
    }
  }

  /** Rendering a menu against a cache that holds the same menu posts
      nothing when unchanged results are not wanted. */
  lemma MessagesIdempotent(variant: Variant, snap: Snapshot, opts: Options)
    requires DistinctTitles(snap)
    requires forall k :: 0 <= k < |snap| ==> UniqueNames(snap[k].flavors)
    requires opts.useCache && !opts.outputUnchangedResult
    ensures Messages(variant, snap, snap, opts) == []
  {
    DiffsSelf(snap);
    RenderEmptyIff(variant, snap, Diffs(snap, snap), opts);
  }

  /** The two notices an unchanged category gets when unchanged results
      are wanted. */
  function UnchangedNotices(): string
  {
    NoChangeNotice(AddedSide) + NoChangeNotice(RemovedSide)
  }

  /** With unchanged results wanted, the same menu against itself posts the
      header and, for every category, both notices and no title. */
  lemma IdempotentNotices(variant: Variant, snap: Snapshot, opts: Options)
    requires DistinctTitles(snap)
    requires forall k :: 0 <= k < |snap| ==> UniqueNames(snap[k].flavors)
    requires opts.useCache && opts.outputUnchangedResult && !opts.onlyOriginals
    ensures Messages(variant, snap, snap, opts) == [Bold(HeaderText)] + seq(|snap|, i => UnchangedNotices())
  {
    DiffsSelf(snap);
    var bs := CategoryBodies(variant, snap, Diffs(snap, snap), opts);
    forall k | 0 <= k < |snap| ensures bs[k] == UnchangedNotices() {
      assert Diffs(snap, snap)[k] == Diff([], []);
      assert bs[k] == CategoryBody(variant, opts, |snap|, snap[k].title, Diff([], []));
      NoticeBody(variant, opts, |snap|, snap[k].title);
    }
    NoticeNotEmpty();
    NonEmptyAll(bs);
    assert bs == seq(|snap|, i => UnchangedNotices());
  }

  lemma NoticeNotEmpty()
    ensures UnchangedNotices() != ""
  {
    assert |UnchangedNotices()| > 0;
  }

  /** An unchanged category, with the cache on and unchanged results
      wanted, gets both notices and no title. */
  lemma NoticeBody(variant: Variant, opts: Options, categoryCount: int, title: string)
    requires opts.useCache && opts.outputUnchangedResult && !opts.onlyOriginals
    ensures CategoryBody(variant, opts, categoryCount, title, Diff([], [])) == UnchangedNotices()
  {
    assert !ShouldWriteCategoryTitle(opts, categoryCount, Diff([], []));
    assert AddedLines([]) == "" && RemovedLines([]) == "";
  }

  /** A one-category menu posts the header and that category's body, or
      only the header, or nothing, by whether the body is empty and
      unchanged results are wanted. */
  lemma SingleCategory(variant: Variant, snap: Snapshot, cache: Snapshot, opts: Options)
    requires |snap| == 1
    ensures var b := CategoryBody(variant, opts, 1, snap[0].title, DiffOf(snap, cache, 0));
      Messages(variant, snap, cache, opts) ==
        if b != "" then [Bold(HeaderText), b]
        else if opts.outputUnchangedResult then [Bold(HeaderText)]
        else []
  {
    var b := CategoryBody(variant, opts, 1, snap[0].title, DiffOf(snap, cache, 0));
    var bs := CategoryBodies(variant, snap, Diffs(snap, cache), opts);
    assert bs == [b];
    assert NonEmpty(bs) == (if b == "" then [] else [b]) by {
      assert bs[1..] == [];
    }
  }

  /** With the cache on and no title, a body is the added side's subtitle
      and lines followed by the removed side's. */
  lemma CachedUntitledBody(variant: Variant, d: Diff, title: string, outputUnchangedResult: bool)
    ensures WriteCategory(variant, d, title, false, true, outputUnchangedResult)
         == WriteCategorySubtitle(variant, d.added, AddedSide, true, outputUnchangedResult) + AddedLines(d.added)
          + WriteCategorySubtitle(variant, d.removed, RemovedSide, true, outputUnchangedResult) + RemovedLines(d.removed)
  {
    var rest := WriteCategorySubtitle(variant, d.added, AddedSide, true, outputUnchangedResult) + AddedLines(d.added)
          + WriteCategorySubtitle(variant, d.removed, RemovedSide, true, outputUnchangedResult) + RemovedLines(d.removed);
    assert "" + rest == rest;
  }

  /** A first run without the cache: each flavor is listed with its
      italic description and allergen emoji. */
  lemma ScenarioFirstRun()
    ensures Messages(NewCity, [Category("Originals", [IceCream("Choco", "Rich", ["E"])])], [],
                     Options(false, false, false))
         == [Bold(HeaderText), "• Choco: *Rich* (:egg:)\n"]
  {
    var snap := [Category("Originals", [IceCream("Choco", "Rich", ["E"])])];
    SingleCategory(NewCity, snap, [], Options(false, false, false));
    FirstRunDiff();
    FirstRunBody();
  }

  lemma FirstRunDiff()
    ensures DiffOf([Category("Originals", [IceCream("Choco", "Rich", ["E"])])], [], 0)
         == Diff([IceCream("Choco", "Rich", ["E"])], [])
  {
    assert Lookup([], "Originals") == [];
  }

  lemma FirstRunBody()
    ensures CategoryBody(NewCity, Options(false, false, false), 1, "Originals", Diff([IceCream("Choco", "Rich", ["E"])], []))
         == "• Choco: *Rich* (:egg:)\n"
  {
    var line := "• Choco: *Rich* (:egg:)\n";
    FlatListing(NewCity, Options(false, false, false), 1, "Originals", [IceCream("Choco", "Rich", ["E"])]);
    ChocoLine();
    assert "" + line == line;
  }

  lemma ChocoLine()
    ensures AddedLines([IceCream("Choco", "Rich", ["E"])]) == "• Choco: *Rich* (:egg:)\n"
  {
    DetailsSingleton("E");
    EmojifyTable("E");
    assert AddedLine(IceCream("Choco", "Rich", ["E"])) == "• Choco: *Rich* (:egg:)\n";
  }

  /** One flavor swapped for another with the cache on: both sides get their
      heading, the added flavor its full line (with the space left by its
      empty allergen list), the removed flavor only its name. */
  lemma ScenarioSwap()
    ensures Messages(NewCity, [Category("Originals", [IceCream("Mint", "Cool", [])])],
                     [Category("Originals", [IceCream("Choco", "Rich", ["E"])])],
                     Options(true, false, false))
         == [Bold(HeaderText),
             "Flavors added since the last run:\n" + "• Mint: *Cool* \n"
             + "Flavors removed since the last run:\n" + "• Choco\n"]
  {
    var snap := [Category("Originals", [IceCream("Mint", "Cool", [])])];
    var cache := [Category("Originals", [IceCream("Choco", "Rich", ["E"])])];
    SingleCategory(NewCity, snap, cache, Options(true, false, false));
    SwapDiffOf();
    SwapBody();
  }

  lemma SwapDiffOf()
    ensures DiffOf([Category("Originals", [IceCream("Mint", "Cool", [])])],
                   [Category("Originals", [IceCream("Choco", "Rich", ["E"])])], 0)
         == Diff([IceCream("Mint", "Cool", [])], [IceCream("Choco", "Rich", ["E"])])
  {
    assert Lookup([Category("Originals", [IceCream("Choco", "Rich", ["E"])])], "Originals")
        == [IceCream("Choco", "Rich", ["E"])];
    SwapDiff();
  }

  function SwapText(): string
  {
    "Flavors added since the last run:\n" + "• Mint: *Cool* \n"
    + "Flavors removed since the last run:\n" + "• Choco\n"
  }

  lemma SwapBody()
    ensures CategoryBody(NewCity, Options(true, false, false), 1, "Originals",
                         Diff([IceCream("Mint", "Cool", [])], [IceCream("Choco", "Rich", ["E"])]))
         == SwapText()
  {
    var mint := IceCream("Mint", "Cool", []);
    var choco := IceCream("Choco", "Rich", ["E"]);
    CachedUntitledBody(NewCity, Diff([mint], [choco]), "Originals", false);
    MintLine();
    ChocoRemovedLine();
    AddedHeading();
    RemovedHeading();
  }

  lemma AddedHeading()
    ensures SideHeading(AddedSide) == "Flavors added since the last run:\n"
  {
  }

  lemma RemovedHeading()
    ensures SideHeading(RemovedSide) == "Flavors removed since the last run:\n"
  {
  }

  lemma MintLine()
    ensures AddedLines([IceCream("Mint", "Cool", [])]) == "• Mint: *Cool* \n"
  {
    assert AddedLine(IceCream("Mint", "Cool", [])) == "• Mint: *Cool* \n";
  }

  lemma ChocoRemovedLine()
    ensures RemovedLines([IceCream("Choco", "Rich", ["E"])]) == "• Choco\n"
  {
    assert RemovedLine(IceCream("Choco", "Rich", ["E"])) == "• Choco\n";
  }

  lemma SwapDiff()
    ensures Difference([IceCream("Mint", "Cool", [])], [IceCream("Choco", "Rich", ["E"])])
         == Diff([IceCream("Mint", "Cool", [])], [IceCream("Choco", "Rich", ["E"])])
  {
    var mint := IceCream("Mint", "Cool", []);
    var choco := IceCream("Choco", "Rich", ["E"]);
    assert Names([mint]) == {"Mint"} && Names([choco]) == {"Choco"};
    DifferenceFacts.DifferenceDisjoint([mint], [choco]);
    var r := Difference([mint], [choco]).removed;
    assert multiset(r) == multiset{choco};
    assert |r| == 1;
    assert r[0] in multiset(r);
  }
}
