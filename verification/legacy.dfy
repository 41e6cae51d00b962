/** The older renderer kept in the root main.go, compared with the
    refactored one: the two agree except that the legacy copy heads a
    non-empty removed list with the added-side heading. */
module Legacy {
  import opened Flavors
  import opened Message
  import MessageFacts

  lemma HeadingsDiffer()
    ensures SideHeading(AddedSide) != SideHeading(RemovedSide)
  {
    assert SideHeading(AddedSide)[8] == 'a';
    assert SideHeading(RemovedSide)[8] == 'r';
  }

  lemma NoticesDiffer()
    ensures NoChangeNotice(AddedSide) != NoChangeNotice(RemovedSide)
  {
    assert NoChangeNotice(AddedSide)[21] == 'a';
    assert NoChangeNotice(RemovedSide)[21] == 'r';
  }

  lemma HeadingIsNoNotice(side: Side, other: Side)
    ensures SideHeading(side) != NoChangeNotice(other)
  {
    assert SideHeading(side)[0] == 'F';
    assert NoChangeNotice(other)[0] == '*';
  }

  /** The two copies write the same subtitle in every case but one: a
      non-empty removed side with the cache on. */
  lemma SubtitlesAgree(creams: seq<IceCream>, side: Side, useCache: bool, outputUnchangedResult: bool)
    ensures WriteCategorySubtitle(Legacy, creams, side, useCache, outputUnchangedResult)
         == WriteCategorySubtitle(NewCity, creams, side, useCache, outputUnchangedResult)
       <==> !(useCache && creams != [] && side == RemovedSide)
  {
    HeadingsDiffer();
  }

  /** As written, the legacy copy heads a non-empty removed list exactly as
      it heads an added list, so a reader cannot tell the sides apart. */
  lemma LegacyRemovedHeadingSaysAdded(added: seq<IceCream>, removed: seq<IceCream>, outputUnchangedResult: bool)
    requires added != [] && removed != []
    ensures WriteCategorySubtitle(Legacy, removed, RemovedSide, true, outputUnchangedResult) == SideHeading(AddedSide)
    ensures WriteCategorySubtitle(Legacy, removed, RemovedSide, true, outputUnchangedResult)
         == WriteCategorySubtitle(Legacy, added, AddedSide, true, outputUnchangedResult)
  {
  }

  /** The refactored copy's two subtitles in one body name their sides:
      they coincide only when neither is written. */
  lemma SubtitlesDistinguishSides(added: seq<IceCream>, removed: seq<IceCream>, outputUnchangedResult: bool)
    ensures WriteCategorySubtitle(NewCity, added, AddedSide, true, outputUnchangedResult)
         == WriteCategorySubtitle(NewCity, removed, RemovedSide, true, outputUnchangedResult)
       <==> added == [] && removed == [] && !outputUnchangedResult
  {
    HeadingsDiffer();
    NoticesDiffer();
    HeadingIsNoNotice(AddedSide, RemovedSide);
    HeadingIsNoNotice(RemovedSide, AddedSide);
  }

  /** Where no removed list is headed, a category's body is the same in
      both copies. */
  lemma CategoriesAgree(d: Diff, title: string, writeTitle: bool, useCache: bool, outputUnchangedResult: bool)
    requires !useCache || d.removed == []
    ensures WriteCategory(Legacy, d, title, writeTitle, useCache, outputUnchangedResult)
         == WriteCategory(NewCity, d, title, writeTitle, useCache, outputUnchangedResult)
  {
    SubtitlesAgree(d.added, AddedSide, useCache, outputUnchangedResult);
    SubtitlesAgree(d.removed, RemovedSide, useCache, outputUnchangedResult);
  }

  /** Without the cache, or when no selected category lost a flavor, the
      two copies post the same messages. */
  lemma VariantsAgree(snap: Snapshot, cache: Snapshot, opts: Options)
    requires !opts.useCache || forall k :: 0 <= k < |snap| && Selected(opts, snap[k].title) ==> DiffOf(snap, cache, k).removed == []
    ensures Messages(Legacy, snap, cache, opts) == Messages(NewCity, snap, cache, opts)
  {
    var diffs := Diffs(snap, cache);
    var b1 := CategoryBodies(Legacy, snap, diffs, opts);
    var b2 := CategoryBodies(NewCity, snap, diffs, opts);
    forall k | 0 <= k < |snap| ensures b1[k] == b2[k] {
      var d := diffs[k];
      assert d == DiffOf(snap, cache, k);
      if Selected(opts, snap[k].title) {
        CategoriesAgree(d, snap[k].title, ShouldWriteCategoryTitle(opts, |snap|, d), opts.useCache, opts.outputUnchangedResult);
      }
    }
    assert b1 == b2;
  }

  /** The swap of one flavor for another, as the legacy copy renders it:
      the removed flavor appears under "Flavors added since the last run". */
  lemma LegacyScenarioSwap()
    ensures Messages(Legacy, [Category("Originals", [IceCream("Mint", "Cool", [])])],
                     [Category("Originals", [IceCream("Choco", "Rich", ["E"])])],
                     Options(true, false, false))
         == [Bold(HeaderText),
             "Flavors added since the last run:\n" + "• Mint: *Cool* \n"
             + "Flavors added since the last run:\n" + "• Choco\n"]
  {
    var snap := [Category("Originals", [IceCream("Mint", "Cool", [])])];
    var cache := [Category("Originals", [IceCream("Choco", "Rich", ["E"])])];
    MessageFacts.SingleCategory(Legacy, snap, cache, Options(true, false, false));
    MessageFacts.SwapDiffOf();
    LegacySwapBody();
  }

  function LegacySwapText(): string
  {
    "Flavors added since the last run:\n" + "• Mint: *Cool* \n"
    + "Flavors added since the last run:\n" + "• Choco\n"
  }

  lemma LegacySwapBody()
    ensures CategoryBody(Legacy, Options(true, false, false), 1, "Originals",
                         Diff([IceCream("Mint", "Cool", [])], [IceCream("Choco", "Rich", ["E"])]))
         == LegacySwapText()
  {
    var mint := IceCream("Mint", "Cool", []);
    var choco := IceCream("Choco", "Rich", ["E"]);
    MessageFacts.CachedUntitledBody(Legacy, Diff([mint], [choco]), "Originals", false);
    MessageFacts.MintLine();
    MessageFacts.ChocoRemovedLine();
    MessageFacts.AddedHeading();
  }
}
