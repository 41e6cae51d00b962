/** Rendering a snapshot, compared with the cached one, into the list of
    chat messages (cmd/newcity/message.go; the older copy in main.go is the
    Legacy variant). */
module Message {
  import opened Flavors
  import opened Allergens

  const OriginalsTitle := "New City Originals"
  const HeaderText := "Here are today's New City flavors :icecream:"

  /** Which copy of the renderer: the refactored one, or the older one in
      the root main.go, whose removed-side subtitle says "added". */
  datatype Variant = NewCity | Legacy

  datatype Side = AddedSide | RemovedSide

  function SideWord(side: Side): string
  {
    match side
    case AddedSide => "added"
    case RemovedSide => "removed"
  }

  /** The switches the source reads: `useCache` is an argument of Messages,
      the other two are command-line flags read inside it. */
  datatype Options = Options(useCache: bool, onlyOriginals: bool, outputUnchangedResult: bool)

  function Bold(s: string): string
  {
    "**" + s + "**"
  }

  function Italic(s: string): string
  {
    "*" + s + "*"
  }

  /** Starts with the two asterisks of a bold category title. */
  predicate StartsBold(s: string)
  {
    |s| >= 2 && s[0] == '*' && s[1] == '*'
  }

  /** Cannot begin a bold title, whatever follows it. */
  predicate NoBoldStart(s: string)
  {
    s == [] || s[0] != '*' || (|s| >= 2 && s[1] != '*')
  }

  lemma NoBoldConcat(a: string, b: string)
    requires NoBoldStart(a) && NoBoldStart(b)
    ensures NoBoldStart(a + b)
  {
    if a == [] {
      assert a + b == b;
    }
  }

  /** The heading above a non-empty side's list of flavors. */
  function SideHeading(side: Side): string
  {
    "Flavors " + SideWord(side) + " since the last run:\n"
  }

  /** The italic line for a side with no flavors, when unchanged results
      are wanted. */
  function NoChangeNotice(side: Side): string
  {
    Italic("No new flavors were " + SideWord(side) + " since the last run.") + "\n"
  }

  /** The line that introduces one side of a category's changes. Without
      the cache there is none; otherwise a non-empty side gets a heading and
      an empty side an italic notice when unchanged results are wanted. */
  function WriteCategorySubtitle(variant: Variant, creams: seq<IceCream>, side: Side, useCache: bool, outputUnchangedResult: bool): (r: string)
    ensures r == "" <==> !useCache || (creams == [] && !outputUnchangedResult)
    ensures NoBoldStart(r)
  {
    if !useCache then ""
    else if |creams| > 0 then
      match variant
      case NewCity => SideHeading(side)
      case Legacy => SideHeading(AddedSide)
    else if outputUnchangedResult then
      NoChangeNotice(side)
    else ""
  }

  /** One added flavor: bullet, name, italic description, then the allergen
      list after a space that is there even when the list is empty. */
  function AddedLine(c: IceCream): string
  {
    "• " + c.name + ": " + Italic(c.description) + " " + Details(c.rawDetails) + "\n"
  }

  function AddedLines(cs: seq<IceCream>): (r: string)
    ensures r == "" <==> cs == []
    ensures NoBoldStart(r)
  {
    if cs == [] then "" else AddedLine(cs[0]) + AddedLines(cs[1..])
  }

  /** One removed flavor: only its name. */
  function RemovedLine(c: IceCream): string
  {
    "• " + c.name + "\n"
  }

  function RemovedLines(cs: seq<IceCream>): (r: string)
    ensures r == "" <==> cs == []
    ensures NoBoldStart(r)
  {
    if cs == [] then "" else RemovedLine(cs[0]) + RemovedLines(cs[1..])
  }

  /** The body of one category's message. It is empty exactly when there
      is no title, nothing was added, and no cache line would be written;
      it starts with a bold title exactly when one was asked for. */
  function WriteCategory(variant: Variant, d: Diff, category: string, writeTitle: bool, useCache: bool, outputUnchangedResult: bool): (body: string)
    ensures body == "" <==> !writeTitle && d.added == [] && (!useCache || (d.removed == [] && !outputUnchangedResult))
    ensures StartsBold(body) <==> writeTitle
  {
    var title := if writeTitle then Bold(category) + "\n" else "";
    var rest := WriteCategorySubtitle(variant, d.added, AddedSide, useCache, outputUnchangedResult)
      + AddedLines(d.added)
      + WriteCategorySubtitle(variant, d.removed, RemovedSide, useCache, outputUnchangedResult)
      + (if useCache then RemovedLines(d.removed) else "");
    NoBoldRest(variant, d, useCache, outputUnchangedResult);
    assert writeTitle ==> (title + rest)[0] == '*' && (title + rest)[1] == '*';
    assert !writeTitle ==> title + rest == rest;
    title + rest
  }

  lemma NoBoldRest(variant: Variant, d: Diff, useCache: bool, outputUnchangedResult: bool)
    ensures NoBoldStart(WriteCategorySubtitle(variant, d.added, AddedSide, useCache, outputUnchangedResult)
      + AddedLines(d.added)
      + WriteCategorySubtitle(variant, d.removed, RemovedSide, useCache, outputUnchangedResult)
      + (if useCache then RemovedLines(d.removed) else ""))
  {
    var s1 := WriteCategorySubtitle(variant, d.added, AddedSide, useCache, outputUnchangedResult);
    var s2 := AddedLines(d.added);
    var s3 := WriteCategorySubtitle(variant, d.removed, RemovedSide, useCache, outputUnchangedResult);
    var s4 := if useCache then RemovedLines(d.removed) else "";
    NoBoldConcat(s1, s2);
    NoBoldConcat(s1 + s2, s3);
    NoBoldConcat(s1 + s2 + s3, s4);
  }

  /** Whether a category takes part at all under the originals-only switch. */
  predicate Selected(opts: Options, title: string)
  {
    !opts.onlyOriginals || title == OriginalsTitle
  }

  /** The title is written when several categories are shown together and
      this one has something to report. */
  predicate ShouldWriteCategoryTitle(opts: Options, categoryCount: int, d: Diff)
  {
    !opts.onlyOriginals && categoryCount > 1 && (|d.added| > 0 || |d.removed| > 0)
  }

  /** The difference of category `k` against whatever the cache holds
      under its title. */
  function DiffOf(snap: Snapshot, cache: Snapshot, k: int): Diff
    requires 0 <= k < |snap|
  {
    Difference(snap[k].flavors, Lookup(cache, snap[k].title))
  }

  /** The differences of all categories, in snapshot order. */
  function Diffs(snap: Snapshot, cache: Snapshot): (ds: seq<Diff>)
    ensures |ds| == |snap|
  {
    seq(|snap|, k requires 0 <= k < |snap| => DiffOf(snap, cache, k))
  }

  /** The text one category contributes given its difference; empty when
      it is skipped or has nothing to say. */
  function CategoryBody(variant: Variant, opts: Options, categoryCount: int, title: string, d: Diff): string
  {
    if !Selected(opts, title) then ""
    else WriteCategory(variant, d, title, ShouldWriteCategoryTitle(opts, categoryCount, d),
                       opts.useCache, opts.outputUnchangedResult)
  }

  /** The bodies of all categories, in snapshot order, given the
      difference of each. */
  function CategoryBodies(variant: Variant, snap: Snapshot, diffs: seq<Diff>, opts: Options): (bs: seq<string>)
    requires |diffs| == |snap|
    ensures |bs| == |snap|
  {
    seq(|snap|, k requires 0 <= k < |snap| => CategoryBody(variant, opts, |snap|, snap[k].title, diffs[k]))
  }

  /** The non-empty texts, in order. */
  function NonEmpty(texts: seq<string>): (r: seq<string>)
    ensures |r| <= |texts|
    ensures forall b :: b in r ==> b != "" && b in texts
  {
    if texts == [] then []
    else (if texts[0] == "" then [] else [texts[0]]) + NonEmpty(texts[1..])
  }

  /** The messages for a snapshot whose per-category differences are
      already known: a bold header, then one body per category that has
      something to say. With nothing to say and no request for unchanged
      results, nothing is posted at all. */
  function Render(variant: Variant, snap: Snapshot, diffs: seq<Diff>, opts: Options): (r: seq<string>)
    requires |diffs| == |snap|
    ensures r != [] ==> r[0] == Bold(HeaderText)
    ensures |r| <= 1 + |snap|
    ensures forall i :: 1 <= i < |r| ==> r[i] != ""
    ensures opts.outputUnchangedResult ==> r != []
  {
    var bodies := NonEmpty(CategoryBodies(variant, snap, diffs, opts));
    if bodies == [] && !opts.outputUnchangedResult then []
    else
      var r := [Bold(HeaderText)] + bodies;
      assert forall i :: 1 <= i < |r| ==> r[i] in bodies;
      r
  }

  /** The messages to post for a snapshot compared with the cached one. */
  function Messages(variant: Variant, snap: Snapshot, cache: Snapshot, opts: Options): (r: seq<string>)
    ensures r != [] ==> r[0] == Bold(HeaderText)
    ensures |r| <= 1 + |snap|
    ensures forall i :: 1 <= i < |r| ==> r[i] != ""
    ensures opts.outputUnchangedResult ==> r != []
  {
    Render(variant, snap, Diffs(snap, cache), opts)
  }
}
