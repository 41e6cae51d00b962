# New City flavor bot: diff-and-render engine

The New City bot scrapes an ice-cream shop's menu. It compares the menu with the menu it cached on the previous run, and posts the changes to a chat channel.

This project models the pure core of that bot in Dafny, and proves its properties:

- **Details parsing.** The details text of a scraped flavor is trimmed of parentheses and cut at commas into raw allergen codes.
- **Difference.** One category's current flavors are compared with its cached flavors. Flavors are matched by name only, against a lookup map in which the last cached item wins.
- **Details.** A flavor's allergen codes become an emoji list in parentheses.
- **Messages.** The message list is built from these parts:
  - a bold header;
  - at most one body per category;
  - an optional bold category title;
  - per-side subtitles or "no change" notices when the cache is on;
  - one bullet line per added flavor and one per removed flavor.

Two copies of the renderer exist. `cmd/newcity` holds the refactored copy. The root `main.go` holds the older copy, which is the same code except for one subtitle. The model covers both through a `Variant` parameter (`NewCity` or `Legacy`). The root copy's `Difference` and `Details` are character-for-character the same as the refactored ones, so one definition models both.

Modules, in dependency order:

| file | module | contents |
|---|---|---|
| text.dfy | `Text` | Go's `strings.Join` and ASCII `strings.ToUpper` |
| details_text.dfy | `DetailsText` | `strings.Trim(s, "()")`, `strings.Split(s, ",")`, and the parsing fragment |
| allergens.dfy | `Allergens` | the emoji table, `Emojify`, `Details` |
| icecream.dfy | `Flavors` | `IceCream`, `Category` and `Snapshot`; the lookup map; the matching scan; `Difference` |
| difference_facts.dfy | `DifferenceFacts` | independent characterisations of the added and removed sides |
| difference_loop.dfy | `DifferenceLoop` | the three loops of `Difference` as methods, with arbitrary map iteration order |
| message.dfy | `Message` | `writeCategorySubtitle`, `writeCategory`, `Messages` (both variants) |
| message_facts.dfy | `MessageFacts` | emptiness, per-category bodies, title rule, originals-only rule, idempotence, scenarios |
| legacy.dfy | `Legacy` | how the root copy differs from the refactored one |

How Go constructs are represented:

- **Snapshots.** A snapshot (`IceCreams`, a Go map from category title to flavors) is a sequence of categories. Go leaves the map's iteration order unspecified, so the order is an input of `Messages`.
- **Missing cache entries.** A missing cache or a missing title reads as an empty list, as indexing a nil Go map does.
- **Removed order.** The functional `Difference` lists removed items in one fixed order. `DifferenceLoop.ComputeDifference` drains the map in an arbitrary order and is proved equal up to a multiset.
- **Flags.** The two command-line flags read inside `Messages` become fields of `Options`, next to `useCache`.

## Model

| member | source | states |
|---|---|---|
| DetailsText.Trim | cmd/newcity/icecream.go:55 | The result is the slice of the input after its leading parentheses. Everything cut from the end is a parenthesis. The result neither starts nor ends with one. |
| DetailsText.Split | cmd/newcity/icecream.go:56 | There is at least one piece, no piece holds a comma, and joining the pieces with "," gives back the input. |
| DetailsText.SplitJoin | cmd/newcity/icecream.go:56 | Splitting the ","-join of a non-empty list of comma-free pieces recovers the list. |
| DetailsText.ParseDetails | cmd/newcity/icecream.go:53-57 | No codes exactly for empty details text. Otherwise the codes are comma-free and their ","-join is the trimmed text. |
| DetailsText.ParseOnlyParens | cmd/newcity/icecream.go:53-57 | Details text "()" yields the single empty code. |
| Text.JoinAppend | cmd/newcity/message.go:78 | Joining two non-empty lists puts exactly one separator at the seam. |
| Allergens.AllergenCodeIff | cmd/newcity/message.go:71 | The upper-cased code is a table key exactly when the code is one of E, G, S, A, N in either case. |
| Allergens.Emojify | cmd/newcity/message.go:71-75 | A recognised code yields a table emoji. Any other code is returned verbatim, case kept. |
| Allergens.EmojifyTable | cmd/newcity/message.go:17-23 | Each of the five letters, upper or lower case, maps to its fixed emoji. |
| Allergens.Details | cmd/newcity/message.go:63-79 | The result is empty exactly when there are no codes. |
| Allergens.DetailsSingleton | cmd/newcity/message.go:68-78 | One code gives its entry alone in parentheses. |
| Allergens.DetailsAppend | cmd/newcity/message.go:68-78 | The list for a + b is the list for a and the list for b joined by ", ". Entries keep input order and nothing is merged or deduplicated. |
| Allergens.DetailsExample | main.go:267-283 | Codes "e", "G", "x" give "(:egg:, :ear_of_rice:, x)". |
| Flavors.Lookup | cmd/newcity/message.go:41 | An absent title gives the empty list. In a snapshot with distinct titles, a present title gives its flavors. |
| Flavors.IndexByName | cmd/newcity/icecream.go:126-129 | The map's keys are the cached names, and every entry sits under its own name. Each name holds the last cached item with that name, and every value is such a last occurrence. |
| Flavors.Scan | cmd/newcity/icecream.go:131-137 | After the matching loop, the map holds exactly the pending entries whose names no current item carries. |
| Flavors.ScanSubsequence | cmd/newcity/icecream.go:131-137 | The items the matching loop appends form an order-preserving subsequence of the current list. |
| Flavors.LeftoverValues | cmd/newcity/icecream.go:139-141 | The drained items have unique names. Each is the map's value for its name, and every remaining cached name is drained. |
| Flavors.Difference | cmd/newcity/icecream.go:111-121 | An empty cached list makes everything added and nothing removed. An empty current list makes nothing added and the cached list removed verbatim. |
| Flavors.DifferenceShape | cmd/newcity/icecream.go:123-143 | In the general branch, added is a subsequence of the current list. Removed holds, once per name, the last cached item of each cached name that no current item carries. |
| DifferenceFacts.WithoutNamesMembers | cmd/newcity/icecream.go:131-137 | Filtering by names keeps exactly the items whose name is not in the set. |
| DifferenceFacts.ScanFrom | cmd/newcity/icecream.go:131-137 | The invariant of the matching loop: after any prefix, the reference added list of the prefix plus the rest of the scan is the full reference list. |
| DifferenceFacts.AddedCharacterization | cmd/newcity/icecream.go:131-137 | In the general branch, an item is added exactly when its name is uncached or an earlier current item with that name already used the match. Current order is kept. |
| DifferenceFacts.AddedFilter | cmd/newcity/icecream.go:110-143 | With unique current names, added is the current list with every cached name filtered out, order kept. |
| DifferenceFacts.AddedIff | cmd/newcity/icecream.go:126-137 | With unique current names, a flavor is added if and only if it is current and no cached flavor has its name. |
| DifferenceFacts.AddedCount | cmd/newcity/icecream.go:131-137 | The number added is the current count minus the number of distinct names present on both sides. |
| DifferenceFacts.DuplicateNameSecondAdded | cmd/newcity/icecream.go:131-136 | With two current items of one cached name, the first is matched and the second is added. Nothing is removed. |
| DifferenceFacts.RemovedUpToPermutation | cmd/newcity/icecream.go:139-141 | Any two lists meeting the removed-side description are permutations of each other. |
| DifferenceFacts.DifferenceSelf | cmd/newcity/icecream.go:126-141 | A list with unique names compared with itself yields nothing added and nothing removed. |
| DifferenceFacts.DifferenceDisjoint | cmd/newcity/icecream.go:126-141 | With no shared name and unique cached names, everything current is added. Up to order, everything cached is removed. |
| DifferenceFacts.NameOnlyMatching | cmd/newcity/icecream.go:132-136 | With unique current names, a current flavor whose name is cached is neither added nor among the removed names. This holds whatever its description or details. |
| DifferenceLoop.LeftoverRemove | cmd/newcity/icecream.go:139-141 | Deleting one key from the map takes exactly that key's value out of the drained items. |
| DifferenceLoop.BuildLookup | cmd/newcity/icecream.go:126-129 | The first loop builds exactly the last-wins lookup map. |
| DifferenceLoop.MatchLatest | cmd/newcity/icecream.go:131-137 | The second loop produces exactly the added list and the remaining map of the reference scan. |
| DifferenceLoop.DrainLookup | cmd/newcity/icecream.go:139-141 | The third loop, in any map order, yields the remaining values as a multiset. |
| DifferenceLoop.ComputeDifference | main.go:286-320 | The loop-based procedure yields exactly the reference added list, and the reference removed list up to order. |
| Message.WriteCategorySubtitle | cmd/newcity/message.go:122-144 | The subtitle is empty exactly when the cache is off, or the side is empty and unchanged results are not wanted. It never starts a bold title. |
| Message.AddedLines | cmd/newcity/message.go:103-108 | The added lines are empty exactly when no flavor was added. They never start a bold title. |
| Message.RemovedLines | cmd/newcity/message.go:112-119 | The removed lines are empty exactly when no flavor was removed. They never start a bold title. |
| Message.WriteCategory | cmd/newcity/message.go:93-120 | The body is empty exactly when there is no title, nothing added, and no cache line to write. It starts with a bold title exactly when one was asked for. |
| Message.NonEmpty | cmd/newcity/message.go:48-52 | Only non-empty bodies of the input are kept, and never more of them than there were. |
| Message.Render | cmd/newcity/message.go:28-59 | The header comes first. There is at most one body per category and no empty body. With unchanged results wanted the list is never empty. |
| Message.Messages | cmd/newcity/message.go:27-60 | The same four facts for a snapshot diffed against its cache. |
| MessageFacts.NonEmptyFrom | cmd/newcity/message.go:48-52 | Filtering keeps exactly the texts at the non-empty positions, in order. |
| MessageFacts.NonEmptyIff | cmd/newcity/message.go:48-52 | Filtering drops everything exactly when every text is empty. |
| MessageFacts.NonEmptyAll | cmd/newcity/message.go:48-52 | A list without empty texts passes through unchanged. |
| MessageFacts.NonEmptyIndicesFacts | cmd/newcity/message.go:36-53 | The contributing positions are increasing and are exactly the non-empty ones. |
| MessageFacts.CategoryBodyEmpty | cmd/newcity/message.go:37-50 | With unchanged results not wanted, a category is skipped exactly when it is not selected or has nothing to report. |
| MessageFacts.MessagesEmptyIff | cmd/newcity/message.go:55-59 | Nothing is posted if and only if unchanged results are not wanted and no selected category has anything to report. |
| MessageFacts.MessagesEmptyWithCache | cmd/newcity/message.go:55-59 | With the cache on, nothing is posted if and only if unchanged results are not wanted and no selected category gained or lost a flavor. |
| MessageFacts.MessagesBodies | cmd/newcity/message.go:36-53 | Body i + 1 is the body of the i-th contributing category, written for that category's own difference against the cache. |
| MessageFacts.ContributorsSelected | cmd/newcity/message.go:37-39 | Only selected categories contribute. |
| MessageFacts.OnlyOriginals | cmd/newcity/message.go:37-44 | With only the originals wanted, at most one body is posted. It is the originals category's, with no bold title. |
| MessageFacts.TitleRule | cmd/newcity/message.go:44 | A body starts with a bold title exactly when several categories are shown, originals-only is off, and the category changed. |
| MessageFacts.UncachedBody | cmd/newcity/message.go:110-125 | With the cache off, a body depends on neither the copy of the renderer, nor the removed items, nor the unchanged-results switch. |
| MessageFacts.EmptyCacheAllAdded | cmd/newcity/message.go:32-41 | Against an empty cache, every flavor is added and none removed. |
| MessageFacts.FlatListing | cmd/newcity/message.go:93-108 | With the cache off, a body is the optional title followed by one line per flavor. |
| MessageFacts.DiffsSelf | cmd/newcity/message.go:41 | A menu with distinct titles and unique names per category shows no difference against itself. |
| MessageFacts.MessagesIdempotent | cmd/newcity/message.go:41-57 | With the cache on, a menu rendered against itself posts nothing when unchanged results are not wanted. |
| MessageFacts.IdempotentNotices | cmd/newcity/message.go:135-143 | With unchanged results wanted, each category of a menu rendered against itself gets both italic notices. |
| MessageFacts.SingleCategory | cmd/newcity/message.go:36-59 | A one-category menu posts the header and the body, only the header, or nothing, according to whether the body is empty and unchanged results are wanted. |
| MessageFacts.ScenarioFirstRun | cmd/newcity/message.go:104 | A first run lists "• Choco: *Rich* (:egg:)". |
| MessageFacts.ScenarioSwap | cmd/newcity/message.go:101-119 | Swapping one flavor for another yields both side headings, the added line with its trailing space, and the removed name. |
| Legacy.SubtitlesAgree | main.go:363-385 | The root copy's subtitle equals the refactored one in every case except a non-empty removed side with the cache on. |
| Legacy.LegacyRemovedHeadingSaysAdded | main.go:368-374 | In the root copy, a non-empty removed side is headed "Flavors added since the last run:", identically to the added side. |
| Legacy.SubtitlesDistinguishSides | cmd/newcity/message.go:127-133 | In the refactored copy, the two subtitles of a body are equal only when neither is written. |
| Legacy.CategoriesAgree | main.go:334-361 | Where no removed list is headed, both copies write the same body. |
| Legacy.VariantsAgree | main.go:231-264 | With the cache off, or when no selected category lost a flavor, both copies post the same messages. |
| Legacy.LegacyScenarioSwap | main.go:342-374 | The root copy renders a swapped flavor with the removed name under "Flavors added since the last run:". |

## Left out

- Scraping (`NewIceCreams`) is left out: HTML crawling and network access. Only its pure details-text fragment is modelled.
- Reading and writing the cache file (`NewIceCreamsFromFile`, `Write`) is left out: JSON and file I/O. A missing cache is the empty snapshot.
- Posting to Discord, flag parsing and the `main` functions are left out: network delivery and process orchestration.
- The `extract_cache` command is left out: a separate artifact downloader.
- The `log.Println` diagnostics are left out: the per-side "no change" log line and the `WriteString` error branches. A `strings.Builder` never fails to write.
- `Close` and `warn` are left out: resource cleanup and a log-message helper.
- Text.ToUpper: models Go's `strings.ToUpper` on ASCII letters only, because Unicode case mapping is outside the model. A non-ASCII character whose Go upper case is one of the five table letters is therefore treated here as an unknown code. One example is U+017F LATIN SMALL LETTER LONG S, whose upper case is 'S'.
- Flavors.Difference: lists removed items in one fixed order (the order of their last cached occurrence), because Go's map order is unspecified. DifferenceLoop.DrainLookup models the arbitrary order and is related to it up to a multiset.
- Message.Messages: takes the category order as an input. The source iterates a Go map, whose order is unspecified, so a claim about the order of bodies holds for every iteration order, not for one fixed order.
- Message.Messages: diffs each category against the given cache even with the cache switched off, as the code does. It does not by itself treat every current flavor as added in that case. The two readings agree for the bot's own call, because cmd/newcity/main.go:35-52 passes no cache when the cache is off (`MessageFacts.EmptyCacheAllAdded`).
- Message.WriteCategory: follows one quirk of the code, which is kept, not corrected. With the cache off and several categories, a category that only lost flavors still gets its bold title. Its body is then that title alone, since removed lines are not written without the cache.
- DetailsText.Trim: is described by slices and counts of leading and trailing parentheses rather than by an existential over prefixes and suffixes, which is equivalent.

## Findings

| source | as written | input that shows it | evidently intended | confidence | as-written member | corrected member |
|---|---|---|---|---|---|---|
| main.go:369 | A non-empty side is headed "Flavors added since the last run:" whatever the side, so removed flavors appear under an "added" heading | cache on, current Originals = [Mint], cached Originals = [Choco]: the body reads "Flavors added…• Mint…Flavors added…• Choco" | heading names the side, "Flavors removed since the last run:" (the refactored cmd/newcity/message.go:128 does this) | not executed | Legacy.LegacyRemovedHeadingSaysAdded | Legacy.SubtitlesDistinguishSides |
