# Memory game: match engine and board generation

A Dafny model of the core of a browser memory game with coin images
(`resources/memory.js`). A board of tiles is generated from coin records, and
a player then uncovers tiles two at a time. Matching pairs stay face up.
Mismatching pairs turn back after a delay. The game is won when all pairs are
found.

The model has six modules:

- `BoardGeneration` covers the century filter, the number of pairs, the image
  path of a coin side, and `createShuffledImageUrls`. The function takes the
  choices of the two `_.sample` calls as arguments, so it has no randomness.
  A sample of `n` from `xs` is any `min(n, |xs|)` distinct positions of `xs`.
  The final shuffle is a sample of the whole list, as in the source.
- `TileIdentifier` models the two regular-expression replacements that turn an
  image reference back into a coin identifier. It also proves that round trip.
- `ClickLabel` is the move-count text of `updateClickCount`, with a parser
  that reads the count back from the text.
- `MatchRules` defines the click handler and the delayed revert as functions
  on a board value (a sequence of tiles). Each tile has an identifier and the
  flags `found`, `peek` and `timeout`, which the source keeps as CSS classes.
  The lemmas about the game rules live here.
- `MemoryGame.Game` is a class with the tile array, the move count and a
  board generation number. Its methods change the array in place. Each method
  is proved to leave exactly the board the matching `MatchRules` function
  describes. Every method that changes the array is also proved to keep the
  invariant `Consistent`: at most two tiles peeked, none both peeked and
  found, and `timeout` only on a tile that is peeked or found.
- `Wrappers` holds `Option` and `Min`.

Three behaviours of the code are stated as proved lemmas:

- When too few coins pass the filter, nothing fails. The sampler takes all of
  them, the board has fewer than `2 * pairs` tiles, and the win check can
  never succeed (`ShortBoardNeverWins`).
- A revert recognises its pair only by the `timeout` class. A revert whose
  pair was interrupted by a later click does nothing
  (`InterruptedPairRevertIsNoOp`). But take a tile clicked again into a newer
  mismatching pair. The older revert turns that tile back early and leaves
  its partner shown alone (`StaleRevertEndsNewerPair`). The invariant still
  holds.
- Identifier extraction needs more than "the id contains neither `record_`
  nor `_vs`/`_rs`". An id that ends in `record` joins the `_` of the side
  suffix into a later `record_`, which breaks the extraction
  (`IdentifierEndingInRecord`). In the difficult mode the two tiles of such a
  coin can never match. `PlainId` states a sufficient condition for the round
  trip. It is not a necessary one: whether an identifier outside it is still
  recovered depends on the text that follows it in the URL.

The 2000 ms revert is the method `OnTimeout(pending)`. The environment may
call it at any later point with a value that an earlier `Click` returned.
`fillBoard` replaces every tile element. A pending revert from an earlier
board therefore only touches detached elements, so the model makes it a
no-op through the generation number.

## Model

| member | source | states |
|---|---|---|
| `BoardGeneration.NumberOfPairs` | resources/memory.js:31-34 | twice the number of pairs is the number of tiles `rows * cols` |
| `BoardGeneration.InRange` | resources/memory.js:41-44 | the filter's test: a record passes exactly when `lo <= year < hi` (a definition; `CenturyFilterKeepsExactlyInRange` states what the filter does with it) |
| `BoardGeneration.CenturyFilter` | resources/memory.js:39-45 | every kept record is in the range `lo <= year < hi`; no more records than the input |
| `BoardGeneration.CenturyFilterKeepsExactlyInRange` | resources/memory.js:39-45 | each record in range is kept as often as it occurs, every other one is dropped, and the result is a subsequence of the input (original order) |
| `BoardGeneration.SourcePath` | resources/memory.js:60-66 | the path of one coin side: the data root, the coin's `magic`, `/media/`, the folder `record_<id>`, and the file `record_<id>_vs.jpg` or `_rs.jpg` (a definition; `TileIdentifier.ImageUrlShape` and `IdentifierOfImageUrl` state its structure) |
| `BoardGeneration.ImageUrl` | resources/memory.js:72-85 | the image reference: the source path inside a fixed wrapper for the host and the other query parameters (a definition) |
| `TileIdentifier.ImageUrlShape` | resources/memory.js:60-85 | every image reference is a head ending in the folder and `/`, then `record_`, then the id, the side suffix, `.jpg` and the wrapper's tail |
| `BoardGeneration.PairUrls` | resources/memory.js:95-102 | two image references per coin: at `2k` the front of coin `k`, at `2k+1` its front or back according to the difficulty flag |
| `BoardGeneration.Sample` | resources/memory.js:93 | a sample has `min(n, length)` elements, so too few coins is not an error |
| `BoardGeneration.SampleIsSubMultiset` | resources/memory.js:104 | a sample draws each element at most as often as it occurs; a sample of the whole list is a permutation of it |
| `BoardGeneration.DistinctBelowIsShort` | resources/memory.js:93 | distinct positions below `n` number at most `n` (why a sample cannot exceed its input) |
| `BoardGeneration.SelectedCoins` | resources/memory.js:92-93 | the coins on the board number `min(pairs, filtered count)` |
| `BoardGeneration.ShuffledImageUrls` | resources/memory.js:90-105 | the generated list has `2 * min(pairs, filtered count)` image references |
| `BoardGeneration.GeneratedUrls` | resources/memory.js:90-105 | the generated list is a permutation of the two references of every selected coin; the selected coins are drawn from distinct positions of the records that passed the filter |
| `TileIdentifier.AfterLastRecord` | resources/memory.js:118 | the text after the last `record_`, or nothing when there is none (a definition; `AfterLastRecordMeaning` states its meaning) |
| `TileIdentifier.StripThroughRecord` | resources/memory.js:118 | the first replacement `.*record_`: the input is left unchanged when there is no match |
| `TileIdentifier.IdentifierOf` | resources/memory.js:118 | both replacements in order: the identifier stored with a tile (a definition; `IdentifierIsPieceOfUrl` and `IdentifierOfImageUrl` state its meaning) |
| `TileIdentifier.IdentifierIsPieceOfUrl` | resources/memory.js:118 | for any reference, the extracted identifier occurs in it right after the text the first replacement removes, and it contains no `_vs`/`_rs` |
| `TileIdentifier.AfterLastRecordMeaning` | resources/memory.js:118 | the greedy `.*record_` fails exactly when `record_` does not occur, and otherwise leaves the rest after an occurrence with none later |
| `TileIdentifier.CutSide` | resources/memory.js:118 | `_[vr]s.*` leaves the longest prefix with no `_vs`/`_rs`, followed in the input by one (or the whole input) |
| `TileIdentifier.LastRecordTag` | resources/memory.js:118 | a `record_` with no further `record_` after it is where the first replacement cuts |
| `TileIdentifier.IdentifierOfImageUrl` | resources/memory.js:118 | for a plain id and a URL tail without `record_`, the identifier extracted from either side's image reference is the coin's id |
| `TileIdentifier.IdentifierEndingInRecord` | resources/memory.js:60-66 | the id `record` has neither `record_` nor `_vs`/`_rs`, yet its extracted identifier differs from it, and front and back give different identifiers |
| `TileIdentifier.RecordIdFirstChar` | resources/memory.js:62-64 | for the id `record` the extracted identifier starts with the side letter `v` or `r` |
| `ClickLabel.Decimal` | resources/memory.js:162 | the count is written as a non-empty string of digits without a leading zero |
| `ClickLabel.ParseDecimalOfDecimal` | resources/memory.js:162 | reading the decimal notation back gives the count |
| `ClickLabel.Label` | resources/memory.js:157-163 | the move-count text: empty for 0, ` 1 Klick` for 1, the number and ` Klicks` otherwise (a definition; the two lemmas below state its meaning) |
| `ClickLabel.CountOfLabelRoundTrip` | resources/memory.js:154-164 | reading the label back gives the move count (empty for 0, ` 1 Klick` for 1, `n Klicks` otherwise) |
| `ClickLabel.LabelInjective` | resources/memory.js:154-164 | different move counts show different labels; the label is empty exactly for 0 |
| `MatchRules.Clickable` | resources/memory.js:185-187 | a click counts only on a tile that is neither found nor peeked (a definition; `Game.Click` states the consequence) |
| `MatchRules.TurnBack` | resources/memory.js:194-196 | turning a tile back clears `peek`; a tile that was not peeked is unchanged; identifier and `found` are kept, and `timeout` is never added; a peeked tile also loses `timeout` |
| `MatchRules.TurnBackAll` | resources/memory.js:192-196 | every tile of the board is turned back on its own (a definition; `TurnBackAllClearsPeeks` and `ClickInterruptsShownPair` state what it achieves) |
| `MatchRules.Uncover` | resources/memory.js:191-200 | the clicked tile ends up peeked; no identifier or `found` flag changes; with at most one tile peeked before, no other tile changes |
| `MatchRules.PeekedIndices` | resources/memory.js:192 | exactly the positions of the peeked tiles, in increasing board order |
| `MatchRules.Compare` | resources/memory.js:203-205 | a pair is compared exactly when two tiles are peeked; a match means equal identifiers |
| `MatchRules.ClickBoard` | resources/memory.js:184-210 | the board after a click: an ignored click changes nothing; no click changes an identifier or loses a found tile |
| `MatchRules.ClickComparison` | resources/memory.js:203-205 | a click compares a pair exactly when it is counted and exactly one tile was peeked before it |
| `MatchRules.Won` | resources/memory.js:222 | the win test: the found tiles number `2 * pairs` (a definition; `WonBoardIgnoresClicks` and `ShortBoardNeverWins` state its consequences) |
| `MatchRules.Expire` | resources/memory.js:213-217 | the revert on one tile: `timeout` is gone afterwards; a tile without it is unchanged; identifier and `found` are kept; a tile still marked `timeout` is turned face down, and nothing is peeked |
| `MatchRules.Revert` | resources/memory.js:211-218 | the revert changes exactly the two tiles of its pair, each as `Expire` does, and no other tile |
| `MatchRules.Settle` | resources/memory.js:204-219 | acting on a comparison keeps every identifier and every found tile |
| `MatchRules.UncoverPeeks` | resources/memory.js:192-200 | after turning back a shown pair only the clicked tile is peeked; otherwise it joins the one peeked before |
| `MatchRules.SettlePeekCount` | resources/memory.js:206-210 | a match removes both tiles from the peeked ones; a mismatch leaves them |
| `MatchRules.SettleFoundCount` | resources/memory.js:206-208 | a match adds exactly two found tiles; a mismatch adds none |
| `MatchRules.UncoverKeepsFlags` | resources/memory.js:192-200 | uncovering keeps peek and found disjoint and `timeout` only on peeked or found tiles |
| `MatchRules.ClickLeavesAtMostTwoPeeked` | resources/memory.js:192-210 | whatever the board before, a counted click leaves at most two tiles peeked |
| `MatchRules.ClickKeepsConsistent` | resources/memory.js:184-219 | a click keeps the board consistent (at most two peeked, peek and found disjoint, `timeout` only on peeked or found tiles) |
| `MatchRules.ClickKeepsFound` | resources/memory.js:203-208 | a click never loses a found tile or changes an identifier; it adds two found tiles exactly when it completes a match |
| `MatchRules.ClickFirstOfPair` | resources/memory.js:199-200 | on a board with nothing peeked, only the clicked tile changes: it becomes peeked |
| `MatchRules.ClickInterruptsShownPair` | resources/memory.js:191-200 | with a pair shown, the click clears `peek` and `timeout` on the shown tiles, then peeks the clicked tile, which is then the only peeked tile |
| `MatchRules.UncoverSecond` | resources/memory.js:199-204 | peeking a second tile leaves exactly the two tiles peeked, in board order |
| `MatchRules.ClickCompletesMatch` | resources/memory.js:205-208 | equal identifiers make both tiles found and no longer peeked; nothing else changes |
| `MatchRules.ClickMarksMismatch` | resources/memory.js:209-210 | unequal identifiers leave both tiles peeked and marked `timeout`, and this pair is the one scheduled; nothing else changes |
| `MatchRules.WonBoardIgnoresClicks` | resources/memory.js:222-224 | once all `2 * pairs` tiles of a full board are found, every click is ignored, so the win is signalled once |
| `MatchRules.ShortBoardNeverWins` | resources/memory.js:222-224 | a board with fewer than `2 * pairs` tiles is never won |
| `MatchRules.RevertKeepsConsistent` | resources/memory.js:211-218 | the revert keeps the board consistent |
| `MatchRules.RevertKeepsFound` | resources/memory.js:211-218 | the revert changes no found flag or identifier and never peeks a tile |
| `MatchRules.MismatchThenRevert` | resources/memory.js:209-218 | a mismatching click followed by its own revert, with no click in between, turns both tiles back: the board is the one before the click with the earlier tile's `peek` and `timeout` cleared, and no tile is peeked |
| `MatchRules.RevertOfClearedPair` | resources/memory.js:212-217 | a revert whose tiles no longer carry `timeout` changes nothing |
| `MatchRules.InterruptedPairRevertIsNoOp` | resources/memory.js:192-218 | the revert of a pair that a later click turned back changes nothing |
| `MatchRules.StaleRevertEndsNewerPair` | resources/memory.js:211-218 | a revert whose tile was clicked again into a newer mismatching pair turns that tile back and leaves the other tile of the newer pair peeked and marked alone; the board stays consistent |
| `MatchRules.RevertOfHalfClearedPair` | resources/memory.js:211-218 | a revert whose first tile is marked again, in a newer pair, while its second tile is not, turns back only the first tile: the board keeps one peeked tile and stays consistent |
| `MatchRules.FreshBoard` | resources/memory.js:114-120 | one tile per image reference, in order, whose identifier is the one extracted from that reference (a definition; `FreshBoardIsIdle` and `PairIdentifiers` state what it achieves) |
| `MatchRules.FreshBoardIsIdle` | resources/memory.js:114-120 | a freshly filled board has no found, peeked or marked tile |
| `MatchRules.PairIdentifiers` | resources/memory.js:117-118 | the identifiers of the tiles built from the coins' image pairs are each coin's id twice |
| `MatchRules.GeneratedBoardHoldsPairs` | resources/memory.js:110-120 | the board built from a generated list holds each selected coin's id exactly twice (as a multiset), provided every coin in the year range has a plain id |
| `MemoryGame.Game.constructor` | resources/memory.js:6-8 | the page starts with no tiles, so no click can be counted before the first reset sets the count (line 234); the model starts the count at 0 |
| `MemoryGame.Game.Reset` | resources/memory.js:230-236 | the board is rebuilt from the image list with fresh tiles, the move count is 0, and older pending reverts go stale |
| `MemoryGame.Game.PeekedTiles` | resources/memory.js:192 | returns the positions of the peeked tiles |
| `MemoryGame.Game.FoundTiles` | resources/memory.js:222 | returns the number of found tiles |
| `MemoryGame.Game.TurnBackPeeked` | resources/memory.js:193-197 | every peeked tile loses `peek` and `timeout`; no other tile changes; the invariant holds |
| `MemoryGame.Game.UncoverTile` | resources/memory.js:191-200 | on a clickable tile, the array afterwards is the uncovering step applied to the board before; the invariant holds |
| `MemoryGame.Game.SettlePeeked` | resources/memory.js:202-220 | the array afterwards is the comparing step; it returns a revert exactly for a mismatch; the invariant holds |
| `MemoryGame.Game.Click` | resources/memory.js:181-225 | a click on a found or peeked tile changes nothing; any other click adds 1 to the move count and leaves the board `ClickBoard` gives; it signals a win exactly when found tiles number `2 * pairs` and returns the revert it scheduled; the invariant holds |
| `MemoryGame.Game.OnTimeout` | resources/memory.js:211-218 | the current board's revert un-peeks only those tiles of its pair that still carry `timeout`; a revert of an earlier board changes nothing; the invariant holds |

## Left out

- Rendering: the jQuery DOM building, class toggling as markup, `showModal`, and the `.show`/`.hide` calls of `resetGame`. The flags are data here.
- Data and menu input: `$.getJSON` loading and `JSON.parse` of the menu values. The coins, the range, `rows`/`cols` and the difficulty flag are parameters.
- Wall-clock time: the `setInterval` timer display, the `Date.now` durations with `Math.floor`, and the timer that `updateClickCount` starts at the first click. All of these need the clock.
- `createImageUrl` and `$.param` with the fixed host: the wrapper around the source path is the opaque `UrlWrap`. The model does not URL-encode the path, so it assumes identifiers are URL-safe.
- Randomness of `_.sample`: both samples are caller-supplied position lists.
- Real asynchrony of `setTimeout`: `OnTimeout` is an operation the caller may invoke at any later point, as often as it likes.
- `TileIdentifier.IdentifierOf`: treats its input as one line. In JavaScript, `.` stops at line terminators, and generated references contain none.
- `MatchRules.Compare`: compares identifiers as strings. jQuery's `.data()` converts number-like strings to numbers and JSON-like strings to objects. That conversion is not modelled. In particular, the identifier `NaN` becomes the number `NaN`, which is never `===` to itself. So the two tiles of such a coin can never match, while the model matches them.
- `BoardGeneration.NumberOfPairs`: requires an even `rows * cols`, as the size menu offers. With an odd product, JavaScript gives a fractional pair count, which is not modelled.
- `MemoryGame.Game.Reset`: takes the generated image list as an argument and does not call the generator. `GeneratedBoardHoldsPairs` connects the two.
- `MemoryGame.Game.Click`: requires a tile index within the board, since click events come only from tiles.
- `ClickLabel.Decimal`: the move count is unbounded. JavaScript writes numbers from 10^21 on in exponent notation, and `moveCount + 1` stops growing at 2^53. No game reaches either.
- `MemoryGame.Game.constructor`: starts the move count at 0. The page leaves it unset until the first `resetGame`, which no click can come before.
