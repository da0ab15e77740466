# AlgoBattle server core in Dafny

This project models the in-memory core of the AlgoBattle trading-bot server:

- **Ordered ticker set.** `TreeSet` is a left-leaning red-black tree of strings. It has two copies:
  - `server/pkg/utils/treeset.go` with a lock and a snapshot iterator;
  - `server/treeset.go` without locks, with a stack-based iterator.
- **Price history.** `History` is a sparse time series:
  - rows sorted by date, each mapping a ticker to its daily bar;
  - the first and last date loaded per ticker;
  - the binary search `GetClosestRowBefore`;
  - the one-pass merge `AddData`;
  - `Pack`/`Unpack`.

  It lives in `server/pkg/models/stock_data.go`, copied in `server/stock_data.go`.
- **Indicator engine.** `CalculateIndicators` and the two indicators. `EMA` is a running mean, then exponential smoothing. `MACD` is the difference of two EMAs of smoothing 2. They live in `server/pkg/indicators/`, copied in `server/stock_data.go`.
- **Portfolio ledger.** `NewPortfolio`, `Buy`, `Sell` and `Execute` over cash and per-ticker holdings. They live in `server/pkg/models/portfolio.go`, copied in `server/bot.go`.

The legacy copies under `server/` compute the same results for every modelled operation, so each operation is modelled once and the `Model` table cites the `pkg` lines. They differ from the `pkg` code in these ways:

- the tree set's iterator (`All`) walks with an explicit stack instead of taking a snapshot, and is modelled separately;
- `addData` logs "no periods for" before returning on empty periods (`server/stock_data.go:61-64`); the `pkg` `AddData` returns silently;
- `CalculateIndicators` logs "Skipping ticker … data does not exist" for a ticker without rows (`server/stock_data.go:277-281`), and runs each ticker's indicators in a goroutine under a `WaitGroup` (`server/stock_data.go:269-327`).

## Layout

- **`ordering.dfy` (`Ordering`).** The comparator the sets are built with, `cmp.Compare` on strings.
  - It compares lexicographically by character.
  - For valid UTF-8 this is the same order as Go's byte-wise comparison.
- **`red_black.dfy` (`RedBlack`).** The node operations as functions on a `Tree` datatype:
  - `rotateLeft`, `rotateRight`, `flipColors`, `insert`, `balance`;
  - `moveRedLeft`, `moveRedRight`, `min`, `deleteMin`, `delete`.

  The Go code mutates nodes and returns the new subtree root. A subtree value returned by a function is the same thing, because no node is shared.
- **`red_black_order.dfy` (`RedBlackOrder`).** In-order contents, search-tree order, and `Without`, which removes one value from a sequence.
  - It also has the `Contains` loop, `Search`.
- **`red_black_balance.dfy` (`RedBlackBalance`).** The red-black shape `RB(t, n)`, which has three parts:
  - no red right link;
  - no two reds in a row;
  - `n` black links on every path.

  Insertion keeps the shape. The delete path keeps it, and removes exactly one value.
- **`red_black_root.dfy` (`RedBlackRoot`).** The whole-tree steps of `Insert`/`Remove`, the contract of a Go range-over-func iterator, and the two `Findings` below.
- **`tree_set.dfy` (`TreeSets.TreeSet`) and `legacy_tree_set.dfy` (`LegacyTreeSets.LegacyTreeSet`).** A class per copy. Its `root` field is replaced by `Insert`/`Remove`. The legacy `All` is the explicit-stack walk.
- **`stock_data.dfy` (`StockData`).** The value types, and the `History` class whose `rows` and `tickers` fields `AddData` updates.
  - `GetClosestRowBefore`, `AddData` and `Pack` are methods with their loops.
  - `Unpack` builds a fresh history.
- **`stock_data_merge.dfy` (`StockDataMerge`).** What `AddData`'s merge does to the rows.
- **`stock_data_landing.dfy` (`StockDataLanding`).** Where the merge puts each period for any ascending rows, which dates it adds, and that merging the same periods again changes nothing.
- **`indicators.dfy` (`Indicators`).** `Name` and the EMA and MACD series as functions. `EMA.Apply` and `MACD.Apply` are methods with their loops. The three accessors are modelled as operations on a `Sink`:
  - the window of rows `CalculateIndicators` hands over;
  - or one of MACD's scratch buffers.
- **`indicator_engine.dfy` (`IndicatorEngine`).** `CalculateIndicators` on a `History`, for any order of visiting the tickers.
- **`portfolio.dfy` (`Portfolios`).** `Buy`, `Sell` and `Execute` as functions on a `Ledger` value. The `Portfolio` class has a `Holding` object per ticker, and its in-place methods are proved equal to those functions.

## Model

| member | source | states |
|---|---|---|
| Ordering.CompareZeroIffEqual | server/pkg/services/tiingo.go:49 | the comparator reports 0 exactly for equal strings |
| Ordering.LessTransitive | server/pkg/services/tiingo.go:49 | the comparator's order is transitive |
| Ordering.LessTotal | server/pkg/services/tiingo.go:49 | any two strings are below, equal or above each other, and a positive comparison means the second is below |
| RedBlack.RotateLeft | server/pkg/utils/treeset.go:123-130 | rotating left keeps the in-order sequence of values |
| RedBlack.RotateRight | server/pkg/utils/treeset.go:132-139 | rotating right keeps the in-order sequence of values |
| RedBlack.Flip | server/pkg/utils/treeset.go:141-149 | recolouring keeps the in-order sequence, the node's value and which children are present |
| RedBlack.Insert | server/pkg/utils/treeset.go:151-173 | `insert` returns a node whose values are the old values plus the new one |
| RedBlack.FixUp | server/pkg/utils/treeset.go:162-170 | the three fix-ups after an insertion keep the in-order sequence |
| RedBlack.Balance | server/pkg/utils/treeset.go:256-273 | `balance` keeps the in-order sequence and maps an empty tree to an empty one |
| RedBlack.MoveRedLeft | server/pkg/utils/treeset.go:237-245 | `moveRedLeft` keeps the in-order sequence and leaves a left child wherever there was one |
| RedBlack.MoveRedRight | server/pkg/utils/treeset.go:247-254 | `moveRedRight` keeps the in-order sequence; a missing right child afterwards means there was none, and the value did not move |
| RedBlack.Min | server/pkg/utils/treeset.go:211-219 | `min` is the first value of the in-order sequence |
| RedBlack.DeleteMin | server/pkg/utils/treeset.go:221-235 | `deleteMin` never introduces a value |
| RedBlack.Delete | server/pkg/utils/treeset.go:175-208 | `delete` never introduces a value |
| RedBlackOrder.InsertKeepsSorted | server/pkg/utils/treeset.go:151-173 | insertion keeps the in-order sequence strictly ascending |
| RedBlackOrder.InsertPresent | server/pkg/utils/treeset.go:156-160 | inserting a value already present leaves the in-order sequence unchanged |
| RedBlackOrder.SideOf | server/pkg/utils/treeset.go:69-75 | in a search tree a value below the root can only be on the left, and one above only on the right |
| RedBlackOrder.SortedNode | server/pkg/utils/treeset.go:151-173 | `l + [v] + r` is ascending iff `l` and `r` are ascending and `v` separates them |
| RedBlackOrder.WithoutSplit | server/pkg/utils/treeset.go:175-208 | removing `v` from an ascending `a + [x] + b` removes it from the side it is on, or drops `x` when `v == x` |
| RedBlackOrder.Search | server/pkg/utils/treeset.go:63-78 | the `Contains` walk answers true exactly when the value is in the tree |
| RedBlackBalance.HeightOfRB | server/pkg/utils/treeset.go:151-173 | the black height of a red-black tree is the number of black nodes on its leftmost path, so it is determined by the tree |
| RedBlackBalance.InsertBalanced | server/pkg/utils/treeset.go:151-173 | `insert` into a black or empty subtree gives a red-black subtree of the same height; into a red one, a red node with two red-black children of that height and a non-red right child, which the parent repairs |
| RedBlackBalance.InsertLeftFixed | server/pkg/utils/treeset.go:156-170 | after an insertion on the left, the fix-ups restore the shape |
| RedBlackBalance.InsertRightFixed | server/pkg/utils/treeset.go:158-170 | after an insertion on the right, the fix-ups restore the shape |
| RedBlackBalance.BalanceBlack | server/pkg/utils/treeset.go:256-273 | `balance` over a black node with children of equal height gives a tree one link higher, not red when a child is not red |
| RedBlackBalance.BalanceRed | server/pkg/utils/treeset.go:256-273 | `balance` leaves a red node over two non-red children of equal height as it is |
| RedBlackBalance.MoveRedLeftFlips | server/pkg/utils/treeset.go:237-245 | `moveRedLeft` with inverting flips, when the right child's left is not red, only inverts the three colours |
| RedBlackBalance.MoveRedLeftRotates | server/pkg/utils/treeset.go:237-245 | `moveRedLeft` with inverting flips, when the right child's left is red, moves that value up to the root |
| RedBlackBalance.LeftBorrow | server/pkg/utils/treeset.go:229-233 | after `moveRedLeft` on a red node over a 2-node, the left child is an entry state for `deleteMin`/`delete`, keeps every old left value, and the node rebuilt over any valid result keeps the height |
| RedBlackBalance.LeftBorrowRotating | server/pkg/utils/treeset.go:239-243 | the same, when the right sibling lends a value |
| RedBlackBalance.LeftBorrowFlipping | server/pkg/utils/treeset.go:237-238 | the same, when the colours only flip |
| RedBlackBalance.DeleteMinChild | server/pkg/utils/treeset.go:229-234 | the child `deleteMin` recurses into is an entry state, and rebuilding over any valid result keeps the height and does not redden a black node |
| RedBlackBalance.DeleteMinBalanced | server/pkg/utils/treeset.go:221-235 | `deleteMin` with inverting flips, from an entry state, gives a red-black tree of the same height, not red when the input was black |
| RedBlackBalance.DeleteMinRemovesMin | server/pkg/utils/treeset.go:221-235 | `deleteMin` with inverting flips removes exactly the first value of the in-order sequence |
| RedBlackBalance.DeleteLeftChild | server/pkg/utils/treeset.go:180-186 | for a value below the node, the left child `delete` recurses into holds the value, is an entry state, and rebuilding over any valid result keeps the height |
| RedBlackBalance.RightOf | server/pkg/utils/treeset.go:187-205 | a value not below the node is not in the left subtree, and is in the right one unless it is the node's own |
| RedBlackBalance.RightOfLeaning | server/pkg/utils/treeset.go:188-190 | when the node leans red to the left, `rotateRight` leaves the right descent in an entry state that rebuilds to the same height |
| RedBlackBalance.RightOfRedBorrow | server/pkg/utils/treeset.go:194-196 | a red node whose right child is a 2-node: `moveRedRight` leaves the right descent in an entry state that rebuilds to the same height |
| RedBlackBalance.RightOfRedBorrowRotating | server/pkg/utils/treeset.go:249-252 | the same, when the left child lends a value |
| RedBlackBalance.RightOfRedBorrowFlipping | server/pkg/utils/treeset.go:248 | the same, when the colours only flip |
| RedBlackBalance.RightOfReady | server/pkg/utils/treeset.go:194-205 | when the right child already leans red, the right descent needs no borrowing |
| RedBlackBalance.DeleteRightChild | server/pkg/utils/treeset.go:187-205 | for a value not below the node: `delete` stops at a leaf holding only the value, or descends right into an entry state whose result rebuilds to the same height |
| RedBlackBalance.DeleteBalanced | server/pkg/utils/treeset.go:175-208 | `delete` with inverting flips, from an entry state and for a present value, gives a red-black tree of the same height, not red when the input was black |
| RedBlackBalance.DeleteBalancedBelow | server/pkg/utils/treeset.go:180-186 | the same, for a value below the node |
| RedBlackBalance.DeleteBalancedAtOrAbove | server/pkg/utils/treeset.go:187-207 | the same, for a value at or above the node |
| RedBlackBalance.DeleteBalancedFound | server/pkg/utils/treeset.go:197-200 | the same, when the value is replaced by its successor |
| RedBlackBalance.DeleteBalancedPast | server/pkg/utils/treeset.go:201-204 | the same, when the value is deleted from the right subtree |
| RedBlackBalance.DeleteRemoves | server/pkg/utils/treeset.go:175-208 | `delete` with inverting flips, from an entry state and for a present value, leaves exactly the in-order sequence without the value |
| RedBlackBalance.DeleteRemovesBelow | server/pkg/utils/treeset.go:180-186 | the same, for a value below the node |
| RedBlackBalance.DeleteRemovesAtOrAbove | server/pkg/utils/treeset.go:187-207 | the same, for a value at or above the node |
| RedBlackBalance.DeleteRemovesPast | server/pkg/utils/treeset.go:201-204 | the same, when the value is deleted from the right subtree |
| RedBlackBalance.DeleteRemovesFound | server/pkg/utils/treeset.go:197-200 | the same, when the value is replaced by its successor, the smallest value on the right |
| RedBlackRoot.Blacken | server/pkg/utils/treeset.go:43-45 | painting the root black keeps the shape, one black link higher when it was red |
| RedBlackRoot.WithoutKeepsSorted | server/pkg/utils/treeset.go:50-60 | removing a value from an ascending sequence keeps it ascending and removes exactly that value |
| RedBlackRoot.Put | server/pkg/utils/treeset.go:41-45 | one step of `Insert`'s loop, `insert` at the root and then paint it black: the root comes out black and the values are the old ones plus `v` |
| RedBlackRoot.RemoveAsWritten | server/pkg/utils/treeset.go:54-58 | one step of `Remove`'s loop as the source writes it, with `flipColors` setting colours: the root comes out black and no value is introduced (that it can lose one is `AsWrittenRemoveLosesValue`) |
| RedBlackRoot.Remove | server/pkg/utils/treeset.go:54-58 | the corrected step both tree sets use (absent values skipped, root reddened, inverting flips): no value is introduced and, for a present value, the root comes out black; exact removal is `RemoveCorrect` |
| RedBlackRoot.PutCorrect | server/pkg/utils/treeset.go:41-45 | one step of `Insert` keeps the tree valid (red-black, black root, ascending) and adds exactly the value |
| RedBlackRoot.RemoveCorrect | server/pkg/utils/treeset.go:54-58 | one corrected step of `Remove` keeps the tree valid and leaves exactly the old sequence without the value |
| RedBlackRoot.PutAllCorrect | server/pkg/utils/treeset.go:37-47 | `Insert(values...)` keeps the tree valid; afterwards a value is present iff it was present or is among the values |
| RedBlackRoot.RemoveAllCorrect | server/pkg/utils/treeset.go:50-60 | `Remove(values...)` keeps the tree valid; afterwards a value is present iff it was present and is not among the values |
| RedBlackRoot.YieldAlwaysTrue | server/pkg/utils/treeset.go:88-94 | an iterator whose `yield` never stops hands over every value |
| RedBlackRoot.YieldedUnique | server/pkg/utils/treeset.go:88-94 | what an iterator hands over is determined by the values and `yield` |
| RedBlackRoot.Range | server/pkg/utils/treeset.go:88-94 | iterating over the snapshot hands over its values in order, up to and including the first one `yield` refuses |
| RedBlackRoot.ThreeValues | server/pkg/utils/treeset.go:37-47 | inserting "A", "B", "C" builds a valid tree with "B" at a black root over two black leaves |
| RedBlackRoot.AsWrittenRemoveLosesValue | server/pkg/utils/treeset.go:141-149 | with the source's recolouring, removing "B" from that tree leaves a tree that is not red-black, and then removing "C" also loses "A" |
| RedBlackRoot.CorrectedRemoveKeepsValue | server/pkg/utils/treeset.go:50-60 | with the corrected recolouring, the same two removals leave exactly "A" |
| RedBlackRoot.TwoRemovals | server/pkg/utils/treeset.go:50-60 | removing "B" from A,B,C leaves A,C, and removing "C" from A,C leaves A |
| TreeSets.TreeSet.constructor | server/pkg/utils/treeset.go:30-34 | `NewTreeSet` is an empty valid set |
| TreeSets.TreeSet.Insert | server/pkg/utils/treeset.go:37-47 | the root becomes the inserts performed one by one; the tree stays valid; the contents are the old ones plus the values |
| TreeSets.TreeSet.Remove | server/pkg/utils/treeset.go:50-60 | the root becomes the corrected removals performed one by one; the tree stays valid; the contents are the old ones without the values |
| TreeSets.TreeSet.Contains | server/pkg/utils/treeset.go:63-78 | true exactly when the value is in the set; the set is not modified |
| TreeSets.TreeSet.AsSlice | server/pkg/utils/treeset.go:98-114 | the in-order sequence, strictly ascending |
| TreeSets.TreeSet.All | server/pkg/utils/treeset.go:81-95 | hands the ascending snapshot to `yield` in order, stopping after the first refusal |
| TreeSets.Traverse | server/pkg/utils/treeset.go:103-111 | the recursive walk appends the subtree's in-order values to the slice |
| LegacyTreeSets.LegacyTreeSet.constructor | server/treeset.go:26-30 | an empty valid set |
| LegacyTreeSets.LegacyTreeSet.Insert | server/treeset.go:67-74 | as the pkg `Insert` |
| LegacyTreeSets.LegacyTreeSet.Remove | server/treeset.go:100-107 | as the pkg `Remove`, with the corrected recolouring |
| LegacyTreeSets.LegacyTreeSet.Contains | server/treeset.go:109-121 | true exactly when the value is in the set |
| LegacyTreeSets.LegacyTreeSet.All | server/treeset.go:123-144 | the explicit-stack walk hands every value over once, in ascending order, and stops right after the first refusal, so what it hands over is a prefix of the traversal |
| LegacyTreeSets.LegacyTreeSet.AsSlice | server/treeset.go:146-154 | exactly the in-order sequence |
| LegacyTreeSets.PushPending | server/treeset.go:131-134 | pushing a node and going left does not change what is still to be visited |
| LegacyTreeSets.PopPending | server/treeset.go:136-142 | popping a node hands over its value, and leaves its right subtree and the rest of the stack still to visit |
| LegacyTreeSets.PrefixOf | server/treeset.go:137-139 | what was handed over plus what is still pending is the whole traversal, so it is a prefix, a proper one exactly when something is still pending |
| StockData.Store | server/pkg/models/stock_data.go:242-256 | `Data.Store` replaces the ticker's bar and keeps the date and every other ticker's bar |
| StockData.LastAtOrBefore | server/pkg/models/stock_data.go:180-211 | the index of the last row dated at or before the date: -1 or a row at or before it, with every later row after the date |
| StockData.Advance | server/pkg/models/stock_data.go:234-236 | the cursor moves past exactly the rows dated before the date, stopping at the first row not before it or at the end |
| StockData.Place | server/pkg/models/stock_data.go:228-257 | one turn of the merge leaves a cursor on a row |
| StockData.History.constructor | server/pkg/models/stock_data.go:141-148 | `NewHistory` has no tickers and no rows |
| StockData.History.GetClosestRowBefore | server/pkg/models/stock_data.go:183-211 | on ascending rows, the index of the greatest row date at or before the target, or -1 when there is none (including no rows); the row is `Rows[index]` exactly when the index is not -1 |
| StockData.History.AddData | server/pkg/models/stock_data.go:216-258 | the rows become the merge of the periods from the closest row before the first date; the ticker's metadata becomes the first and last dates; no periods changes nothing; the history stays valid (rows strictly ascending) |
| StockData.History.PlacePeriods | server/pkg/models/stock_data.go:228-257 | the loop over the periods is the step-by-step merge |
| StockData.History.PlacePeriod | server/pkg/models/stock_data.go:229-256 | one turn of the loop: insert in front when the cursor is -1, skip earlier rows, append at the end, store the bar |
| StockData.History.Pack | server/pkg/models/stock_data.go:152-163 | the same tickers and one packed row per row, in order; a valid history packs to ascending rows |
| StockData.Unpack | server/pkg/models/stock_data.go:167-178 | a fresh history with the same tickers and one row per packed row, in order; it is valid iff the packed rows ascend |
| StockData.PackedAscendingIff | server/pkg/models/stock_data.go:101-123 | rows are strictly ascending iff their packed form is, both ways round, so a cached history is valid exactly when its packed rows ascend |
| StockData.PackRows | server/pkg/models/stock_data.go:101-108 | packing keeps the number of rows |
| StockData.UnpackRows | server/pkg/models/stock_data.go:112-123 | unpacking keeps the number of rows |
| StockDataMerge.PackRoundTrip | server/pkg/models/stock_data.go:101-123 | unpacking packed rows gives the rows back, and packing unpacked rows gives the packed rows back |
| StockDataMerge.LastAtOrBeforeFinds | server/pkg/models/stock_data.go:196-197 | in ascending rows, the search for a row's own date finds that row |
| StockData.PlaceKeepsAscending | server/pkg/models/stock_data.go:228-241 | one turn of the merge keeps the rows strictly ascending |
| StockDataMerge.PlaceExtends | server/pkg/models/stock_data.go:228-257 | one turn of the merge adds a row only in front (when the cursor is -1) or at the end, and changes no date and no other ticker's bar |
| StockDataMerge.PrependExtends | server/pkg/models/stock_data.go:230 | a new row in front keeps the old rows, shifted by one |
| StockDataMerge.AppendExtends | server/pkg/models/stock_data.go:239 | a new row at the end keeps the old rows |
| StockDataMerge.StoreExtends | server/pkg/models/stock_data.go:242-256 | storing the ticker's bar changes no date and no other ticker's bar |
| StockDataMerge.ExtendsCompose | server/pkg/models/stock_data.go:228-257 | two extensions in a row are one extension |
| StockData.PlaceAllKeepsAscending | server/pkg/models/stock_data.go:228-257 | the whole merge keeps the rows strictly ascending |
| StockDataMerge.PlaceAllExtends | server/pkg/models/stock_data.go:228-257 | the whole merge adds at most one row in front and otherwise only rows at the end |
| StockData.AddDataKeepsAscending | server/pkg/models/stock_data.go:216-258 | `AddData` keeps the rows strictly ascending, for any periods |
| StockDataMerge.AddDataShape | server/pkg/models/stock_data.go:226-240 | `AddData` keeps every row in order with its date and every other ticker's bar; a front row is made only when every row is later than the first period; new rows hold only the ticker |
| StockDataMerge.PlaceDates | server/pkg/models/stock_data.go:229-240 | one turn of the merge adds at most the period's own date |
| StockDataMerge.PlaceLands | server/pkg/models/stock_data.go:234-256 | a period with a row of its own date to go to has its bar stored in that row |
| StockDataMerge.AdvanceFindsDate | server/pkg/models/stock_data.go:234-236 | in ascending rows the cursor stops at the row of the date when there is one |
| StockDataMerge.AdvancePastAll | server/pkg/models/stock_data.go:234-236 | the cursor runs off the end when every row is dated before the date |
| StockDataMerge.PlaceAllKeepsRow | server/pkg/models/stock_data.go:234-236 | a row behind the cursor, older than every period still to come, is never touched again |
| StockDataMerge.LandsAfterFirst | server/pkg/models/stock_data.go:228-257 | after the first period is placed, the others still have rows to go to |
| StockDataMerge.FirstLands | server/pkg/models/stock_data.go:228-257 | the first period's bar stays where it went while the later periods are placed |
| StockDataMerge.PlaceAllLands | server/pkg/models/stock_data.go:228-257 | for strictly increasing periods that each have a row to go to, every bar ends in a row of its own date |
| StockDataMerge.AddDataLands | server/pkg/models/stock_data.go:216-258 | after `AddData` with such periods, looking a period's date up finds its bar under the ticker |
| StockDataMerge.AddDataBetweenRows | server/pkg/models/stock_data.go:234-242 | an instance of `StockDataLanding.AddDataNotBefore`: rows dated 1 and 10 and a period dated 5 give the bar in the row dated 10, and no row dated 5 |
| StockDataLanding.FirstNotBefore | server/pkg/models/stock_data.go:234-236 | the first row dated at or after a date, or the end: every row before it is earlier |
| StockDataLanding.LastUpTo | server/pkg/models/stock_data.go:228-257 | the last period dated at or before a date, or -1: every later period is later than the date |
| StockDataLanding.PlaceCursor | server/pkg/models/stock_data.go:229-256 | from a ready cursor, one turn stores the bar in a row dated at or after the period, with every earlier row dated before it |
| StockDataLanding.PlaceAllNotBefore | server/pkg/models/stock_data.go:228-257 | from a ready cursor, each period ends in the first row dated at or after it, holding the bar of the last period dated at or before that row |
| StockDataLanding.AddDataNotBefore | server/pkg/models/stock_data.go:216-258 | for any ascending rows and strictly increasing periods, every period has a first row dated at or after it after `AddData`, and that row holds under the ticker the bar of the last period dated at or before the row (the period itself, or a later one that overwrote it) |
| StockDataLanding.PlaceDatesExact | server/pkg/models/stock_data.go:229-240 | one turn adds the period's date exactly when it puts a row in front (cursor -1) or runs off the end (every row earlier) |
| StockDataLanding.PlaceAllDates | server/pkg/models/stock_data.go:228-257 | the merge adds exactly the dates `NewDates` names |
| StockDataLanding.AddDataDates | server/pkg/models/stock_data.go:216-258 | the dates after `AddData` are the old dates plus exactly the first period's when every row is later than it, and each period's that is later than every row |
| StockDataLanding.AddDataNoRowBetween | server/pkg/models/stock_data.go:228-240 | a period with a later row (and, for the first period, an earlier or equal one) makes no row: its date is there afterwards iff it was there before |
| StockDataLanding.PlaceAllInPlace | server/pkg/models/stock_data.go:228-257 | when every period has a row at or after it and the cursor is on a row, the merge makes no row, and each row holds the bar of the last period landing there (or is unchanged) |
| StockDataLanding.AddDataFixed | server/pkg/models/stock_data.go:216-258 | rows already holding every period's landing, with a row at or before the first period, are left as they are by `AddData` |
| StockDataLanding.AddDataIdempotent | server/pkg/models/stock_data.go:216-258 | calling `AddData` twice with the same strictly increasing periods leaves the rows and the metadata as one call does |
| Indicators.DigitChar | server/pkg/indicators/ema.go:16 | a decimal digit is one of '0'..'9' |
| Indicators.DigitsShape | server/pkg/indicators/ema.go:16 | `%d` of a natural number is a non-empty run of digits, one digit long exactly below 10 |
| Indicators.IntToStringShape | server/pkg/indicators/ema.go:16 | `%d` of an int has no space and starts with '-' exactly when the int is negative |
| Indicators.DigitsInjective | server/pkg/indicators/ema.go:16 | different natural numbers print differently |
| Indicators.IntToStringInjective | server/pkg/indicators/ema.go:16 | different ints print differently |
| Indicators.SplitAtSpace | server/pkg/indicators/ema.go:16 | two space-free words joined by a space split back into the same words |
| Indicators.ParametersInjective | server/pkg/indicators/macd.go:16 | the two printed parameters can be read back |
| Indicators.Name | server/pkg/indicators/ema.go:15-17 | `Name` of EMA and MACD (also macd.go:15-17): a non-empty key whose first letter tells an EMA from a MACD; distinct indicators get distinct keys by `NameInjective` |
| Indicators.NameInjective | server/pkg/indicators/ema.go:15-17 | different indicators (EMA or MACD, with their parameters) store under different names |
| Indicators.SumPrefix | server/pkg/indicators/ema.go:29-30 | the running sum grows by the next price |
| Indicators.EmaValue | server/pkg/indicators/ema.go:28-35 | one EMA loop turn, the running mean and then the smoothing step on the value read back: when every value is read back and the factor lies in [0, 1], non-negative prices give a non-negative value |
| Indicators.EmaSeries | server/pkg/indicators/ema.go:28-35 | one value per price |
| Indicators.EmaWarmup | server/pkg/indicators/ema.go:29-31 | below the period, the value at `i` is the mean of the first `i + 1` prices |
| Indicators.EmaRecurrence | server/pkg/indicators/ema.go:24 | from the period on, the value at `i` is the price times `smoothing / (periodLength + 1)` plus the value read back at `i - 1` times one minus that (-1 when that row has no bar) |
| Indicators.EmaWarmupExample | server/pkg/indicators/ema.go:29-31 | smoothing 2, period 3, over prices 10, 20, 30 gives 10, 15, 20 (the running mean) |
| Indicators.EmaOfConstant | server/pkg/indicators/ema.go:20-36 | on a constant price, with every value read back, the EMA is that price at every index |
| Indicators.SumBounds | server/pkg/indicators/ema.go:29-31 | the running sum of prices in a range lies between the count times its bounds |
| Indicators.SmoothBounds | server/pkg/indicators/ema.go:24 | a smoothing step with a factor between 0 and 1 stays within a range holding the price and the previous value |
| Indicators.EmaWithinPrices | server/pkg/indicators/ema.go:20-36 | with every value read back and `0 <= smoothing <= periodLength + 1`, every EMA value (warm-up mean or smoothing step) lies within the range of the prices |
| Indicators.MacdOfConstant | server/pkg/indicators/macd.go:20-49 | on a constant price MACD is zero at every index |
| Indicators.Differences | server/pkg/indicators/macd.go:48 | one difference per index |
| Indicators.MacdSeries | server/pkg/indicators/macd.go:25-48 | one value per price |
| Indicators.KeepsAll | server/pkg/indicators/indicator.go:47-52 | for each index, whether a value stored there is kept |
| Indicators.StoreAt | server/pkg/indicators/indicator.go:47-59 | storing into a row keeps the number of rows |
| Indicators.SetValue | server/pkg/indicators/indicator.go:47-59 | `setValue` keeps the sink's kind, size, ticker, window start and name |
| Indicators.EmitNothing | server/pkg/indicators/indicator.go:47-59 | no `setValue` calls leave the sink as it is |
| Indicators.EmitStep | server/pkg/indicators/ema.go:28-35 | each further `setValue` at the next index, in ascending order, stores one more value |
| Indicators.AnnotatedStep | server/pkg/indicators/indicator.go:47-59 | one more `setValue` touches one more row, and only when that row has the ticker's bar |
| Indicators.GetIndicator | server/pkg/indicators/indicator.go:35-42 | the `getIndicator` closure: -1 at a row without the ticker's bar; what a store leaves behind is read back by `SetIndicatorRead` and `EmitRead` |
| Indicators.SetIndicatorRead | server/pkg/indicators/indicator.go:35-42 | the value just stored under a name in the ticker's bar is read back there |
| Indicators.EmitRead | server/pkg/indicators/indicator.go:35-59 | after the stores, `getIndicator` at `k` reads the value stored there, -1 for a row without a bar, and the old value outside the range; what each index keeps does not change |
| Indicators.EmitReadBack | server/pkg/indicators/ema.go:33 | the EMA's read of index `i - 1` under its own name sees its own earlier output, or -1 |
| Indicators.EmitFills | server/pkg/indicators/macd.go:28-41 | a buffer filled from first cell to last holds exactly the values stored |
| Indicators.ApplyEMA | server/pkg/indicators/ema.go:20-36 | `setValue` is called once for each index, in ascending order, with the EMA series over the prices |
| Indicators.EmaSmoothStep | server/pkg/indicators/ema.go:32-34 | the value stored at `i` from the period on is the recurrence on what `getIndicator(i - 1, Name())` returns |
| Indicators.EmaBuffer | server/pkg/indicators/macd.go:25-41 | an EMA of smoothing 2 into a zeroed buffer leaves the EMA series in the buffer, every cell kept |
| Indicators.EmitDifferences | server/pkg/indicators/macd.go:43-49 | `setValue` gets the short minus the long average at every index from the long period on, and nowhere else |
| Indicators.EmitOne | server/pkg/indicators/macd.go:48 | one `setValue` call stores the next difference |
| Indicators.ApplyMACD | server/pkg/indicators/macd.go:20-49 | panics, before any `setValue`, exactly when the short period is not below the long one; otherwise stores the MACD series at every index from the long period on |
| Indicators.Apply | server/pkg/indicators/indicator.go:61 | the call through the interface does what the indicator's own `Apply` does |
| IndicatorEngine.Column | server/pkg/indicators/indicator.go:26-42 | one entry per row for the ticker's bar |
| IndicatorEngine.DatesOf | server/pkg/indicators/indicator.go:17-64 | one date per row |
| IndicatorEngine.UntouchedTrans | server/pkg/indicators/indicator.go:44-62 | leaving dates and other tickers alone composes |
| IndicatorEngine.Targets | server/pkg/indicators/indicator.go:26-33 | `getTarget(k)` is the adjusted close of the bar at row `start + k`, or -1 without a bar, one per index |
| IndicatorEngine.RunWindow | server/pkg/indicators/indicator.go:44-62 | running the indicators over a window keeps the number of rows |
| IndicatorEngine.RunWindowFirst | server/pkg/indicators/indicator.go:44-62 | the run is the first indicator's `Apply` followed by the run of the rest |
| IndicatorEngine.RunTicker | server/pkg/indicators/indicator.go:19-24 | one ticker's part keeps the number of rows |
| IndicatorEngine.EmitColumn | server/pkg/indicators/indicator.go:47-59 | the ticker's column after the stores, one entry per row |
| IndicatorEngine.AnnotatedColumns | server/pkg/indicators/indicator.go:47-59 | the stores change no date and no other ticker's bars; the ticker's own column changes only where it has a bar |
| IndicatorEngine.EmitColumns | server/pkg/indicators/indicator.go:47-59 | the same, for an indicator's window |
| IndicatorEngine.KeepsByColumn | server/pkg/indicators/indicator.go:48-52 | whether a window index keeps a value is read off the ticker's column |
| IndicatorEngine.TargetsByColumn | server/pkg/indicators/indicator.go:26-33 | the prices depend only on the ticker's column |
| IndicatorEngine.Stored | server/pkg/indicators/indicator.go:61 | the values an indicator stores and the first index it stores at, within the window |
| IndicatorEngine.EffectStores | server/pkg/indicators/indicator.go:61 | `Apply` panics exactly for a MACD that refuses its periods; otherwise it stores its values from its first index on |
| IndicatorEngine.EffectFrame | server/pkg/indicators/indicator.go:44-62 | one `Apply` on a window panics exactly for such a MACD; otherwise it changes only the ticker's bars |
| IndicatorEngine.EffectColumn | server/pkg/indicators/indicator.go:44-62 | the ticker's bars after one `Apply` depend only on its bars before |
| IndicatorEngine.HasPanicFirst | server/pkg/indicators/indicator.go:44-62 | some indicator panics iff the first one does or one of the rest does |
| IndicatorEngine.RunWindowPanics | server/pkg/indicators/indicator.go:44-62 | a ticker's run panics exactly when there is an indicator and either the window is inverted (a slice out of range) or some MACD refuses its periods |
| IndicatorEngine.RunWindowFrame | server/pkg/indicators/indicator.go:44-62 | a ticker's run changes no date and no other ticker's bars |
| IndicatorEngine.RunWindowColumn | server/pkg/indicators/indicator.go:44-62 | a ticker's run depends only on its own bars |
| IndicatorEngine.LastAtOrBeforeByDates | server/pkg/indicators/indicator.go:19-20 | the window search looks only at the dates |
| IndicatorEngine.AscendingByDates | server/pkg/indicators/indicator.go:17-64 | rows with the same dates stay ascending |
| IndicatorEngine.RunIndicators | server/pkg/indicators/indicator.go:44-62 | the indicator loop for one ticker leaves the rows its run gives, or reports the panic; it changes no metadata, no date and no other ticker's bars |
| IndicatorEngine.DoneStep | server/pkg/indicators/indicator.go:18-63 | finishing one more ticker extends what is done by exactly that ticker |
| IndicatorEngine.SkippedRun | server/pkg/indicators/indicator.go:22-24 | a ticker whose start or end date comes before every row is skipped, and none of its bars change |
| IndicatorEngine.WindowRun | server/pkg/indicators/indicator.go:19-20 | otherwise its run is the run over the rows between the two dates found |
| IndicatorEngine.StepOverrides | server/pkg/indicators/indicator.go:44-62 | one `Apply` that does not panic keeps which rows have the ticker's bar and every price, and overrides the indicator values by what it computes from the prices |
| IndicatorEngine.DeltaBySamePrices | server/pkg/indicators/indicator.go:26-33 | what a run stores depends only on which rows have the ticker's bar and on the prices |
| IndicatorEngine.RunWindowOverrides | server/pkg/indicators/indicator.go:44-62 | a ticker's run that does not panic keeps its bars present and their prices, and overrides their indicator values by `RunDelta` |
| IndicatorEngine.RunDeltaOutside | server/pkg/indicators/indicator.go:47-59 | a run stores nothing outside its window |
| IndicatorEngine.RunWindowOwnFrame | server/pkg/indicators/indicator.go:44-62 | in the ticker's own column a run adds and removes no bar, changes no price, and leaves every bar outside the rows `start` to `end` as it was |
| IndicatorEngine.RowsByColumns | server/pkg/indicators/indicator.go:17-64 | rows with the same dates and the same bars for every ticker are the same rows |
| IndicatorEngine.RunWindowIdempotent | server/pkg/indicators/indicator.go:44-62 | running the same indicators over the same window again, on the rows a run left, gives those rows back |
| IndicatorEngine.ExpectedPricesKept | server/pkg/indicators/indicator.go:19-24 | a ticker's expected bars keep its bars present and their prices, and change nothing outside its window (all rows when it is skipped) |
| IndicatorEngine.CalculateIndicators | server/pkg/indicators/indicator.go:17-64 | for any visiting order: metadata and dates stay, the rows stay ascending, it panics exactly when some ticker's run does, and otherwise every ticker ends with the bars its own run gives, with no bar added or removed, no price changed and nothing outside its window changed |
| Portfolios.AsWrittenAverage | server/pkg/models/portfolio.go:83-84 | the as-written purchase value has no result exactly when its divisor is zero |
| Portfolios.AveragedAgrees | server/pkg/models/portfolio.go:84 | the model's purchase value equals the as-written one wherever that exists, and keeps the old value where it is NaN |
| Portfolios.AfterBuy | server/pkg/models/portfolio.go:63-88 | `Buy` succeeds iff the cash covers the cost and the count is not negative; too little cash is checked first; on an error the ledger is unchanged |
| Portfolios.AfterSell | server/pkg/models/portfolio.go:93-106 | `Sell` panics iff the ticker is not held, and succeeds iff the count is between 0 and the shares held; on an error the ledger is unchanged |
| Portfolios.AfterExecute | server/pkg/models/portfolio.go:110-119 | an action other than "buy" or "sell" is refused, and the ledger is unchanged, exactly then |
| Portfolios.BuyEffect | server/pkg/models/portfolio.go:76-85 | a successful `Buy` lowers the cash by exactly the cost, leaving it non-negative; it adds the shares to the ticker, at the unit cost when the ticker is new; every other ticker is untouched |
| Portfolios.SellEffect | server/pkg/models/portfolio.go:101-103 | a successful `Sell` adds the proceeds to the cash; it takes the shares off, leaving a non-negative count, and sets the purchase value to the unit cost; every other ticker is untouched |
| Portfolios.ExecuteKeepsNonNegative | server/pkg/models/portfolio.go:110-119 | no operation makes a share count negative |
| Portfolios.ExecuteKeepsSolvent | server/pkg/models/portfolio.go:110-119 | with a non-negative price, no operation takes the cash below zero |
| Portfolios.BuyThenSell | server/pkg/models/portfolio.go:63-106 | buying and then selling the same shares at the same price restores the cash and the share count |
| Portfolios.BuyAverageCountsSharesTwice | server/pkg/models/portfolio.go:83-84 | holding 1 share at 10 and buying 1 at 20 gives a purchase value of 40/3, not the weighted mean 15 |
| Portfolios.AsWrittenAverageReachesZeroDivisor | server/pkg/models/portfolio.go:84 | two buys of zero shares reach the as-written average with a zero divisor |
| Portfolios.Holding.constructor | server/pkg/models/portfolio.go:78-81 | a new holding with the given shares and purchase value |
| Portfolios.Portfolio.State | server/pkg/models/portfolio.go:14-32 | the ledger view has one position per holding |
| Portfolios.Portfolio.Positions | server/pkg/models/portfolio.go:25 | one position per holding |
| Portfolios.Portfolio.constructor | server/pkg/models/portfolio.go:50-57 | `NewPortfolio(c)` has cash `c`, no holdings, no transactions and account value 0 |
| Portfolios.Portfolio.Buy | server/pkg/models/portfolio.go:63-88 | the cash, the holdings and the outcome change as `AfterBuy` says; the account value and the transactions stay |
| Portfolios.Portfolio.Open | server/pkg/models/portfolio.go:77-81 | a new holding object with the shares at the unit cost; nothing else changes |
| Portfolios.Portfolio.AddShares | server/pkg/models/portfolio.go:82-85 | the ticker's holding changes in place as `Bought` says: the shares are added first, then the purchase value is computed from the new count |
| Portfolios.Portfolio.Sell | server/pkg/models/portfolio.go:93-106 | the cash, the holdings and the outcome change as `AfterSell` says; the account value and the transactions stay |
| Portfolios.Portfolio.Execute | server/pkg/models/portfolio.go:110-119 | the cash, the holdings and the outcome change as `AfterExecute` says; the account value and the transactions stay |

## Behaviour kept as written

- **`Buy` and the doc comment disagree.** The comment at `server/pkg/models/portfolio.go:60-62` calls the new purchase value a weighted average. Line 83 raises `NumShares` before line 84 uses it, so the old shares are weighted by the new count and the bought shares count twice in the divisor. The model keeps the code's formula (`Portfolios.Bought`, `Portfolios.AddShares`), and `Portfolios.BuyAverageCountsSharesTwice` shows the difference.
- **`AddData` does not keep "chronological order" in the comment's sense.** The comment at `server/pkg/models/stock_data.go:213-215` says data points go in that order, but the loop never splices a row into the middle. A period goes to the first row dated at or after it, so a period dated strictly between two existing rows is stored in the later row, and a later period landing there overwrites it. The model follows the code. Its guarantees are these:
  - the rows stay ascending (`StockData.AddDataKeepsAscending`), and `History.AddData` keeps its history valid;
  - rows are only ever added in front or at the end (`StockDataMerge.AddDataShape`);
  - every period goes to the first row dated at or after it, which ends up holding the bar of the last period dated at or before that row (`StockDataLanding.AddDataNotBefore`);
  - the only dates added are the first period's when every row is later, and those of the periods later than every row; a period with a later row adds none (`StockDataLanding.AddDataDates`, `StockDataLanding.AddDataNoRowBetween`);
  - bars land on their own date whenever a row of that date exists or can be appended (`StockDataMerge.AddDataLands`);
  - a second `AddData` of the same periods changes nothing (`StockDataLanding.AddDataIdempotent`).

## Findings

| source | as written | input that shows it | evidently intended | confidence | as-written member | corrected member |
|---|---|---|---|---|---|---|
| server/pkg/utils/treeset.go:141-149 | `flipColors` paints the node red and its children black. `moveRedLeft`, `moveRedRight` and `balance` on the delete path use it as well, but the delete path needs colours inverted. `Remove` also runs the delete on absent values and never reddens the root. The same code is at server/treeset.go:57-65 | `Insert("A","B","C")`, then `Remove("B")`, leaves a tree that is not red-black. A further `Remove("C")` leaves the set empty, so "A" is lost | `Remove` leaves a valid tree holding exactly the old values minus the removed ones | not executed | RedBlackRoot.AsWrittenRemoveLosesValue | RedBlackRoot.RemoveCorrect |
| server/pkg/models/portfolio.go:84 | the new purchase value is divided by `NumShares + shares`, which was already increased by `shares` | `Buy` 0 shares of a ticker, then `Buy` 0 shares again (or sell every share, then buy 0). The divisor is 0/0, and the stored purchase value becomes NaN | the purchase value stays a number; with no shares to weigh, the old value stays | not executed | Portfolios.AsWrittenAverageReachesZeroDivisor | Portfolios.AveragedAgrees |

For the first finding, `RedBlackRoot.RemoveAsWritten` is the step as written. `RedBlackRoot.Remove` is the corrected step, which both tree-set classes use: it skips absent values, reddens a root with two black children, and inverts colours on the delete path. `RedBlackRoot.RemoveCorrect` proves the property above for it, and `RedBlackRoot.CorrectedRemoveKeepsValue` replays the same input. `RedBlack.Insert` still uses the as-written `flipColors`, which is correct for insertion (`RedBlackBalance.InsertBalanced`).

For the second finding, `Portfolios.AsWrittenAverage` is the formula as written, with no result where Go computes NaN. `Portfolios.Averaged` is the corrected formula that `Buy` uses.

## Left out

- Concurrency is not modelled:
  - the tree set's `RWMutex`, including the nested read lock in `All`/`AsSlice`;
  - `xsync.MapOf` rows, which are modelled as plain maps;
  - the goroutine per ticker in the legacy `CalculateIndicators`, which is modelled as a sequential loop. A MACD panic there happens inside a goroutine, so it ends the process rather than reaching the caller; the model reports the same `Panic` outcome for both copies.
- The log output of the legacy copies (`server/stock_data.go:62`, `278`) is not modelled: logging changes no state.
- Prices, indicator values, cash and share counts are `real`; IEEE-754 rounding, NaN and infinities are not modelled.
- Dates are whole Unix seconds (`int`). `time.Time` comparisons (`Unix()`, `Before`) are integer comparisons.
- Go map iteration order in `CalculateIndicators` is unspecified. The model takes the order as a parameter, and `IndicatorEngine.CalculateIndicators` proves the outcome is the same for every order.
- A Go panic is a result value: `Panic` outcomes for `MACD.Apply`, for an inverted slice window and for `Sell` on a ticker not held. Nothing after it is modelled.
- Indicators.ApplyEMA: requires `periodLength >= 1`. With a period of 0 or less, Go reads `getIndicator(-1, …)`. That reads the row before the window, or crashes at index -1 in a MACD buffer. This out-of-window read is not modelled.
- Indicators.ApplyMACD: requires a short period of at least 1 when the periods do not panic, for the same reason.
- Indicators.Name: `fmt.Sprintf("%d")` is modelled for ints of any size. Go's `int` is 64 bits, and wrap-around is not modelled.
- `getTarget` is modelled as the sequence of prices it returns over the window. No `setValue` changes a price, so the sequence is the same at every call.
- A bar whose indicator map is nil is treated as one with an empty map. The lazy `make` in `setValue` and in `Buy` (`Holdings == nil`) is therefore not a separate state.
- The `%d` name is the key the window stores under (`Sink.Window.name`). Each indicator's `Apply` receives a window keyed by its own `Name()`.
- `Portfolio` fields for Firestore (`HistoricalAccountValue`, `TransactionReferences`) are left out, as are the `Transaction` record's Firestore reference, `calculateAccountValue`, handlers and schedulers. `Execute` does not record transactions, and neither does the model.
- StockData.History.Pack and StockData.Unpack: Go's `Pack` and `Unpack` (`server/pkg/models/stock_data.go:101-123`, `152-178`) hand over the same `*TickerPeriod` pointers and the same `Tickers` map, so the packed and unpacked histories alias each other. The model copies values, so this aliasing is not modelled, and `StockDataMerge.PackRoundTrip` holds by construction.
- `Row.UnmarshalJSON` (JSON text decoding) and the gob/JSON cache files are left out. Only the plain-map conversion of `Pack`/`Unpack` is modelled.
- The HTTP price feed (`server/pkg/services/tiingo.go`, `server/tiingo.go`) is left out. The model takes the `PackedPeriod` lists it would deliver as inputs to `AddData`.
- `strings.ToUpper` in `AddTickers` (Unicode case mapping) is left out.
- RedBlackRoot.RemoveAsWritten and RedBlackRoot.Remove: their own contracts only say the root comes out black and no value is introduced. `RedBlackRoot.RemoveCorrect` proves exact removal for `Remove`; `RedBlackRoot.AsWrittenRemoveLosesValue` shows `RemoveAsWritten` can lose a value.
- RedBlack.Delete and RedBlack.DeleteMin: their own contracts only say no value is introduced. The full set semantics and the shape are proved separately, in `RedBlackBalance` and `RedBlackRoot`.
- TreeSets.TreeSet.Remove and LegacyTreeSets.LegacyTreeSet.Remove: these model the corrected removal (see `Findings`) rather than the code as written, whose behaviour `RedBlackRoot.RemoveAsWritten` keeps.
