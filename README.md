# Minesweeper board and solving bot, modelled in Dafny

This project models the two core classes of a Minesweeper program.

`Game` is the board (`code/GameStructures.py`). It is a rows x columns grid of cells. Each cell knows whether it is revealed, whether it is a mine, whether it is flagged and how many mines surround it. The board also keeps:
- the number of unused flags and the number of revealed cells;
- the game outcome (inconclusive, win or loss);
- a stack of reveal moves that can be undone.

The board's operations are:
- building the board from a sample of cell numbers;
- the player-facing queries: surrounding count and mine status, hidden while the game is on;
- listing the number cells, the border cells and the nonborder cells;
- a single reveal and a single unreveal;
- the chain (flood-fill) reveal and undoing the last one;
- flagging and unflagging.

`Bot` is the solver (`code/Bot.py`). It keeps two queues of cells, one to reveal and one to flag, and fills them in three ways:
- a basic deduction from each number cell on its own;
- a complex deduction from probability tables;
- a random decision.

An action drops the cells already shown from both queues and refills the queues when both are empty. It then chain-reveals the last cell queued to reveal or, failing that, flags the last cell queued to flag.

The probability tables are built in five steps:
1. neighbour tables between number cells and border cells;
2. islands of border cells linked through shared number cells, each ordered by Manhattan distance from its least cell, the islands ordered by size;
3. a backtracking search for every mine arrangement of each island;
4. the likelihood of each arrangement and, from those, each border cell's chance of being clear;
5. the chance of being clear for a cell off the border, from the combinations of the islands' mine amounts.

The model is organised by module:

| module | models |
|---|---|
| `Grid` | neighbourhood lists and mine counting |
| `GameStructures` | class `Game` |
| `ChainAsWritten` | the worklist loop of `chain_reveal` as written, on values |
| `Islands` | steps 1 and 2 |
| `Sorting` | Python's stable `sort(key=...)` |
| `Enumeration` | the arrangement search as a function |
| `Search` | class `SolutionSearch`: the search as the program runs it, mutating its dictionaries and lists |
| `Arrangements` | the declarative meaning of the search |
| `BorderProbability` | step 4 |
| `NonborderProbability` | step 5 |
| `ProbabilityTable` | what the probability table is computed from, the work of steps 1 to 4 on it, and the tables a board gives |
| `MinesweeperBot` | class `Bot` |

The bot's Python values are modelled as follows:
- A probability is an exact real.
- A border cell's probability divides two sums. When some island has an arrangement, the sums are floats and zero divided by zero gives NaN, which is the `Undefined` constructor. When no island has an arrangement, both sums are the integer 0 and the division raises `ZeroDivisionError`.
- An exception is the `Raised` constructor of an `Outcome`.
- A probability table is the dictionary's list of entries in insertion order.
- `MINE` is 1 and `NOT_MINE` is 0.

## Model

| member | source | states |
|---|---|---|
| GameStructures.SampledPosOnGrid | code/GameStructures.py:42-43 | a sampled cell number below rows*columns maps to a cell on the grid, and different numbers to different cells |
| GameStructures.SampledLocationsOnGrid | code/GameStructures.py:42-43 | a sample of distinct cell numbers gives as many mine locations, all distinct and on the grid |
| GameStructures.Game.constructor | code/GameStructures.py:23-50 | the new board is consistent; every cell is covered, unflagged, a mine exactly when sampled, and holds the number of mines around it; no cell revealed, every flag unused, outcome inconclusive, no moves |
| GameStructures.Game.PlaceMines | code/GameStructures.py:44-45 | afterwards a cell is a mine exactly when its location was sampled, and nothing else changes |
| GameStructures.Game.CountSurroundingMines | code/GameStructures.py:46-50 | every cell's surrounding count becomes the number of mines on the grid adjacent to it |
| GameStructures.Game.CountAround | code/GameStructures.py:48-50 | one cell's surrounding count becomes the mines adjacent to it; every other cell is unchanged |
| GameStructures.Game.MineNeighboursCounted | code/GameStructures.py:46-50 | counting mines along the neighbourhood list gives the number of mines adjacent to the cell, at most 8 |
| GameStructures.Game.GetSurroundingCount | code/GameStructures.py:71-75 | between 0 and 8; the true mine count on a revealed cell; 0 on a covered cell while the game is on |
| GameStructures.Game.IsMine | code/GameStructures.py:80-84 | true only for mines; exact on a revealed cell; never true for a covered cell while the game is on |
| GameStructures.Game.HasOpenNeighbour | code/GameStructures.py:99-103 | true exactly when some neighbour on the grid is neither revealed nor flagged |
| GameStructures.Game.RevealedNumberCells | code/GameStructures.py:90-106 | lists each number cell once: revealed, not a mine, with mines around it and, unless flagged neighbours are allowed, an open neighbour |
| GameStructures.Game.NumberCellsInRow | code/GameStructures.py:92-105 | after row r, the list holds exactly the number cells of rows 0..r, each once |
| GameStructures.Game.NumberScanStep | code/GameStructures.py:92-105 | one more cell of the row-major scan adds it exactly when it is a number cell |
| GameStructures.Game.IsNumberCellAt | code/GameStructures.py:94-105 | the scan keeps a cell exactly when it is a number cell |
| GameStructures.Game.UnrevealedBorderCells | code/GameStructures.py:108-117 | lists each border cell once: covered, unflagged unless flagged cells are allowed, and adjacent to a revealed non-mine cell |
| GameStructures.Game.BorderAdvance | code/GameStructures.py:110-116 | moving the scan past a cell adds exactly the border cells that this cell makes border cells |
| GameStructures.Game.AddBorderNeighbours | code/GameStructures.py:113-116 | keeps the list as a prefix and adds exactly the covered, allowed neighbours not yet seen |
| GameStructures.Game.UnrevealedNonborderCells | code/GameStructures.py:119-128 | lists each nonborder cell once: covered, unflagged unless flagged cells are allowed, and not a border cell even counting flagged ones |
| GameStructures.Game.NonborderCellsInRow | code/GameStructures.py:123-127 | after row r, the list holds exactly the nonborder cells of rows 0..r, each once |
| GameStructures.Game.NonborderScanStep | code/GameStructures.py:123-127 | one more cell of the scan adds it exactly when it is a nonborder cell |
| GameStructures.Game.IsNonborderAt | code/GameStructures.py:125-127 | the scan keeps a cell exactly when it is a nonborder cell |
| GameStructures.Game.BorderSplit | code/GameStructures.py:108-128 | every allowed covered cell is either a border cell or a nonborder cell, never both |
| GameStructures.Game.SingleReveal | code/GameStructures.py:131-145 | acts exactly on a covered cell while the game is on; shows it and takes off its flag (returning the flag); a mine loses, the last safe cell wins; every other cell unchanged; board invariant kept |
| GameStructures.Game.WinShowsSafeCells | code/GameStructures.py:140-141 | once the game is won, every cell that is not a mine is revealed |
| Grid.AllSafeShowing | code/GameStructures.py:140-141 | on the grid, shown cells and mines that are disjoint and as many as all cells leave no safe cell covered |
| GameStructures.Game.SingleUnreveal | code/GameStructures.py:147-163 | covers the cell; a win becomes inconclusive; a loss stands only while some mine still shows; counter and invariant kept |
| GameStructures.Game.Uncover | code/GameStructures.py:133-135 | shows one covered cell and counts it; nothing else changes |
| GameStructures.Game.Cover | code/GameStructures.py:149-150 | hides one shown cell and uncounts it; nothing else changes |
| GameStructures.Game.ChainReveal | code/GameStructures.py:165-176 | records exactly one new move that is a flood fill from the cell (see FloodFill): a game that was on and shows some cell without losing ends won exactly when the revealed counter reaches rows*columns - mineCount, and one that shows nothing stays on; the flags on revealed cells are gone, and the other flags stay |
| GameStructures.Game.ChainWalk | code/GameStructures.py:168-175 | the worklist, once exhausted, is a flood fill: start first, no repeats, each later cell a safe covered neighbour of an earlier zero-count cell, every neighbour of a zero-count cell in it queued or shown; revealed exactly the move (or only the mine, on a loss); a game that was on and shows some cell without losing ends won exactly when the revealed counter reaches rows*columns - mineCount, and one that shows nothing stays on |
| GameStructures.Game.RunWorklist | code/GameStructures.py:168-175 | trying every worklist cell in order, while the list grows, keeps it a worklist from the start cell and leaves every tried cell's zero-count neighbours queued or shown, what showed as the chain requires, and the outcome settled |
| GameStructures.Game.WalkDone | code/GameStructures.py:168-176 | a worklist whose every cell was tried satisfies the flood-fill property |
| GameStructures.Game.ChainStep | code/GameStructures.py:169-175 | trying one worklist cell keeps the worklist a prefix-extension with no repeats and keeps the flood-fill invariant |
| GameStructures.Game.TryCell | code/GameStructures.py:169-170 | tries one worklist cell with a single reveal |
| GameStructures.Game.ShownStep | code/GameStructures.py:169 | one more reveal extends what the chain has shown as the flood fill requires |
| GameStructures.Game.SettledStep | code/GameStructures.py:132-144 | one more single reveal, which loses on a mine and otherwise wins exactly when the counter reaches the safe cells, keeps the chain settled: still on while nothing showed, else won exactly at the safe-cell count |
| GameStructures.Game.ChainGrown | code/GameStructures.py:171-175 | queueing a zero-count cell's covered neighbours closes that cell and leaves the shown cells unchanged |
| GameStructures.Game.ClosedGrows | code/GameStructures.py:171-175 | closure survives more cells showing |
| GameStructures.Game.ClosedSkips | code/GameStructures.py:171 | a tried cell with a non-zero count needs nothing queued |
| GameStructures.Game.MineNeighboursZero | code/GameStructures.py:171 | a count of zero means no neighbour is a mine, and conversely |
| GameStructures.Game.EnqueueNeighbours | code/GameStructures.py:172-175 | appends, in neighbourhood order, exactly the covered neighbours not already queued |
| GameStructures.Game.UndoReveal | code/GameStructures.py:178-181 | with no move, nothing changes; otherwise pops the last move and covers exactly its cells; a loss stands only while a mine shows, a win is undone when the move showed a cell |
| GameStructures.Game.UnrevealAll | code/GameStructures.py:180-181 | covers exactly the cells of the move, with the outcome rule of single unreveals |
| GameStructures.Game.Flag | code/GameStructures.py:183-187 | flags exactly when a flag is left and the cell is covered and unflagged, using one flag; nothing else changes |
| GameStructures.Game.Unflag | code/GameStructures.py:189-192 | removes the flag and returns it to the unused flags when the cell was flagged; nothing else changes |
| Grid.SurroundingFacts | code/GameStructures.py:86-88 | the neighbourhood list holds exactly the on-grid cells adjacent to the cell, never the cell itself, each once, at most 8 |
| Grid.SurroundingSymmetric | code/GameStructures.py:86-88 | two cells are neighbours of each other symmetrically |
| Grid.MinesAroundOne | code/GameStructures.py:46-50 | with one mine, a cell's count is 1 exactly when the mine is adjacent to it |
| ChainAsWritten.RevealOne | code/GameStructures.py:131-145 | as a value: shows a covered cell while the game is on; a mine loses, the last safe cell wins |
| ChainAsWritten.AppendFresh | code/GameStructures.py:172-175 | appends exactly the neighbours that are neither shown nor pending, and marks them pending |
| ChainAsWritten.StepOver | code/GameStructures.py:169-175 | a turn on a finished game shows nothing and, on a zero-count cell, queues its fresh neighbours |
| ChainAsWritten.StartStep | code/GameStructures.py:166-175 | on the lost 1x4 row, trying (0, 0) first queues (0, 1) and shows nothing |
| ChainAsWritten.StepAt01 | code/GameStructures.py:169-175 | trying (0, 1) queues (0, 0) again, because the loop has removed it from the pending set |
| ChainAsWritten.CyclingStep | code/GameStructures.py:168-175 | every turn from a point of the cycle leaves the lost board as it was and lands on the next point |
| ChainAsWritten.CycleNeverEnds | code/GameStructures.py:168-175 | from a point of the cycle the loop never runs out of cells, however many turns it is given |
| ChainAsWritten.ChainRevealLoopsWhenLost | code/GameStructures.py:165-176 | on a lost 1x4 row, a chain reveal from (0, 0) as written never ends |
| ChainAsWritten.CornerQueuedTwice | code/GameStructures.py:170-175 | after two turns the worklist holds (0, 0) twice, which the corrected walk rules out |
| Islands.AmongFacts | code/Bot.py:164-166 | filtering the neighbours keeps exactly those in the other set, without repeats |
| Islands.CollectNeighbours | code/Bot.py:164-166 | collects exactly a cell's neighbours in the other set, in neighbourhood order |
| Islands.NeighbourTables | code/Bot.py:160-171 | each number cell gets exactly its border neighbours and each border cell exactly its number neighbours, in neighbourhood order |
| Islands.FillTable | code/Bot.py:162-171 | each key gets exactly its neighbours among the other table's keys |
| Islands.TablesAgree | code/Bot.py:160-171 | the two tables are mutual: n lists b exactly when b lists n; no list repeats; every listed cell has an entry |
| Islands.ManhattanMetric | code/Bot.py:176-177 | the distance is symmetric, zero exactly on equal cells, and satisfies the triangle inequality; adjacent cells are 1 or 2 apart |
| Islands.LeastSame | code/Bot.py:201 | lists with the same cells have the same least cell |
| Islands.WithoutFacts | code/Bot.py:196 | list.remove drops exactly the removed cell from a list without repeats |
| Islands.AddLinked | code/Bot.py:192-197 | moves from the pool into the island exactly the listed cells still pooled |
| Islands.AddLinks | code/Bot.py:191-197 | moves into the island exactly the pooled cells sharing a number cell with the given member |
| Islands.Grow | code/Bot.py:187-197 | the grown island starts with the seed, holds every pooled cell linked to it, transitively, and is connected: its cells in growth order each share a number cell with an earlier one; each cell leaves the pool exactly once |
| Islands.GrownMore | code/Bot.py:190-197 | growing keeps what the first members linked and adds the next member's links |
| Islands.GroupClosed | code/Bot.py:190-197 | a grown island is closed under sharing a number cell |
| Islands.TakeIsland | code/Bot.py:184-203 | takes the last pooled cell, grows its island and orders it by distance from its least cell; the island holds that cell and is connected; the pool loses exactly the island |
| Islands.IslandOrdered | code/Bot.py:200-203 | ordering an island by distance keeps its cells, its closure and its connectivity |
| Islands.IslandAdded | code/Bot.py:183-203 | a new island keeps the islands found so far separate, closed, connected and covering the cells taken from the pool |
| Islands.SeparateAppend | code/Bot.py:203 | a new island disjoint from earlier ones keeps the list separate |
| Islands.BuildIslands | code/Bot.py:179-206 | the islands cover exactly the border cells, are pairwise disjoint, each closed under shared number cells and connected (one piece, not several), each ordered by distance from its least cell, and sorted by size |
| Islands.IslandsSorted | code/Bot.py:205 | sorting the islands by size keeps the same islands |
| Islands.CoverSame | code/Bot.py:205 | lists with the same islands cover the same cells |
| Islands.ChainGrows | code/Bot.py:190-197 | cells appended to the group, each sharing a number cell with member i, keep every cell after the first linked to an earlier one |
| Islands.SharesSymmetric | code/Bot.py:160-171 | over mutual tables, a cell shares a number cell with another exactly when the other shares one with it |
| Islands.ChainInto | code/Bot.py:190-197 | a closed island that holds the first cell of a chain of shared number cells holds the whole chain |
| Islands.RootInto | code/Bot.py:190-197 | a closed island that holds any cell of such a chain holds its first cell |
| Islands.ConnectedWithin | code/Bot.py:183-203 | a closed island that meets a connected one contains all its cells |
| Islands.SameComponent | code/Bot.py:183-203 | two closed connected islands that share a cell have the same cells |
| Islands.IslandsMatch | code/Bot.py:179-206 | two lists of closed connected islands covering the same cells have the same islands: each island of one has exactly the cells of an island of the other |
| Sorting.SortedByFacts | code/Bot.py:202 | the sort is ordered by key and is a permutation of its input |
| Sorting.SortedByStable | code/Bot.py:202 | equal keys keep their input order, as Python's sort does |
| Sorting.SortedByMembers | code/Bot.py:205 | the sort has the input's members and no repeats when the input has none |
| Sorting.InsertPermutes | code/Bot.py:202 | insertion adds exactly the one element to the multiset of elements |
| Sorting.InsertOrdered | code/Bot.py:202 | insertion into a sequence ordered by key keeps it ordered |
| Sorting.InsertWithKey | code/Bot.py:202 | an inserted element goes after every element with its key |
| Sorting.InsertFront | code/Bot.py:202 | an element keyed below an ordered sequence's first goes in front, after no element with its key |
| Sorting.InsertPast | code/Bot.py:202 | an element keyed at or above the first goes after it, so its place among equal keys is that in the rest |
| Enumeration.VisitCounts | code/Bot.py:249-252 | a visit takes one open cell from each number cell per listing, and a mine too for MINE |
| Enumeration.UnvisitCounts | code/Bot.py:267-270 | taking a status back gives each number cell one open cell per listing, and a mine too for MINE |
| Enumeration.VisitUndone | code/Bot.py:247-271 | taking the status back restores both constraint maps exactly |
| Enumeration.PassesStep | code/Bot.py:245-263 | an arrangement passes from a prefix exactly when it passes from the prefix extended by MINE or NOT_MINE, under that status's checks |
| Enumeration.SolveExactly | code/Bot.py:216-271 | soundness and completeness: the search records exactly the complete MINE/NOT_MINE extensions of the prefix that pass every check |
| Enumeration.ExtendsPrefix | code/Bot.py:241-244 | every recorded arrangement extends the prefix and covers the island |
| Enumeration.BranchShape | code/Bot.py:245-247 | an arrangement under a status extends the prefix by that status |
| Enumeration.BranchesOrdered | code/Bot.py:245-247 | arrangements under MINE come before those under NOT_MINE |
| Enumeration.SolveOrdered | code/Bot.py:241-271 | arrangements come in lexicographic order, MINE before NOT_MINE, so none twice |
| Enumeration.AdmitsBudget | code/Bot.py:256-259 | an admitted arrangement never uses more mines than remain |
| Enumeration.SolutionsWithinBudget | code/Bot.py:256-259 | every recorded arrangement of an island places at most the remaining mines |
| Arrangements.ReplayStep | code/Bot.py:249-252 | replaying one more cell takes its touches off the counts |
| Arrangements.ReplayUnknowns | code/Bot.py:249-252 | the replayed open-cell counts fall from the start by the touches so far |
| Arrangements.ReplayMines | code/Bot.py:249-252 | the replayed mines-to-place counts fall from the start by the mine touches so far |
| Arrangements.VisitOk | code/Bot.py:249-255 | with each number cell listed once, a visit passes exactly when every visited number cell stays within bounds |
| Arrangements.AdmitsSteps | code/Bot.py:245-260 | the search's checks from cell k on pass exactly when every later step passes and stays within the remaining mines |
| Arrangements.StepSatisfiable | code/Bot.py:253-255 | a step passes exactly when each of its number cells can still be satisfied |
| Arrangements.StepBounds | code/Bot.py:253-255 | a step's checks in terms of touches |
| Arrangements.BalancedFromSteps | code/Bot.py:253-255 | if every step passes, every touched number cell ends within bounds |
| Arrangements.StepsFromBalanced | code/Bot.py:253-255 | if every touched number cell ends within bounds, every step passes, since counts only fall |
| Arrangements.RecordedIsBalanced | code/Bot.py:241-271 | a recorded arrangement is complete, MINE/NOT_MINE, balanced and within the remaining mines |
| Arrangements.BalancedIsAdmitted | code/Bot.py:241-271 | a complete, balanced MINE/NOT_MINE arrangement within the remaining mines passes every check |
| Arrangements.RecordedExactly | code/Bot.py:216-271 | an arrangement is recorded exactly when it is complete, MINE/NOT_MINE, leaves every touched number cell with 0 <= mines to place <= open cells, and places at most the remaining mines |
| Arrangements.MinesPlacedExactly | code/Bot.py:209-271 | when a number cell's open-cell count is exactly the island cells around it, every recorded arrangement puts exactly its remaining mines around it |
| Search.SolutionSearch.constructor | code/Bot.py:209-214 | starts from the given constraint maps, no statuses and no arrangements |
| Search.SolutionSearch.GiveOne | code/Bot.py:250-255 | counts one number cell down and reports whether it can still be satisfied |
| Search.SolutionSearch.Decrement | code/Bot.py:249-255 | the new constraints and the go-deeper flag are exactly the visit of the cell's number cells |
| Search.SolutionSearch.RestoreOne | code/Bot.py:268-270 | counts one number cell back up |
| Search.SolutionSearch.Increment | code/Bot.py:267-270 | the new constraints are exactly the unvisit of the cell's number cells |
| Search.SolutionSearch.Search | code/Bot.py:241-271 | appends exactly the arrangements the enumeration records and leaves the constraints and the statuses as they were |
| Search.SolutionSearch.Try | code/Bot.py:245-271 | appends exactly the arrangements under that status and restores the constraints and the statuses |
| Search.SolutionSearch.SolveIslands | code/Bot.py:273-278 | each island gets exactly the arrangements the enumeration records from scratch; the constraints end as they started |
| BorderProbability.FactorRange | code/Bot.py:291-297 | a cell's factor is a chance in [0, 1] while mines left are between none and the covered cells; a clear cell's factor is zero exactly when every covered cell is a mine |
| BorderProbability.FactorsStep | code/Bot.py:291-298 | the first factor is the first cell's; the rest are the others' with one cell fewer covered |
| BorderProbability.LikelihoodCons | code/Bot.py:291-298 | the likelihood is the first cell's factor times the rest's likelihood |
| BorderProbability.Weigh | code/Bot.py:292-298 | multiplies in the cell's factor and uses up a mine for MINE |
| BorderProbability.FactorsAt | code/Bot.py:291-298 | one turn of the loop: the running product times the cell's factor is the product one cell further, and the factors left are the rest's with one cell fewer covered |
| BorderProbability.WeighAt | code/Bot.py:291-298 | one turn of the loop keeps the running likelihood the product of the factors so far and the factors left those of the remaining cells |
| BorderProbability.SolutionLikelihood | code/Bot.py:286-298 | the loop computes the arrangement's likelihood: the product of its cells' factors |
| BorderProbability.LikelihoodRange | code/Bot.py:286-298 | a likelihood is in [0, 1] when the mines left are at least the arrangement's mines and at most the covered cells |
| BorderProbability.IslandLikelihoods | code/Bot.py:286-298 | gives every arrangement of every island its likelihood |
| BorderProbability.WeightSplit | code/Bot.py:302-306 | clear weight and mine weight add up to the total |
| BorderProbability.TotalZero | code/Bot.py:302 | a sum of non-negative likelihoods is non-negative, and zero exactly when each is zero |
| BorderProbability.ClearWeightZero | code/Bot.py:304-305 | the clear weight is zero exactly when every arrangement leaving the cell clear has likelihood zero |
| BorderProbability.MineWeightZero | code/Bot.py:304-306 | the mine weight is zero exactly when every arrangement mining the cell has likelihood zero |
| BorderProbability.CellProbabilityRange | code/Bot.py:302-306 | a cell's probability is NaN exactly when all likelihoods are zero, otherwise in [0, 1] |
| BorderProbability.CertainlyClear | code/Bot.py:302-306 | probability 1 exactly when some arrangement is possible and no possible arrangement mines the cell |
| BorderProbability.CertainlyMine | code/Bot.py:302-306 | probability 0 exactly when some arrangement is possible and no possible arrangement leaves the cell clear |
| BorderProbability.BorderEntriesFacts | code/Bot.py:300-307 | the entries list the island cells in island order, each with its island's probability |
| BorderProbability.BorderEntriesRange | code/Bot.py:300-307 | with non-negative likelihoods, every number in the entries is a probability |
| BorderProbability.BorderProbabilities | code/Bot.py:280-307 | raises exactly when some island has a cell and no island has an arrangement (the integer 0/0); otherwise the loops fill exactly the border entries |
| NonborderProbability.MineAmountsFacts | code/Bot.py:311 | the mine amounts are exactly the amounts some arrangement has, each once |
| NonborderProbability.CountPositive | code/Bot.py:312-313 | some arrangement has a mine amount exactly when its count is positive |
| NonborderProbability.ChanceRange | code/Bot.py:312-314 | an achieved amount's chance is positive and at most 1 |
| NonborderProbability.CombinationsMembers | code/Bot.py:317 | the combinations are exactly the ways to pick one amount from each island's list |
| NonborderProbability.CombinationsAchievable | code/Bot.py:311-317 | the combinations are exactly the achievable ones |
| NonborderProbability.CombinationsListed | code/Bot.py:312-321 | every combination has a chance for each of its amounts, positive and at most 1 |
| NonborderProbability.CombinationsWeighted | code/Bot.py:319-321 | every combination carries a positive weight |
| NonborderProbability.CombProbability | code/Bot.py:319-321 | the loop computes the product of the combination's chances |
| NonborderProbability.ProductUnit | code/Bot.py:319-321 | a product of chances in (0, 1] is in (0, 1] |
| NonborderProbability.NormaliserZero | code/Bot.py:315-324 | the normaliser is non-negative, and zero exactly when no combination fits |
| NonborderProbability.BorderMinesBounds | code/Bot.py:318-323 | the weighted mine amount lies between (remaining - nonborder cells) and remaining, times the normaliser |
| NonborderProbability.Spread | code/Bot.py:326 | such an average leaves each nonborder cell a chance in [0, 1] |
| NonborderProbability.NonborderRaised | code/Bot.py:317-324 | the bot raises exactly when no achievable combination leaves a number of mines the cells off the border can hold |
| NonborderProbability.NonborderRange | code/Bot.py:318-326 | a computed nonborder chance is in [0, 1] |
| NonborderProbability.Tally | code/Bot.py:318-323 | a fitting combination adds its weight and its weighted amount; others add nothing |
| NonborderProbability.SumCombinations | code/Bot.py:317-323 | the loop computes the normaliser and the weighted mine amount over all combinations |
| NonborderProbability.ChanceFromSums | code/Bot.py:317-326 | the chance is one minus the share of the nonborder cells left to the mines after the weighted average |
| NonborderProbability.Reservoir | code/Bot.py:309-327 | the result is exactly the nonborder chance, Raised when the normaliser is zero |
| MinesweeperBot.SolutionsFit | code/Bot.py:273-278 | every recorded arrangement gives each island cell a status and places at most the remaining mines |
| MinesweeperBot.SearchIslands | code/Bot.py:273-278 | each island's arrangements are exactly the enumeration's, all complete and within the remaining mines |
| MinesweeperBot.LikelihoodsInRange | code/Bot.py:286-298 | no likelihood is negative when the mines are within the covered cells |
| MinesweeperBot.AddNonborder | code/Bot.py:309-329 | with no nonborder cells, the border entries as they are; otherwise raises exactly when the nonborder chance does, else appends every nonborder cell, in order, with that chance |
| MinesweeperBot.JoinFacts | code/Bot.py:328-329 | appending nonborder entries keeps cells distinct, adds exactly those cells, each with the one chance |
| MinesweeperBot.FlattenCover | code/Bot.py:300-307 | the cells of separate islands, island by island, are the covered border cells, each once |
| MinesweeperBot.BorderOutcome | code/Bot.py:280-307 | the border entries name each border cell once, and raise exactly when there is a border cell and no island has an arrangement |
| MinesweeperBot.Collect | code/Bot.py:133-137 | appends in table order exactly the cells of the given chance not yet queued, keeping the queue as a prefix |
| MinesweeperBot.ChampionFacts | code/Bot.py:139 | max with a key picks the first entry of greatest chance; a NaN in first place is never replaced |
| MinesweeperBot.Matching | code/Bot.py:140 | the cells whose chance equals the best; none for NaN |
| MinesweeperBot.GuessFacts | code/Bot.py:139-143 | the candidates are none when the first chance is NaN, else exactly the cells of greatest chance |
| MinesweeperBot.QueuedFromTable | code/Bot.py:131-144 | from empty queues, complex deduction queues at least one cell, and only table cells |
| MinesweeperBot.Bot.constructor | code/Bot.py:24-28 | both queues empty, the bot bound to the board |
| MinesweeperBot.Bot.FlagsAreMines | code/Bot.py:106-110 | while no mine shows, every covered neighbour of a clue with as many covered neighbours as mines is a mine |
| MinesweeperBot.Bot.RevealsAreSafe | code/Bot.py:111-115 | when every flag is on a mine, no open neighbour of a clue with as many flagged neighbours as mines is a mine |
| MinesweeperBot.Bot.CountCovered | code/Bot.py:98-104 | counts exactly the covered neighbours and, among them, the flagged ones |
| MinesweeperBot.Bot.QueueAround | code/Bot.py:107-115 | the queue grows by exactly the open neighbours not yet queued |
| MinesweeperBot.Bot.DeduceAt | code/Bot.py:96-115 | the flag queue gains exactly the open neighbours when covered equals the count; otherwise the reveal queue gains them when flagged equals the count |
| MinesweeperBot.Bot.DeduceStep | code/Bot.py:94-115 | scanning past one cell adds exactly the cells it vouches for |
| MinesweeperBot.Bot.DeduceRow | code/Bot.py:94-115 | after row r, the queues hold exactly the earlier entries plus the cells deducible from rows 0..r |
| MinesweeperBot.Bot.BasicDeduction | code/Bot.py:87-115 | queues only grow; the flag queue gains exactly the open neighbours of the flag-around clues, and the reveal queue those of the reveal-around clues |
| MinesweeperBot.Bot.CoveredCells | code/Bot.py:69-80 | exactly the covered cells, without flagged ones when asked |
| MinesweeperBot.Bot.RandomDecision | code/Bot.py:59-85 | raises exactly when there is no covered cell; otherwise appends one covered cell, unflagged when one exists |
| MinesweeperBot.Bot.FlagsAmong | code/Bot.py:210-211 | counts exactly the covered flagged cells among the list |
| MinesweeperBot.Bot.UnflaggedMinesTabled | code/Bot.py:172-173 | while no mine shows, every mine without a flag is an unflagged border cell or a nonborder cell, and no cell is both |
| MinesweeperBot.Bot.FlagsWithin | code/Bot.py:172-173 | while no mine shows, the unused flags are no more than the unflagged border cells plus the nonborder cells |
| MinesweeperBot.Bot.MineConstraints | code/Bot.py:209-212 | one entry per number cell, and at each shown cell exactly the mines around it on the board less its covered flagged neighbours (MinesLeft) |
| MinesweeperBot.Bot.MinesToPlace | code/Bot.py:209-211 | at a shown cell, the count the board shows less the covered flagged neighbours is the mines around it less those flags (MinesLeft) |
| MinesweeperBot.Bot.BorderTable | code/Bot.py:156-307 | steps 1 to 4: the neighbour tables are exactly each number cell's border neighbours and each border cell's number neighbours, in the order the grid lists neighbours; the islands cover exactly the border cells, are separate, each closed under sharing a number cell and one connected piece (so they are the pieces the number cells link the border cells into, fixed up to order as ProbabilityTable.IslandsUnique proves), ordered by distance from its least cell, and ordered by size; the constraints are the mines left around each number cell (MinesOn) and its border-neighbour count; each island's arrangements are exactly those the search (Enumeration.Solve) records with the unused flags as the mines left, and each is weighed by its likelihood given u covered cells (Weighs); raises exactly when there are border cells and no island has an arrangement; otherwise the entries are the border entries of that work (BorderEntries), each border cell once, in [0, 1] when the flags left are within the covered cells |
| MinesweeperBot.Bot.IslandSearch | code/Bot.py:156-298 | steps 1 to 3: the neighbour tables are exactly each number cell's border neighbours and each border cell's number neighbours, in the order the grid lists neighbours; the islands cover exactly the border cells, are separate, each closed under sharing a number cell and one connected piece (so they are the pieces the number cells link the border cells into, fixed up to order as ProbabilityTable.IslandsUnique proves), ordered by distance from its least cell, and ordered by size; the constraints are the mines left around each number cell (MinesOn) and its border-neighbour count; each island's arrangements are exactly those the search (Enumeration.Solve) records with the unused flags as the mines left, and each is weighed by its likelihood given u covered cells (Weighs); every arrangement gives each island cell a status and places at most the flags left |
| MinesweeperBot.Bot.IslandsOf | code/Bot.py:156-214 | steps 1 and 2: the neighbour tables are exactly each number cell's border neighbours and each border cell's number neighbours, in the order the grid lists neighbours; the islands cover exactly the border cells, are separate, each closed under sharing a number cell and one connected piece (so they are the pieces the number cells link the border cells into, fixed up to order as ProbabilityTable.IslandsUnique proves), ordered by distance from its least cell, and ordered by size; the constraints are the mines left around each number cell (MinesOn) and its border-neighbour count; every island cell has a neighbour list, and the constraints cover every number cell next to one |
| MinesweeperBot.Bot.TableFacts | code/Bot.py:300-329 | border entries plus nonborder entries: each covered table cell once, probabilities in [0, 1], and the nonborder cells share one chance |
| MinesweeperBot.Bot.TableFrom | code/Bot.py:156-329 | the table is one those cells give (ProbabilityTable.BoardTables, whose islands are the board's connected pieces, fixed up to order): the table (TableOf) of some work of steps 1 to 3 on the given number, border and nonborder cells, its covered count, mines left and unused flags, which raises when some island cell exists and no island has an arrangement or the nonborder chance divides by zero, and is otherwise the border entries island by island followed by every nonborder cell with the nonborder chance; also: each table cell once, exactly the unflagged border cells and the nonborder cells, values in [0, 1] unless lost, one shared nonborder chance |
| MinesweeperBot.Bot.ConstructProbabilityTables | code/Bot.py:146-331 | the table is one the board gives (ProbabilityTable.BoardTables, whose islands are the board's connected pieces, fixed up to order): the table (TableOf) of some work of steps 1 to 3 on the board's number, border and nonborder cells, its covered count, mines left and unused flags, which raises when some island cell exists and no island has an arrangement or the nonborder chance divides by zero, and is otherwise the border entries island by island followed by every nonborder cell with the nonborder chance; raises exactly when some unflagged border cell exists and no island has an arrangement, or a nonborder cell exists and the nonborder chance divides by zero; otherwise each table cell once, exactly the unflagged border cells and the nonborder cells, values in [0, 1] unless lost, one shared nonborder chance |
| MinesweeperBot.Bot.InputsOf | code/Bot.py:157-173 | the scans' lists, each cell once, give exactly the board's number, border and nonborder cells, their count and the mines left around each number cell |
| ProbabilityTable.BoardWitness | code/Bot.py:156-329 | work of steps 1 to 3 on a board's cells (islands separate, closed, connected and ordered) that gives the table, with the nonborder cells each once, makes it a table that board gives |
| ProbabilityTable.BoardTablesAre | code/Bot.py:146-331 | a table is among those the board gives exactly when some work of steps 1 to 3 on the board's cells gives it, its islands being the connected pieces the number cells link the border cells into |
| ProbabilityTable.IslandsUnique | code/Bot.py:156-206 | steps 1 and 2 leave only order open: any two results on the same cells have the same neighbour tables and constraints, and each island of one has exactly the cells of an island of the other |
| ProbabilityTable.TableFixed | code/Bot.py:160-171 | a neighbour table is fixed by its keys and the cells its lists keep |
| MinesweeperBot.Bot.ComplexDeduction | code/Bot.py:117-144 | the table it works from is one the board gives (ProbabilityTable.BoardTables, whose islands are the board's connected pieces, fixed up to order); raises whenever that table raises, with certain_only too; otherwise the table holds exactly the unflagged border and the nonborder cells and the queues change as QueueFromTable states |
| MinesweeperBot.Bot.TableOfBoard | code/Bot.py:131 | the probability table computed is one the board gives (ProbabilityTable.BoardTables, whose islands are the board's connected pieces, fixed up to order) and, unless it raises, holds exactly the unflagged border cells and the nonborder cells |
| MinesweeperBot.Bot.QueueFromTable | code/Bot.py:132-144 | certain table: appends, in table order, exactly the chance-1 cells not yet queued to reveal and the chance-0 cells not yet queued to flag; otherwise, with certain_only, queues nothing, and without it raises exactly on an empty table or a NaN first chance, else appends one cell of greatest chance to the reveal queue |
| MinesweeperBot.Bot.QueueCertain | code/Bot.py:131-137 | the queues become exactly their old contents followed, in table order, by the chance-1 cells to reveal and the chance-0 cells to flag not yet queued |
| MinesweeperBot.Bot.QueueGuess | code/Bot.py:138-143 | raises, queuing nothing, exactly on an empty table or a NaN first chance; otherwise appends one cell of greatest chance to the reveal queue |
| MinesweeperBot.Bot.Refill | code/Bot.py:44-49 | from empty queues: when the basic deduction finds some cell, the queues hold exactly the cells it deduces, each once; otherwise the table is one the board gives (ProbabilityTable.BoardTables, whose islands are the board's connected pieces, fixed up to order) and the queues are exactly the complex deduction's from it, or it raises with them still empty; unless it raises a cell is queued, so random_decision never runs |
| MinesweeperBot.Bot.BasicRefill | code/Bot.py:44-45 | found exactly when it queues a cell, and then the queues hold exactly the deducible cells, each once; otherwise nothing is deducible |
| MinesweeperBot.Bot.ComplexRefill | code/Bot.py:46-47 | with nothing deducible, the table is one the board gives (ProbabilityTable.BoardTables, whose islands are the board's connected pieces, fixed up to order) and the queues are exactly the complex deduction's from it; it raises with them empty or queues some table cell |
| MinesweeperBot.Bot.BasicRefilled | code/Bot.py:44-45 | queues holding exactly the deducible cells, some, each once, are the refill |
| MinesweeperBot.Bot.ComplexRefilled | code/Bot.py:46-47 | with nothing deducible, the complex deduction's queues from a table the board gives are the refill: empty when it raised, otherwise some table cell is queued |
| MinesweeperBot.RefilledIs | code/Bot.py:44-49 | a refill's result is exactly what RefillOf describes: the basic deduction's cells each once when it finds some, else the complex deduction's queues from a table the board gives |
| MinesweeperBot.Bot.NothingFound | code/Bot.py:44-46 | nothing is deducible exactly when the basic deduction's two cell sets are empty |
| MinesweeperBot.Bot.Unshown | code/Bot.py:40-41 | keeps exactly the queued cells not yet revealed |
| MinesweeperBot.Bot.DropShown | code/Bot.py:40-41 | both queues become their unshown filters, which hold no shown cell |
| MinesweeperBot.Bot.Choose | code/Bot.py:39-56 | the unshown queues are kept as they are when some cell is left; otherwise the queues become exactly the refill from the board as it was (see Refill: the basic deduction's cells or, with nothing deducible, the complex deduction's from a table that board gives); unless it raises, names the last cell queued to reveal, else to flag, covered and on the grid: after a refill a deduced cell or, when nothing is deducible, a table cell |
| MinesweeperBot.Bot.PickKept | code/Bot.py:52-56 | names the last cell queued to reveal, else the last queued to flag, which is covered |
| MinesweeperBot.Bot.RefillPick | code/Bot.py:44-56 | refills the empty queues as Refill does, from a table the board gives (its islands the connected pieces, fixed up to order) when nothing is deducible, then names the last cell queued to reveal, else to flag |
| MinesweeperBot.Bot.Act | code/Bot.py:52-57 | pops the last reveal cell and chain-reveals it, or else pops the last flag cell and flags it |
| MinesweeperBot.Bot.Pop | code/Bot.py:52-57 | takes the last cell off the reveal queue, or else off the flag queue |
| MinesweeperBot.Bot.TakeAction | code/Bot.py:30-57 | nothing changes once the game is over; otherwise the queues it acts from are the unshown ones when some cell is left, else exactly the refill from the board as it was (see Choose), whose table is one that board gives; raises only when the refill does, with both queues empty and nothing done; otherwise pops the last of those cells to reveal, else to flag, which was covered, and chain-reveals or flags it: a queued cell, or else a deduced cell, or else (nothing deducible) a table cell |

## Left out

- Floating point: probabilities are exact reals, so rounding and `digit_rounding` are not modelled. NaN is `Undefined`, which compares unequal to everything, as in Python.
- `random.sample` in the board's constructor is a parameter (the sample). `random.choice` in the bot is a nondeterministic choice among the same candidates.
- Printing, `main.py`'s pygame interface and numpy arrays are not modelled. `main.py` is not part of this model beyond the fact that a left click calls `chain_reveal` whatever the outcome.
- Python set iteration order, used where the bot walks sets, is replaced by row-major or first-discovery order. The mine-amount sets are listed in order of first appearance. No contract depends on that order beyond what is stated.
- The getters (`get_rows`, `get_columns`, `get_game_outcome`, `is_revealed`, `is_flagged` and the rest) are the fields themselves.
- MinesweeperBot.Bot.TakeAction: does not call `random_decision`. After the basic deduction finds nothing, the complex deduction either queues a cell or raises (MinesweeperBot.QueuedFromTable), so the third branch of `take_action` never runs. `random_decision` is modelled on its own as MinesweeperBot.Bot.RandomDecision.
- MinesweeperBot.Bot.TakeAction: the cell acted on, the queues it is taken from and the table a refill computes are ghost out-parameters.
- MinesweeperBot.Bot.Refill: after the basic deduction, states which cells each queue holds, each once, not their order, which is that of the row-major scan.
- MinesweeperBot.Bot.Unshown: states which cells are kept, not that the filter keeps their order; the body is the order-preserving filter.
- MinesweeperBot.Bot.ConstructProbabilityTables: states that the table is one of the tables the board gives (ProbabilityTable.BoardTables), not which one. The neighbour tables, the constraints and the cells of every island are fixed by the board (ProbabilityTable.IslandsUnique). What stays open is order: among islands of one size, among cells at one distance within an island, and among the nonborder cells, the order comes from Python's iteration over sets. The model leaves that order open, so the order of the table's entries, and with it which of several equally likely cells a guess takes first, is not pinned down.
- GameStructures.Game.ChainReveal: models the corrected walk (see Findings). The walk as written is ChainAsWritten.

## Findings

| source | as written | input that shows it | evidently intended | confidence | as-written member | corrected member |
|---|---|---|---|---|---|---|
| code/GameStructures.py:165-176 | line 170 takes each tried cell out of the pending set, so after a loss a tried but still covered cell is queued again and the walk never ends | a lost 1x4 row with the mine at (0, 3) showing, then chain_reveal(0, 0), which a left click triggers after a loss | keep tried cells in the pending set so each cell is queued at most once and the walk ends | not executed | ChainAsWritten.ChainRevealLoopsWhenLost | GameStructures.Game.ChainReveal |
