# Advent of Code 2022, days 1 to 10 and 12, in Dafny

This project models the puzzle solutions of days 1 to 10 and 12 of the Rust-AoC22
repository. Each day is a separate program. The model keeps each program's own form:
- Pure Rust functions are Dafny functions.
- Loops are methods with invariants.
- Structs whose methods update their fields are classes.

Each operation is proved against a specification function or a property. What is modelled,
day by day:

- **Day 1** (`CalorieCounting`): splits the text at every newline, sums each elf's
  calories and keeps a top three that stays descending.
- **Day 2** (`RockPaperScissors`): the game tables. The required move is proved to give the
  required outcome, and to be the only move that does.
- **Day 3** (`Rucksacks`):
  - item priorities;
  - the two compartments;
  - the items both compartments share;
  - groups of three, and a badge common to a whole group.
- **Day 4** (`CampCleanup`): parsing `a-b,c-d`; containment and overlap of section ranges,
  checked against the sets of sections the ranges assign.
- **Day 5** (`SupplyStacks`): splitting the input at its first blank line, and reading the
  crate drawing into stacks.
- **Day 6** (`TuningTrouble`): the sliding-window search for the first run of distinct
  characters.
- **Day 7**, the file-system tree rebuilt from a terminal session:
  - `Directories`: the directory record and the invariants of its arena;
  - `SessionParser`: the `Parser` class, whose methods consume the session's lines, grow
    the arena and move the cursor;
  - `SpaceReport`: the answers `main` derives from the tree.
- **Day 8** (`Treetop`): visibility scans and line-of-sight scores over a grid of tree
  heights. An index out of range, where the source panics, is `None`.
- **Day 9** (`Rope`): one step of the rope's tail.
- **Day 10** (`CathodeRay`): the `Processor` class. Its cycle counter, register and 6×40
  screen are driven by `noop` and `addx`. Also the command parser.
- **Day 12**, the hill-climbing search:
  - `HeightMaps`: the `HeightMap` class flattens the grid into an arena of nodes and links
    neighbouring cells by the climbing rule;
  - `Pathfinding`: the `Pathfinder` class runs A* over that graph. The path it returns is
    proved to be a shortest one when the grid is rectangular;
  - `HillClimbing`: the step count `main` prints.

  The `Pathfinder` in day_12/src/pathfinder.rs duplicates the live one in
  day_12/src/main.rs:48-115, and is never compiled. It is modelled once, citing main.rs.
- **`Text`** models the Rust string routines the programs rely on:
  - `str::lines`, `split` and `split_whitespace`;
  - integer parsing (`parse::<i32>` and the like) and formatting.

  **`Options`** holds the `Option` datatype.

The programs call `panic!` and `unwrap` in many places. In the model, a run that reaches a
panic ends in `None` (or `ok == false`), and the contracts say exactly when that happens.
Where the source loops for ever, or needs a state no call can reach, a `requires` stands in
for the panic instead. Those cases are listed under "Left out".

## Model

| member | source | states |
|---|---|---|
| CalorieCounting.ParseCaloriesRoundTrip | day_1/src/main.rs:39-45 | every `i32` written in decimal is parsed back to itself |
| CalorieCounting.ParseCalories | day_1/src/main.rs:39-45 | a parsed line is a number within the `i32` range and ends in a digit, so a blank line, or one that keeps the `\r` of a CRLF file, panics |
| CalorieCounting.Rank | day_1/src/main.rs:47-63 | three entries; the top three is returned unchanged exactly when the new sum exceeds none of its entries, and otherwise the new sum is one of the three; every entry is an old entry or the new sum |
| CalorieCounting.RankInTop3 | day_1/src/main.rs:47-63 | panics (`None`) exactly when the top three does not have three entries; otherwise three entries, as `Rank` places the new sum |
| CalorieCounting.RankStaysDescending | day_1/src/main.rs:51-61 | ranking into a descending top three keeps it descending |
| CalorieCounting.RankKeepsLargest | day_1/src/main.rs:52-61 | the result holds three of the four values, and drops the smaller of the new sum and the old third |
| CalorieCounting.RankInserts | day_1/src/main.rs:52-60 | a sum above the third pushes the third out: the new multiset plus the old third equals the old multiset plus the new sum |
| CalorieCounting.Inserted | day_1/src/main.rs:52-60 | an insertion at slot 0, 1 or 2 loses exactly the old third entry |
| CalorieCounting.Tallied | day_1/src/main.rs:14-22 | one line either closes a group and opens a new one at 0, or adds its count to the open group |
| CalorieCounting.Inventories | day_1/src/main.rs:11-23 | the running group sums always have an open group |
| CalorieCounting.InventoriesStep | day_1/src/main.rs:13-23 | one more line advances the group sums by one `Tallied` step |
| CalorieCounting.RankAll | day_1/src/main.rs:12-17 | ranking the closed groups in turn gives three entries |
| CalorieCounting.RankAllIsDescending | day_1/src/main.rs:12-17 | the top three after all groups is descending, and its first entry is the largest ranked sum |
| CalorieCounting.RankAllSnoc | day_1/src/main.rs:15-18 | closing one more group ranks it into the previous top three |
| CalorieCounting.TallyCalories | day_1/src/main.rs:10-23 | with the text split at every `\n`: panics exactly when a non-blank piece is not an `i32`; otherwise the group sums, with only the closed groups ranked (a final group without a trailing blank line is not ranked) |
| CalorieCounting.TrailingNewlineClosesGroup | day_1/src/main.rs:10-23 | a `\n` at the end of the text adds one empty piece, which closes the last group (opening a new one at 0), so the last group is ranked too |
| CalorieCounting.TallyLine | day_1/src/main.rs:14-22 | one turn of the loop keeps the top three equal to the ranking of the closed groups |
| RockPaperScissors.GetResult | day_2/src/main.rs:55-68 | a tie exactly for equal moves, a win exactly when the player's move beats the other by the game's rules, a loss exactly when it is beaten |
| RockPaperScissors.MoveValue | day_2/src/main.rs:41-46 | a move is worth 1, 2 or 3 |
| RockPaperScissors.OutcomeValue | day_2/src/main.rs:48-53 | an outcome is worth 0, 3 or 6: 0 exactly for a loss and 6 exactly for a win |
| RockPaperScissors.BeatsIsOneMore | day_2/src/main.rs:41-68 | a move beats another exactly when its value is one more, modulo 3; equal values mean equal moves |
| RockPaperScissors.GetRequiredMove | day_2/src/main.rs:92-104 | a tie exactly when the opponent's move is repeated, a win exactly when the move beats the opponent's, a loss exactly when the opponent's beats it |
| RockPaperScissors.GetScore | day_2/src/main.rs:70-72 | the score lies in 1..9 and is made of the move's value (1/2/3) and the outcome's value (0/3/6) |
| RockPaperScissors.GetMove | day_2/src/main.rs:74-81 | defined exactly for the letters A, B, C, X, Y and Z; any other letter panics |
| RockPaperScissors.GetRequiredOutcome | day_2/src/main.rs:83-90 | defined exactly for the letters X, Y and Z; any other letter panics |
| RockPaperScissors.GetMoveRoundTrip | day_2/src/main.rs:74-81 | both columns of the guide decode to the move they name |
| RockPaperScissors.GetRequiredOutcomeRoundTrip | day_2/src/main.rs:83-90 | X, Y and Z decode to lose, tie and win |
| RockPaperScissors.ResultAntisymmetric | day_2/src/main.rs:55-68 | swapping the players swaps a win and a loss, and keeps a tie |
| RockPaperScissors.RequiredMoveAchievesOutcome | day_2/src/main.rs:92-104 | the required move gives the required outcome against the opponent's move |
| RockPaperScissors.RequiredMoveIsUnique | day_2/src/main.rs:92-104 | any move is the required move for the outcome it gives, so only one move gives each outcome |
| RockPaperScissors.RequiredMovesDistinct | day_2/src/main.rs:92-104 | for one opponent move, different outcomes need different moves |
| Rucksacks.GetItemPriority | day_3/src/main.rs:85-95 | `a`..`z` score 1..26 and `A`..`Z` score 27..52, in letter order |
| Rucksacks.PriorityInjective | day_3/src/main.rs:85-95 | different letters have different priorities |
| Rucksacks.PriorityExamples | day_3/src/main.rs:128-133 | the unit test's four cases |
| Rucksacks.ParseRucksack | day_3/src/main.rs:54-63 | the two compartments joined give the line back; the first holds half the items, rounded down |
| Rucksacks.SeparateRucksacks | day_3/src/main.rs:65-73 | one rucksack per line, in order |
| Rucksacks.FindCommonItems | day_3/src/main.rs:75-83 | exactly the items in both compartments, each once, in the order of their first occurrence in the first compartment |
| Rucksacks.CommonStep | day_3/src/main.rs:77-81 | one turn of the loop appends an item exactly when it is common and not yet listed |
| Rucksacks.SeparateGroups | day_3/src/main.rs:97-109 | consecutive triples of lines; trailing lines that do not complete a triple are dropped |
| Rucksacks.FindGroupBadge | day_3/src/main.rs:111-121 | `None` for a group of at most one line; otherwise a character every line holds, and `None` only when no character is common to all lines |
| Rucksacks.OnlyCommonIsA | day_3/src/main.rs:161-170 | in the unit test's groups `a` is the only common character, so the badge the contract allows is `a` |
| CampCleanup.ParsePairs | day_4/src/main.rs:35-43 | defined exactly when every comma-separated piece parses into `-`-separated `i32`s, there are at least two pieces, and each of the first two holds at least two numbers; the ranges are the first two numbers of the first two pieces |
| CampCleanup.ParseAll | day_4/src/main.rs:38-40 | every part parses as an `i32`, in order, or the line panics |
| CampCleanup.ParsePieces | day_4/src/main.rs:36-41 | each piece parses to its numbers, in order |
| CampCleanup.ParsePairsRoundTrip | day_4/src/main.rs:35-43 | a line written as `a-b,c-d` from non-negative `i32`s is parsed back to its two ranges |
| CampCleanup.ContainmentSymmetric | day_4/src/main.rs:45-51 | containment does not depend on the order of the two ranges |
| CampCleanup.CheckContainment | day_4/src/main.rs:45-51 | for proper ranges, true exactly when one range's sections all lie in the other |
| CampCleanup.CoversByBounds | day_4/src/main.rs:45-51 | a proper range's sections all lie in another exactly when it starts no earlier and ends no later |
| CampCleanup.CheckOverlap | day_4/src/main.rs:53-63 | for proper ranges, true exactly when the two ranges share a section |
| CampCleanup.SharedByBounds | day_4/src/main.rs:53-63 | two proper ranges share a section exactly when each starts no later than the other ends |
| CampCleanup.ContainmentImpliesOverlap | day_4/src/main.rs:53-63 | containment implies overlap |
| CampCleanup.OverlapMeansCommonSection | day_4/src/main.rs:53-63 | for proper ranges, overlap holds exactly when each range starts no later than the other ends |
| CampCleanup.OverlapSymmetric | day_4/src/main.rs:53-63 | for proper ranges, overlap does not depend on the order of the two ranges |
| SupplyStacks.FindBlank | day_5/src/main.rs:14 | the position of the first `\n\n`, or the length when there is none |
| SupplyStacks.SeparateBoxInstructions | day_5/src/main.rs:13-16 | panics exactly when there is no blank line; otherwise the drawing is everything before the first blank line, the instructions run from there to the end of the text or to the next blank line, and neither part holds a blank line |
| SupplyStacks.SeparateAtFirstBlank | day_5/src/main.rs:13-16 | the split is at the first `\n\n`, and a third newline in a row stays with the instructions |
| SupplyStacks.SeparateDropsAfterSecondBlank | day_5/src/main.rs:13-16 | text after a second blank line is dropped, as the source keeps only the first two pieces of `split("\n\n")` |
| SupplyStacks.SeparateNeedsBlank | day_5/src/main.rs:13-16 | a text without a blank line panics |
| SupplyStacks.KeptPositions | day_5/src/main.rs:33-35 | the positions the loop keeps are exactly those at `4k + 1` |
| SupplyStacks.KeepFromCrateRow | day_5/src/main.rs:31-42 | on a crate row, the kept characters are those at positions `4k + 1`, in order |
| SupplyStacks.CrateLettersLength | day_5/src/main.rs:31-42 | one letter per four positions |
| SupplyStacks.CrateLettersAt | day_5/src/main.rs:31-42 | the `k`-th letter is the character at position `4k + 1` |
| SupplyStacks.KeepFromNumberRow | day_5/src/main.rs:37-40 | the row of stack numbers keeps nothing |
| SupplyStacks.ParseLine | day_5/src/main.rs:30-42 | the inner loop keeps the characters at positions `4k + 1` up to the first digit |
| SupplyStacks.ParsedLines | day_5/src/main.rs:44-49 | no kept line is empty |
| SupplyStacks.StackOf | day_5/src/main.rs:59-67 | a stack holds no space and at most one crate per line |
| SupplyStacks.ParseLines | day_5/src/main.rs:28-50 | the outer loop reduces each line and drops the empty results |
| SupplyStacks.PushLine | day_5/src/main.rs:61-66 | each non-space character goes in front of its column's stack, and a space leaves the stack alone |
| SupplyStacks.StacksGrow | day_5/src/main.rs:59-67 | pushing one more line gives the stacks of the lines up to it |
| SupplyStacks.ParseBoxes | day_5/src/main.rs:27-69 | panics exactly when no crate row is left or the rows differ in length; otherwise one stack per column, the last line's crate first |
| TuningTrouble.DistinctCount | day_6/src/main.rs:38-41 | the set of a buffer's characters is as large as the buffer exactly when no character repeats |
| TuningTrouble.CheckUnique | day_6/src/main.rs:38-41 | true exactly when the buffer has no repeated character |
| TuningTrouble.FindPacketStart | day_6/src/main.rs:19-36 | the first position whose preceding window is all distinct (the window ending at the last character is never checked), or 0 when there is none; a nonzero result is at least the window size |
| Directories.NewDirectory | day_7/src/directory.rs:16-25 | a directory with the given index, name and parent, size 0, and no children or files |
| Directories.Path | day_7/src/parser.rs:168-181 | the chain of parents from a directory starts at that directory and never climbs to a higher index |
| Directories.PathShape | day_7/src/parser.rs:168-181 | the chain follows parent links with strictly falling indices, and ends at the parentless directory 0 |
| Directories.PathStep | day_7/src/parser.rs:172-179 | a directory on the chain has a parent exactly when it is not the last, and that parent comes next |
| Directories.RootOnEveryPath | day_7/src/parser.rs:154-166 | directory 0 is on every chain, so climbing from the cursor reaches the root |
| Directories.ParentOnPath | day_7/src/parser.rs:172-179 | the parent of a directory on the chain is on the chain |
| Directories.OneChildOnPath | day_7/src/parser.rs:172-179 | two directories on one chain with the same parent are the same directory |
| Directories.PathDecreasing | day_7/src/parser.rs:172-179 | the chain has no repeats |
| Directories.Propagated | day_7/src/parser.rs:168-181 | propagation keeps the arena's length |
| Directories.PropagatedShape | day_7/src/parser.rs:168-181 | propagation adds the value to the sizes on the cursor's chain only, and changes no link, name or file, so the tree stays valid |
| Directories.PropagatedSizesAddUp | day_7/src/parser.rs:96-101 | propagating a listing's total keeps every size equal to its own files plus its children's sizes |
| Directories.ChildSumUnchanged | day_7/src/parser.rs:168-181 | the children's total is unchanged when their sizes are |
| Directories.ChildSumOneGrows | day_7/src/parser.rs:168-181 | the children's total grows by the value when exactly one child grows by it |
| Directories.NoChildOnPath | day_7/src/parser.rs:168-181 | a directory off the chain, or the cursor itself, keeps its children's total |
| Directories.OneChildOnPathGrows | day_7/src/parser.rs:168-181 | a directory above the cursor sees its children's total grow by exactly the value |
| Directories.ChildOnPath | day_7/src/parser.rs:168-181 | a directory above the cursor has exactly one child on the chain |
| Directories.WithChild | day_7/src/parser.rs:82-89 | a `dir` line adds one directory |
| Directories.WithChildValid | day_7/src/parser.rs:82-89 | adding a child keeps the tree valid and keeps sizes equal to files plus children |
| Directories.WithChildLinks | day_7/src/parser.rs:82-89 | the new directory gets the next index, the cursor as parent, and a place at the end of the cursor's children |
| Directories.WithChildPointsBack | day_7/src/parser.rs:82-89 | every child still points back to its parent |
| Directories.WithChildListed | day_7/src/parser.rs:82-89 | parents still come earlier and list their children |
| Directories.WithChildInOrder | day_7/src/parser.rs:82-89 | children stay listed in creation order |
| Directories.WithChildSizes | day_7/src/parser.rs:82-89 | the new empty directory keeps sizes equal to files plus children |
| Directories.WithChildSizeAt | day_7/src/parser.rs:82-89 | no existing size changes |
| Directories.WithFiles | day_7/src/parser.rs:97-101 | recording files changes only the cursor's file map: its names are the old names plus the listed ones, and the listed sizes win |
| Directories.WithFilesLinks | day_7/src/parser.rs:97-101 | recording files keeps the tree valid |
| Directories.WithFilesValid | day_7/src/parser.rs:97-101 | recording files changes no size and no link |
| SessionParser.ParseLineType | day_7/src/parser.rs:40-48 | a command exactly when the line starts with `$`; a directory exactly when it is not a command and starts with `dir`; a file otherwise |
| SessionParser.LineTypeExamples | day_7/src/parser.rs:213-220 | the unit test's three lines |
| SessionParser.ParseFile | day_7/src/parser.rs:50-55 | a size that fits a `usize` and a non-empty name without whitespace; panics otherwise |
| SessionParser.ParseFileRoundTrip | day_7/src/parser.rs:50-55 | a written file line `size name` is parsed back to its size and name |
| SessionParser.ParseDirName | day_7/src/parser.rs:57-61 | a non-empty name without whitespace; panics otherwise |
| SessionParser.ParseDirNameRoundTrip | day_7/src/parser.rs:57-61 | `dir name` is parsed back to its name |
| SessionParser.ListingLength | day_7/src/parser.rs:66-73 | a listing runs up to the next command: none of its lines is a command, and the line after it is one |
| SessionParser.ListedFilesKeys | day_7/src/parser.rs:74-81 | a name is recorded exactly when some file line of the listing has it |
| SessionParser.ListedFilesLast | day_7/src/parser.rs:74-81 | the last line of a listing adds its name when it is a file line, and nothing else |
| SessionParser.ListedFilesLastWins | day_7/src/parser.rs:74-81 | a file listed twice keeps the size on its last line |
| SessionParser.WithChildren | day_7/src/parser.rs:82-89 | the listing's directories are added, one per `dir` line |
| SessionParser.WithChildrenLinks | day_7/src/parser.rs:82-89 | adding the listing's directories keeps the tree valid |
| SessionParser.WithChildrenValid | day_7/src/parser.rs:82-89 | adding the listing's directories keeps sizes equal to files plus children |
| SessionParser.MapSumUnfold | day_7/src/parser.rs:96 | a non-empty map's total is one file's size plus the total of the rest |
| SessionParser.MapSumRemove | day_7/src/parser.rs:96 | any file can be taken out of the total first, so the order the map yields its values in does not matter |
| SessionParser.SumValues | day_7/src/parser.rs:96 | the loop adds up exactly the sizes of the map |
| SessionParser.FirstWhere | day_7/src/parser.rs:194-203 | the first position whose index satisfies the predicate, or none when no index does |
| SessionParser.CdTarget | day_7/src/parser.rs:108-129 | `cd` always leaves the cursor on a directory of the arena |
| SessionParser.CdTargetMoves | day_7/src/parser.rs:108-129 | a line of fewer than three words stays; `..` moves to the parent whenever there is one and stays at the root; any other name moves to the first child bearing it whenever one does, and stays only when none does; so `cd` follows one link of the tree or none |
| SessionParser.ListingStep | day_7/src/parser.rs:74-91 | one more listing line either records a file or adds a directory name |
| SessionParser.AfterListing | day_7/src/parser.rs:63-105 | applying a listing keeps the tree valid and adds one directory per `dir` line |
| SessionParser.Session | day_7/src/parser.rs:131-152 | replaying an accepted session keeps the tree valid, leaves the cursor on one of its directories, and never shrinks the arena |
| SessionParser.RaisedUpTo | day_7/src/parser.rs:170-180 | raising sizes along a chain keeps the arena's length |
| SessionParser.RaisedUpToKeepsLinks | day_7/src/parser.rs:170-180 | raising sizes changes no parent link |
| SessionParser.RaisedUpToAt | day_7/src/parser.rs:170-180 | along a chain without repeats, each raised directory gains the value exactly once |
| SessionParser.RaisedUpToIsPropagated | day_7/src/parser.rs:170-180 | raising the whole chain one directory at a time is propagation |
| SessionParser.RaiseStep | day_7/src/parser.rs:173-179 | the loop's next directory is the parent of the current one on the chain |
| SessionParser.RaiseAlongPath | day_7/src/parser.rs:168-181 | the loop of `propagate_value` raises exactly the sizes on the cursor's chain by the value |
| SessionParser.ScanFileLine | day_7/src/parser.rs:76-80 | a file line records its size under its name |
| SessionParser.ScanDirectoryLine | day_7/src/parser.rs:82-89 | a `dir` line adds a directory under the cursor |
| SessionParser.ScanLine | day_7/src/parser.rs:66-91 | one turn of the listing loop stops at a command, fails on a line that does not parse, and otherwise reads the line |
| SessionParser.ScanListing | day_7/src/parser.rs:66-95 | the loop reads the listing up to the next command; it succeeds exactly when every line parses, with the listing's directories added and its files collected |
| SessionParser.PropagateIn | day_7/src/parser.rs:168-181 | propagation keeps the parser's state consistent |
| SessionParser.Parser.constructor | day_7/src/parser.rs:22-38 | the session's lines, an arena holding only the root, and the cursor on the root |
| SessionParser.Parser.PropagateValue | day_7/src/parser.rs:168-181 | adds the value to the cursor's size and to the size of every directory above it, and nothing else |
| SessionParser.Parser.ReadListing | day_7/src/parser.rs:64-95 | consumes the listing up to the next command and collects its files; fails exactly when a listing line does not parse |
| SessionParser.Parser.ProcessLs | day_7/src/parser.rs:63-105 | panics exactly when a listing line does not parse; otherwise the listing is consumed and the arena is the old one with the listing applied |
| SessionParser.Parser.FindAmong | day_7/src/parser.rs:194-203 | the directory at the first index satisfying the predicate, or `None` |
| SessionParser.Parser.ProcessCd | day_7/src/parser.rs:108-129 | consumes one line, moves the cursor as `cd` says, and leaves the arena alone |
| SessionParser.Parser.ProcessCommand | day_7/src/parser.rs:131-146 | handles one command and consumes at least one line; fails only on a session that would panic; replaying the rest of the session ends where replaying the whole would |
| SessionParser.Parser.Parse | day_7/src/parser.rs:148-152 | succeeds exactly on the sessions that do not panic; it then consumes every line and leaves the arena and cursor that replaying the session gives |
| SessionParser.Parser.GetRoot | day_7/src/parser.rs:154-166 | returns directory 0, which is parentless |
| SessionParser.Parser.FindDirectories | day_7/src/parser.rs:183-192 | the directories satisfying the predicate, in arena order |
| SessionParser.Filter | day_7/src/parser.rs:183-192 | a selection of the arena's directories, each satisfying the predicate |
| SessionParser.FilterKeepsAll | day_7/src/parser.rs:183-192 | every directory satisfying the predicate is selected |
| SessionParser.SuffixKeepsNoBareCommand | day_7/src/parser.rs:131-146 | the rest of a session without bare `$` lines has none either |
| SpaceReport.SumSizesAppend | day_7/src/main.rs:21 | the fold's total over two lists joined is the sum of their totals |
| SpaceReport.SmallSumBounded | day_7/src/main.rs:20-21 | small directories total at most 100000 each |
| SpaceReport.RequiredSpace | day_7/src/main.rs:24 | defined exactly when neither `usize` subtraction underflows, that is, when the root's size lies in 40000000..70000000; the value is the space to free |
| SpaceReport.SmallestCandidate | day_7/src/main.rs:25-30 | the smallest size at least the required space, or `usize::MAX` when none qualifies |
| SpaceReport.Solve | day_7/src/main.rs:14-31 | the report exists exactly when the session parses and the required space is defined; it gives the root's size, the total of the small directories, and the smallest candidate |
| Treetop.HeightOf | day_8/src/main.rs:44-47 | a digit's value, and a height below 10 for any character |
| Treetop.ParseForest | day_8/src/main.rs:40-51 | one row per line and one height per character |
| Treetop.ShowRow | day_8/src/main.rs:40-51 | a row of digit heights is written as one digit per height |
| Treetop.ParseForestRoundTrip | day_8/src/main.rs:40-51 | a forest of digit heights, written out, is parsed back to itself |
| Treetop.At | day_8/src/main.rs:53-95 | the height at a position, or `None` exactly where indexing the forest panics |
| Treetop.ClearMeans | day_8/src/main.rs:55-61 | a scan sees out exactly when every tree on its line is lower, and panics exactly when a missing tree comes before any tree as tall |
| Treetop.IsVisibleFromNorth | day_8/src/main.rs:53-62 | true exactly when every tree above in the column is lower |
| Treetop.IsVisibleFromSouth | day_8/src/main.rs:64-73 | scans the column below up to the length of the tree's row, not the number of rows |
| Treetop.IsVisibleFromEast | day_8/src/main.rs:75-84 | scans the row to the right up to the number of rows, not the row's length |
| Treetop.IsVisibleFromWest | day_8/src/main.rs:86-95 | true exactly when every tree to the left in the row is lower |
| Treetop.DownClear | day_8/src/main.rs:53-73 | a column scan over trees that are all there sees out exactly when all are lower |
| Treetop.RightClear | day_8/src/main.rs:75-95 | a row scan over trees that are all there sees out exactly when all are lower |
| Treetop.SquareVisibility | day_8/src/main.rs:10-13 | on a square forest no scan panics, and a tree counts exactly when it is visible from some side |
| Treetop.EdgeTreesVisible | day_8/src/main.rs:53-62 | the top row is always visible, because its north scan reads nothing |
| Treetop.CountVisibleTrees | day_8/src/main.rs:6-17 | the first loop of `main` counts the trees visible from some side, or panics where a scan does |
| Treetop.CountVisibleInRow | day_8/src/main.rs:8-16 | the inner loop counts the visible trees of one row |
| Treetop.RowStep | day_8/src/main.rs:9-15 | one more tree adds 1 exactly when it is visible |
| Treetop.RowsStep | day_8/src/main.rs:7-17 | one more row adds its count |
| Treetop.IsVisible | day_8/src/main.rs:10-13 | the `||` chain runs the scans left to right and stops at the first true one |
| Treetop.RowPanics | day_8/src/main.rs:8-16 | a panic at one tree is a panic of the rest of its row |
| Treetop.RowsPanic | day_8/src/main.rs:7-17 | a panic on one row is a panic of the whole count |
| Treetop.CountBounded | day_8/src/main.rs:6-17 | the count never exceeds the number of trees |
| Treetop.RowCountBounded | day_8/src/main.rs:8-16 | a row's count never exceeds its length |
| Treetop.SquareCounted | day_8/src/main.rs:6-17 | on a square forest the count is defined |
| Treetop.SquareRowCounted | day_8/src/main.rs:8-16 | on a square forest each row's count is defined |
| Treetop.ScanCountsUntilStop | day_8/src/main.rs:97-167 | a sight-line count is the number of trees passed before the first stop (all of them if none stops), and panics exactly at a missing tree before the stop |
| Treetop.ScanCountFrom | day_8/src/main.rs:97-167 | the count of a scan resumed part way, in terms of the whole line |
| Treetop.ResumeScan | day_8/src/main.rs:97-167 | a scan that passes a tree goes on as the scan resumed one tree later, counting one more |
| Treetop.ScanPanicFrom | day_8/src/main.rs:97-167 | a resumed scan panics exactly when a missing tree comes before its stop |
| Treetop.ScanPanicsFrom | day_8/src/main.rs:97-167 | passing a tree moves the missing tree that shows the panic one tree on |
| Treetop.ScanShift | day_8/src/main.rs:97-167 | starting the count one higher ends it one higher |
| Treetop.LosNorth | day_8/src/main.rs:97-113 | counts from 1 upwards and stops at a tree at least as tall that is not above every tree passed |
| Treetop.LosSouth | day_8/src/main.rs:115-131 | counts from 1 downwards, with the same stop, up to the length of the tree's row |
| Treetop.LosEast | day_8/src/main.rs:133-149 | counts from 1 rightwards up to the number of rows, and stops at the first tree at least as tall |
| Treetop.LosWest | day_8/src/main.rs:151-167 | counts from 0 leftwards and stops at the first tree at least as tall |
| Treetop.TimesIsProduct | day_8/src/main.rs:177 | the repeated addition the scores use is multiplication |
| Treetop.CalculateLos | day_8/src/main.rs:169-178 | 0 for a tree on the border, with no scan; otherwise the product of the four counts |
| Treetop.UpThere | day_8/src/main.rs:97-113 | the cells above a column position all hold trees when the rows reach that column |
| Treetop.DownThere | day_8/src/main.rs:115-131 | the same for the cells below |
| Treetop.RightThere | day_8/src/main.rs:133-149 | the cells to the right within a row all hold trees |
| Treetop.LeftThere | day_8/src/main.rs:151-167 | the cells to the left within a row all hold trees |
| Treetop.ScanThere | day_8/src/main.rs:97-167 | a scan over trees that are all there never panics |
| Treetop.SquareScored | day_8/src/main.rs:169-178 | on a square forest every tree has a score |
| Treetop.MaxScenicScore | day_8/src/main.rs:20-30 | the largest score, which bounds every tree's score and, when positive, is some tree's score; `None` exactly where some tree's scan panics |
| Treetop.TableOfStep | day_8/src/main.rs:21-29 | one more row extends the table of scores |
| Treetop.ScoreRow | day_8/src/main.rs:21-29 | the best of the next row replaces the best so far exactly when it is higher |
| Treetop.MaxScenicScoreInRow | day_8/src/main.rs:22-28 | the scores of a row's trees and the largest of them, or a panic at one of them |
| Treetop.ScoresOfStep | day_8/src/main.rs:22-28 | one more tree's score extends the row's scores |
| Treetop.MaxSoFarStep | day_8/src/main.rs:25-27 | the maximum moves to a new score exactly when it is higher |
| Rope.MoveTail | day_9/src/main.rs:17-37 | each coordinate moves at most one step, towards the head and never past it; a nonzero difference shrinks by exactly 1 and a zero one stays zero |
| Rope.MoveTailAtHead | day_9/src/main.rs:17-37 | a tail on its head stays put |
| Rope.MoveTailExamples | day_9/src/main.rs:63-77 | the unit test's three cases |
| CathodeRay.SampledCycles | day_10/src/main.rs:43-45 | the sampled cycles are exactly 20, 60, 100 and so on |
| CathodeRay.NoConsecutiveSamples | day_10/src/main.rs:53-59 | no two consecutive cycles are both sampled, so an `addx` yields at most one sample |
| CathodeRay.TraceLength | day_10/src/main.rs:47-59 | `noop` takes one cycle and `addx` two |
| CathodeRay.Processor.constructor | day_10/src/main.rs:35-41 | cycle 1, register 1 and a blank 6×40 screen |
| CathodeRay.Processor.CheckForSampling | day_10/src/main.rs:43-45 | true exactly when the cycle is one of 20, 60, 100 and so on |
| CathodeRay.Processor.DrawPixel | day_10/src/main.rs:73-77 | sets the pixel of the current cycle and no other |
| CathodeRay.Processor.Process | day_10/src/main.rs:61-71 | advances the cycle by one without changing the register; samples `register * cycle` on a sampled cycle and passes the result through otherwise; lights the cycle's pixel exactly when the sprite covers its column |
| CathodeRay.Processor.ProcessNoop | day_10/src/main.rs:47-51 | one cycle, sampled or not, with the register unchanged |
| CathodeRay.Processor.ProcessAddx | day_10/src/main.rs:53-59 | two cycles drawn with the old register, at most one sample, then the register moves by the value |
| CathodeRay.RunProgram | day_10/src/main.rs:2-25 | after the program, the cycle counts its cycles, the register holds its final value, the sum is the signal strength of its trace, and the screen is the picture the trace draws |
| CathodeRay.RunNext | day_10/src/main.rs:7-21 | after one more turn of the loop, the cycle, register, running sum and screen are those of the first n + 1 commands' trace |
| CathodeRay.RunCommand | day_10/src/main.rs:8-21 | one command extends the trace, the signal strength and the picture by its own cycles |
| CathodeRay.DrawTwoMore | day_10/src/main.rs:53-59 | the two cycles of `addx` add at most one sample and light at most their own pixels |
| CathodeRay.DrawOneMore | day_10/src/main.rs:47-51 | one more cycle adds its sample and can light only its own pixel |
| CathodeRay.TraceOfPrefix | day_10/src/main.rs:8-21 | running the first commands traces the start of the whole trace |
| CathodeRay.ParseCommand | day_10/src/main.rs:101-112 | `noop` exactly when the first word is `noop`; `addx n` with an `i64` `n`; a panic otherwise |
| CathodeRay.ParseCommandRoundTrip | day_10/src/main.rs:99-114 | every command, written out, is parsed back to itself |
| CathodeRay.ParseCommands | day_10/src/main.rs:99-114 | one command per line, in order; a panic exactly when some line is not a command |
| CathodeRay.TestProgramCommands | day_10/src/main.rs:130-137 | the unit test's lines parse to `noop`, `addx 1` and `noop` |
| HeightMaps.Converted | day_12/src/heightmap.rs:17-23 | `S` is stored as `a`, `E` as `z`, and every other character unchanged |
| HeightMaps.AddNeighbor | day_12/src/heightmap.rs:95-97 | appending an edge changes nothing but the end of the neighbour list |
| HeightMaps.RowNodes | day_12/src/heightmap.rs:15-25 | one fresh node per character of a row, with its coordinates and stored height |
| HeightMaps.RowNodesStep | day_12/src/heightmap.rs:16-25 | one more character pushes one more node |
| HeightMaps.Cells | day_12/src/heightmap.rs:14-28 | the nodes of the first rows, in row-major order; empty rows give none |
| HeightMaps.CellsFresh | day_12/src/heightmap.rs:14-28 | every flattened node starts with no neighbours |
| HeightMaps.LastIn | day_12/src/heightmap.rs:16-24 | the column of the last occurrence of a marker in a row, or none when the row has none |
| HeightMaps.MarkerAfterRowStep | day_12/src/heightmap.rs:16-25 | one more character of a row updates the marker index as the loop does |
| HeightMaps.MarkerIndex | day_12/src/heightmap.rs:12-28 | 0 when the marker is missing; otherwise `y * row_length + x` for its last occurrence |
| HeightMaps.MarkerStep | day_12/src/heightmap.rs:14-28 | one more row keeps the marker index naming the last occurrence |
| HeightMaps.Column | day_12/src/heightmap.rs:53-66 | the column lies within the row and never exceeds the index |
| HeightMaps.HeightMap.constructor | day_12/src/heightmap.rs:10-37 | the row length of the first row, the marker indices of `S` and `E`, and the flattened cells linked by the climbing rule |
| HeightMaps.HeightMap.Flatten | day_12/src/heightmap.rs:14-28 | the nested loops build the row-major cells and the marker indices |
| HeightMaps.HeightMap.PushRow | day_12/src/heightmap.rs:15-27 | one pass of the inner loop pushes a row's nodes and updates the markers |
| HeightMaps.HeightMap.FindNeighbors | day_12/src/heightmap.rs:39-43 | links every node in index order and changes nothing else |
| HeightMaps.HeightMap.FindNodeNeighbors | day_12/src/heightmap.rs:45-67 | appends the node's edges in the order north, south, west, east |
| HeightMaps.HeightMap.EvaluateNeighbor | day_12/src/heightmap.rs:69-74 | adds the edge exactly when the heights differ by at most one |
| HeightMaps.DirectionStep | day_12/src/heightmap.rs:45-67 | each direction appends its edge when its test passes and nothing otherwise |
| HeightMaps.AppendedNothing | day_12/src/heightmap.rs:95-97 | appending no edges changes nothing |
| HeightMaps.AppendedTwice | day_12/src/heightmap.rs:95-97 | appending two lists of edges is appending their concatenation |
| HeightMaps.SameHeightsSameNeighbors | day_12/src/heightmap.rs:45-74 | edges depend only on the heights and the arena length, so earlier links do not change later ones |
| HeightMaps.NeighborIff | day_12/src/heightmap.rs:45-74 | an edge exists exactly when the target is one of the tried grid steps and the heights differ by at most one |
| HeightMaps.NeighborsDistinct | day_12/src/heightmap.rs:45-67 | at most four edges, none to the node itself, and none twice |
| HeightMaps.ColumnIsMod | day_12/src/heightmap.rs:58-62 | the column is `node % row_length` |
| HeightMaps.ColumnPred | day_12/src/heightmap.rs:58-59 | a step west moves one column left |
| HeightMaps.ColumnSucc | day_12/src/heightmap.rs:61-62 | a step east moves one column right |
| HeightMaps.EdgesSymmetric | day_12/src/heightmap.rs:48-74 | every edge goes both ways, except from index 0 to index `row_length` |
| HeightMaps.NorthAsymmetry | day_12/src/heightmap.rs:48-51 | index 0 reaches index `row_length`, but the strict north test stops the way back |
| HeightMaps.LinkedShape | day_12/src/heightmap.rs:39-43 | linking keeps every node's coordinates and height, and every edge points into the arena |
| HeightMaps.RectangularLength | day_12/src/heightmap.rs:14-28 | a rectangular grid gives one node per cell |
| HeightMaps.RectangularCell | day_12/src/heightmap.rs:14-28 | in a rectangular grid the node at `y * row_length + x` is cell (x, y) |
| HeightMaps.StartCell | day_12/src/heightmap.rs:17-19 | in a rectangular grid holding an `S`, the start index names a node of height `a` |
| HeightMaps.RowOf | day_12/src/heightmap.rs:14-28 | the row of an index: row `RowOf(i)` and column `Column(i)` give back index `i` |
| HeightMaps.RowBelow | day_12/src/heightmap.rs:14-28 | an index below `rows * row_length` lies in one of the first `rows` rows |
| HeightMaps.DivUnique | day_12/src/heightmap.rs:20-23 | a row-major index names one row and one column |
| HeightMaps.CellCoordinates | day_12/src/heightmap.rs:14-28 | in a rectangular grid the node at index `i` holds column `i % row_length` and the row that gives back `i` |
| HeightMaps.SameColumnStep | day_12/src/heightmap.rs:48-51 | a step of one row length between nodes of one column changes the row by one |
| HeightMaps.SameRowStep | day_12/src/heightmap.rs:58-62 | a step of one index to the next column keeps the row |
| HeightMaps.GridStepAdjacent | day_12/src/heightmap.rs:45-67 | every grid step `find_node_neighbors` tries joins two cells one row or one column apart |
| HeightMaps.LinkedEdgeAdjacent | day_12/src/heightmap.rs:39-67 | in a rectangular grid each edge of a node joins it to an adjacent cell |
| HeightMaps.RectangularUnitEdges | day_12/src/heightmap.rs:39-67 | the graph of a rectangular grid has edges only between cells one step apart along a row or a column |
| Pathfinding.RoundSqrt | day_12/src/main.rs:65-71 | the square root rounded to the nearest integer: within one half of the exact root |
| Pathfinding.RoundSqrtFrom | day_12/src/main.rs:65-71 | the search for that rounded root ends within one half of the exact root |
| Pathfinding.DistanceToSelf | day_12/src/main.rs:65-71 | a node's distance to itself is 0, so the end node's heuristic is 0 |
| Pathfinding.SquareMono | day_12/src/main.rs:68-70 | squaring does not reverse the order of naturals |
| Pathfinding.SquareLess | day_12/src/main.rs:68-70 | a smaller square has a smaller root |
| Pathfinding.RoundSqrtNear | day_12/src/main.rs:68-70 | growing the radicand by at most `2p + 1`, where `p * p` is at most the old radicand, grows the rounded root by at most one |
| Pathfinding.SquareStep | day_12/src/main.rs:68-69 | moving a coordinate difference by one changes its square by at most twice its size plus one |
| Pathfinding.AxisStep | day_12/src/main.rs:68-70 | one unit step along one axis changes the rounded distance by at most one |
| Pathfinding.ColumnStep | day_12/src/main.rs:65-71 | a step along a column changes the rounded distance to any cell by at most one |
| Pathfinding.RowStep | day_12/src/main.rs:65-71 | a step along a row changes the rounded distance to any cell by at most one |
| Pathfinding.DistanceStep | day_12/src/main.rs:65-71 | the heuristic is consistent: a step to an adjacent cell changes the distance to any cell by at most one |
| Pathfinding.ScoredStep | day_12/src/main.rs:94-111 | one more successor scored at most one above the popped node extends the scored prefix, as long as no score rises |
| Pathfinding.GSumLower | day_12/src/main.rs:95-110 | lowering one g score lowers the sum of scores by the same amount |
| Pathfinding.GSumSame | day_12/src/main.rs:95-110 | a score outside the arena does not change the sum |
| Pathfinding.RelaxLowersPotential | day_12/src/main.rs:95-110 | a strict improvement that opens a node does not raise the search's potential, which is why the loop ends |
| Pathfinding.Pathfinder.constructor | day_12/src/main.rs:21-24 | the height map and an empty `came_from` |
| Pathfinding.Pathfinder.Heuristic | day_12/src/main.rs:65-71 | the end node's heuristic is 0 |
| Pathfinding.Pathfinder.ReconstructPath | day_12/src/main.rs:54-63 | ends at the given node; each element's `came_from` entry is the element before it, and the first element has none |
| Pathfinding.Pathfinder.AStar | day_12/src/main.rs:73-114 | a result walks the graph from start to end along edges; `None` means no such walk exists; `came_from` only ever follows edges and never leaves from the start; on a graph whose edges join adjacent cells, with fewer than `i32::MAX` nodes, no walk from start to end is shorter than the result, as the comment on `g_score` promises |
| Pathfinding.Pathfinder.ExpandNode | day_12/src/main.rs:94-111 | relaxing the popped node's edges keeps the search state, raises no g score, does not raise the potential, and leaves every closed node expanded, with every successor of a closed node scored at most one above it |
| Pathfinding.Pathfinder.RelaxEdge | day_12/src/main.rs:96-110 | one edge is relaxed only on a strict improvement, updating `came_from`, g, f and the open set together; no score rises, and afterwards the neighbour is scored at most one above the popped node |
| Pathfinding.RelaxBounds | day_12/src/main.rs:96-104 | the tentative score stays below `i32::MAX` in a graph of fewer nodes, and writing it on strict improvement lowers no score |
| Pathfinding.RelaxKeepsExpanding | day_12/src/main.rs:96-110 | a relaxation keeps the expansion's loop state and does not raise the potential |
| Pathfinding.ClosedGrows | day_12/src/main.rs:96-110 | scoring and opening one more node leaves every closed node expanded |
| Pathfinding.ScoredCloses | day_12/src/main.rs:94-111 | once every successor of the popped node is scored at most one above it, that node is expanded too |
| Pathfinding.LowestFScore | day_12/src/main.rs:84-87 | an open node whose f score is least among the open nodes |
| Pathfinding.Reversed | day_12/src/main.rs:62 | the sequence in reverse order |
| Pathfinding.ExpansionStep | day_12/src/main.rs:96-110 | one relaxation extends the expansion |
| Pathfinding.RelaxKeepsState | day_12/src/main.rs:96-110 | a relaxation on strict improvement keeps the search state |
| Pathfinding.RelaxBounded | day_12/src/main.rs:101-107 | a relaxed g score stays below `i32::MAX` and below the number of scored nodes |
| Pathfinding.RelaxRanked | day_12/src/main.rs:101-105 | linking a node with a g score one above its predecessor keeps `came_from` acyclic |
| Pathfinding.RelaxEstimates | day_12/src/main.rs:106-107 | every f score stays its g score plus its heuristic |
| Pathfinding.PopKeepsState | day_12/src/main.rs:84-93 | removing the popped node keeps the search state and strictly lowers the potential |
| Pathfinding.NoWalkOut | day_12/src/main.rs:113 | once nothing is open and every scored node is expanded, no walk leads from start to an unscored end |
| Pathfinding.FrontierOnWalk | day_12/src/main.rs:83-111 | along a walk that ends at an open node, from a node scored at most its position, the first node not yet closed is open and scored at most its position |
| Pathfinding.HeuristicAlongWalk | day_12/src/main.rs:65-71 | on a graph of unit edges the heuristic falls by at most one per step of a walk |
| Pathfinding.RankedPathLength | day_12/src/main.rs:54-63 | along a chain of `came_from` links the g score of the `i`-th node is at least `i` |
| Pathfinding.ShortestAtPop | day_12/src/main.rs:76-92 | when the end is an open node of least f score, the path reconstructed from it is no longer than any walk from start to end |
| Pathfinding.BoundedSetSize | day_12/src/main.rs:73-114 | a set of indices below `n` has at most `n` elements |
| Pathfinding.WalkStaysInside | day_12/src/main.rs:94-111 | a walk that starts among scored nodes closed under expansion never leaves them |
| Pathfinding.PathFromStart | day_12/src/main.rs:54-63 | a reconstructed path under the search state walks the graph from the start |
| HillClimbing.ParseHeightMap | day_12/src/main.rs:36-46 | one row per line, holding that line's characters in order |
| HillClimbing.StepCount | day_12/src/main.rs:8-27 | the printed number is defined exactly when the grid can be built with both markers in range; it is one less than a walk's length, and on a rectangular grid of fewer than `i32::MAX` cells the least such length, or 0 when A* finds no path |

## Left out

- Reading the input files, and all console output, is not modelled; each program's logic
  takes the file's text as a `string` parameter, which the model splits as the source does
  (`TallyCalories`, `SeparateRucksacks`, `SeparateGroups`, `SeparateBoxInstructions`,
  `FindPacketStart`, `Solve`, `ParseForest`, `ParseCommands`, `StepCount`). Days 2 and 4
  take one line at a time, because their loops in `main` are not modelled (see below). This
  covers `read_file`, `read_file_to_str`,
  `load_file`, `load_data`, every `println!`, `Processor::draw` and the prints inside
  `check_overlap`. day_7's `utils` module is not part of this model.
- Days 11 and 13 are unfinished stubs, with no logic to model.
- The scoring loops in `main` of days 2, 3 and 4 (sums of scores, priorities and counts)
  are not modelled. They only fold the modelled functions over the input's lines.
- The unit tests that read `data/test.txt` (day_7/src/main.rs:39-47 and the `process_ls`,
  `process_cd`, `parse` and `find_directories` tests of day_7/src/parser.rs) are not
  modelled. That data file is not part of this model, so the totals they expect cannot be
  derived.
- Rust lifetimes and the `forest.clone()` copies in day 8 have no effect on the results.
- day 9's `calculate_distance` and `is_tail_move_required` compute in `f32`, and are not
  modelled.
- `find_group_badge` takes an arbitrary element of a hash set (`drain().last()`). Its
  contract allows any common character.
- `min_by_key` in `a_star` breaks ties in hash order. `LowestFScore` returns some open node
  of least f score.
- CalorieCounting.TallyCalories: models the sums as unbounded integers, not `i32`. The `+=` at
  day_1/src/main.rs:22 overflows (a panic in debug builds) on very large groups.
- CalorieCounting.RankInTop3: compares unbounded integers. The source's `i32` values cannot exceed
  `i32::MAX`, because `parse_calories` rejects larger numbers.
- Rope.MoveTail: models the coordinates as unbounded integers. The `i32` subtractions at
  day_9/src/main.rs:20-21 overflow near `i32::MIN` and `i32::MAX`.
- CathodeRay.Processor.Process: works on unbounded integers, not `i64`. The register and
  cycle (day_10/src/main.rs:6, 28-29) and the product `register * cycle` could overflow
  for extreme `addx` operands. It also requires a lit pixel to be on the screen (cycle at
  most 240), because `draw_pixel` panics past it.
- CathodeRay.RunProgram: also unbounded, not `i64`. It requires that no cycle after the
  240th lights a pixel (`StaysOnScreen`), because the source then indexes past the 6×40
  screen and panics.
- CathodeRay.Processor.ProcessNoop: requires the lit pixel to be on the screen (cycle
  at most 240), because `draw_pixel` panics past it.
- CathodeRay.Processor.ProcessAddx: the same requirement, for both of its cycles.
- TuningTrouble.FindPacketStart: returns an unbounded integer. The `i as i32` at
  day_6/src/main.rs:27 would truncate for inputs longer than `i32::MAX` characters.
- SpaceReport.SumSizes: adds unbounded naturals. The `usize` fold `acc + directory.size` at
  day_7/src/main.rs:21, used by `Solve`, could overflow.
- Treetop.CountVisibleTrees: counts in unbounded naturals. The `i32` counter `visible_trees`
  and the `(x as u32, y as u32)` casts at day_8/src/main.rs:6-16 could overflow or truncate
  for forests larger than those types can count or index.
- Treetop.IsVisibleFromNorth: takes the coordinates as unbounded naturals, not `u32`. The
  same applies to Treetop.IsVisibleFromSouth, Treetop.IsVisibleFromEast and
  Treetop.IsVisibleFromWest, whose `as u32` row and column bounds (day_8/src/main.rs:53-95)
  could truncate on forests wider or taller than `u32::MAX`.
- SessionParser.SumValues: adds unbounded naturals. The `usize` sum at
  day_7/src/parser.rs:96 could overflow.
- SessionParser.Parser.PropagateValue: adds unbounded naturals. The `usize` additions at
  day_7/src/parser.rs:173-179 could overflow.
- SessionParser.Parser.Parse: requires that no command line is a bare `$` (`NoBareCommand`).
  On such a line the source consumes nothing and loops for ever (day_7/src/parser.rs:131-152).
- SessionParser.Parser.GetRoot: requires the arena invariant, under which every parent
  index is in range. The source's loop would spin on an out-of-range parent
  (day_7/src/parser.rs:157-161), which no parser state can hold.
- Treetop.CalculateLos: multiplies unbounded naturals. The `u32` product at
  day_8/src/main.rs:177, and the `as u32` casts of coordinates, could overflow or truncate
  for forests larger than `u32` can index.
- Treetop.LosNorth: counts in unbounded naturals, not `u32`. The same applies to
  Treetop.LosSouth, Treetop.LosEast and Treetop.LosWest.
- Pathfinding.Pathfinder.ExpandNode: computes `tentative + heuristic` in unbounded
  integers. The `i32` addition at day_12/src/main.rs:107 could overflow in a graph of about
  `i32::MAX` nodes.
- Pathfinding.Pathfinder.Heuristic: uses the exact rounded Euclidean distance
  (`RoundSqrt`, `Distance`) in place of the `f32` square root and rounding at
  day_12/src/main.rs:65-71. `f32` rounding can differ for very large distances. It
  also works on unbounded integers: the `as i32` casts of the coordinates, the `i32`
  `.pow(2)` and the sum `x + y` there overflow once a coordinate difference exceeds 46340
  (or the two squares together exceed `i32::MAX`), on grids that wide or tall.
- Pathfinding.Pathfinder.AStar: requires an empty `came_from`. The source never clears
  that field (day_12/src/main.rs:21-24, 105), but `main` builds a fresh `Pathfinder` and
  calls `a_star` once. A second call on the same `Pathfinder` is not modelled.
- Pathfinding.Pathfinder.AStar: states "no path exists" on `None` only for graphs with
  fewer than `i32::MAX` nodes, because the source's g scores are `i32`.
- Pathfinding.Pathfinder.AStar: states that the path is a shortest one only for graphs whose
  edges join adjacent cells and that have fewer than `i32::MAX` nodes. The rounded Euclidean
  heuristic is consistent only on such edges; `HeightMap` builds them for rectangular grids
  (`RectangularUnitEdges`). On a ragged grid the row-major steps can join distant cells.
- HillClimbing.StepCount: states that the count is the least for rectangular grids only, for
  the same reason.
- HeightMaps.HeightMap.constructor: requires a non-empty grid, because `map[0]` panics on
  an empty one. It also requires that an empty first row comes with no other characters,
  because the `% row_length` in `find_node_neighbors` divides by zero otherwise.
- Rucksacks.ParseRucksack: splits at the middle character, while the source splits at the
  middle byte (day_3/src/main.rs:55-58). For ASCII input the two agree. With multi-byte
  characters they differ: "é" splits differently, and "😀" makes the source panic at a
  non-boundary index.
