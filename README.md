# Puzzle generators: Mastermind and Sudoku

A Dafny model of the two puzzle engines of the repository, with proofs of
what they compute.

**Mastermind** (`mastermind.dfy`, module `Mastermind`). The engine:
- draws a random secret line;
- scores a clue line against the secret as (blacks, whites);
- narrows one colour domain per column using the clues that score no black;
- builds the Cartesian product of the domains and counts its members;
- builds a sheet by adding random clue lines, keeping a line only when it
  strictly lowers that count, until one candidate remains. It then pads
  the list to one line per stop, or gives up with `TooManyClues`.

The model follows the code as written:
- The white count is not multiset-consuming. A column counts as white
  when its secret colour appears anywhere else in the clue line, so
  `[1,1,1,1]` scored against itself is (4, 4).
- The "exact" filter in `combinations` keeps every product member. Its
  `continue` only leaves the inner loop.

Both behaviours are shown as lemmas (`AnswerRepeatedExamples`,
`CountExamples`). Some expectations of the repository's test file do not
hold for this code: lines 51-63 and line 76. The model states the code's
actual results instead.

**Sudoku** (six files):
- `common.dfy` (`Common`): an optional value, powers, integer ranges, and
  the two random primitives, `randint` and `shuffle`, as nondeterministic
  choices.
- `sorting.dfy` (`Sorting`): Python's `sorted`, as an insertion sort over a
  total preorder.
- `sudoku_replacement.dfy` (`SudokuReplacement`): the `Replacement` lookup
  from a marker to its clue label and from the label to its stop. It
  includes the renumbering of stops from 1 done by the main program.
- `sudoku_board.dfy` (`SudokuBoard`): the 81-cell board geometry and the
  `Sheet` class.
  - `Sheet` fills the board by backtracking, using the three prefix checks.
  - It empties cells, replaces digit cells by markers, and renders a cell
    as a value or as a clue.
  - A fixed pattern proves that a solved board exists, so filling from the
    empty board cannot fail.
- `sudoku_labels.dfy` (`SudokuLabels`):
  - the choice of the label length;
  - the set of all labels of a length, with a proof that a fresh label
    exists while fewer labels are used than exist.
- `sudoku_allocation.dfy` (`SudokuAllocation`): the value-level steps of
  the allocation of clues to stops:
  - splitting a digit's markers into random non-empty heaps;
  - placing the tickets, longest heap first, on the least loaded stop;
  - listing each stop in sorted order;
  - indexing the stop of every clue.
- `sudoku_generator.dfy` (`SudokuGenerator`): the `Generator` class, with
  its constructor, `GenerateClue`, the allocation and `Calculate`.

`Calculate` is proved to produce at most `number_of_sheets` sheets, all
distinct. On every sheet:
- 10 cells are emptied;
- the other non-digit cells hold markers above 100;
- every marker resolves through the final `Replacement` to the pair
  (its clue, the digit it replaced) on the stop of that clue.

Random draws are choices: the model states what holds for every draw.

## Model

| member | source | states |
|---|---|---|
| Mastermind.RandomLine | mastermind_puzzlegenerator.py:69-74 | the line has `columns` entries, each in 1..colors |
| Mastermind.Answer | mastermind_puzzlegenerator.py:102-113 | the counters end as ScoreOf: black is the number of columns i < columns with correct[i] == clue[i]; white is the number of columns i whose secret colour occurs in the clue at another index |
| Mastermind.ElsewhereIff | mastermind_puzzlegenerator.py:111 | x is in the slice concatenation clue[0:i] + clue[i+1:] exactly when x occurs in the clue at an index other than i |
| Mastermind.BlackStep | mastermind_puzzlegenerator.py:105-108 | each column adds one black exactly when secret and clue agree there |
| Mastermind.WhiteStep | mastermind_puzzlegenerator.py:109-112 | each column adds one white exactly when its secret colour occurs elsewhere in the clue |
| Mastermind.ScoreByTally | mastermind_puzzlegenerator.py:105-113 | the score equals the running tallies the two loops keep, column by column |
| Mastermind.ScoreBounds | mastermind_puzzlegenerator.py:105-113 | 0 <= black <= columns and 0 <= white <= columns |
| Mastermind.BlackSymmetric | mastermind_puzzlegenerator.py:105-108 | swapping secret and clue does not change the blacks |
| Mastermind.AnswerBlackExamples | test_mastermind_puzzlegenerator.py:27-35 | the test's black scores for secret [1,2,3,4] hold of the code |
| Mastermind.AnswerWhiteExamples | test_mastermind_puzzlegenerator.py:37-43 | the test's white scores for secret [1,2,3,4] hold of the code |
| Mastermind.SelfScoreDistinct | mastermind_puzzlegenerator.py:105-113 | a line with pairwise distinct colours scored against itself is (columns, 0) |
| Mastermind.AnswerRepeatedExamples | test_mastermind_puzzlegenerator.py:51-63 | with repeated colours the code gives (4,4), (3,4), (3,3), (0,4), (2,2), not the test's multiset scores |
| Mastermind.ReduceDomains | mastermind_puzzlegenerator.py:116-127 | the in-place removals leave exactly Domains: start from {1..colors} per column; a (0,0) clue removes all its colours from every column; a (0,w) clue with w > 0 removes clue[i] from column i; a clue with a black changes nothing |
| Mastermind.DomainsStep | mastermind_puzzlegenerator.py:117-127 | the clue lines are applied one at a time, in order |
| Mastermind.DomainsWithinColours | mastermind_puzzlegenerator.py:116-127 | every domain stays within 1..colors |
| Mastermind.DomainsShrink | mastermind_puzzlegenerator.py:117-127 | one more clue line never grows a domain |
| Mastermind.SecretSurvives | mastermind_puzzlegenerator.py:117-127 | for a secret in range, correct[i] stays in domain i whatever the clues |
| Mastermind.FirstColumn | mastermind_puzzlegenerator.py:133-134 | one single-entry line per colour of domain 0, all distinct |
| Mastermind.AppendExtended | mastermind_puzzlegenerator.py:139-140 | the result is the lines so far followed by every old line extended by colour x, in order |
| Mastermind.AddColumn | mastermind_puzzlegenerator.py:136-140 | the new lines are exactly the old lines extended by each colour of the next domain, all distinct, |olds| * |d| of them |
| Mastermind.ProductStep | mastermind_puzzlegenerator.py:135-140 | if the old lines are exactly the product of the first c domains, the new ones are exactly the product of the first c + 1 |
| Mastermind.CartesianProduct | mastermind_puzzlegenerator.py:132-140 | the lines built are exactly the lines whose entry c lies in domain c, without repeats, so their number is the product of the domain sizes |
| Mastermind.Combinations | mastermind_puzzlegenerator.py:115-149 | returns the product of the domain sizes (the filter keeps every line), or NoCombinationsLeft exactly when that product is 0 |
| Mastermind.ProductPositive | mastermind_puzzlegenerator.py:147-148 | non-empty domains give a product of at least 1 |
| Mastermind.CountPositive | mastermind_puzzlegenerator.py:117-148 | for clue lines scored against a secret in range the count is at least 1, so NoCombinationsLeft is never raised |
| Mastermind.CountWithoutClues | mastermind_puzzlegenerator.py:116-149 | without clue lines the count is colors^columns |
| Mastermind.CountNeverGrows | mastermind_puzzlegenerator.py:115-149 | adding a clue line never raises the count |
| Mastermind.CountExamples | test_mastermind_puzzlegenerator.py:70-76 | for columns = colors = 2 and secret [1,2]: no clues give 4; clue [1,3] also gives 4, although [2,1] scores differently from the secret and would be filtered by an exact filter |
| Mastermind.ChainExtend | mastermind_puzzlegenerator.py:92-96 | accepting a line that strictly lowers a count above 1 keeps the accepted lines a strictly decreasing chain |
| Mastermind.ChainLength | mastermind_puzzlegenerator.py:86-96 | count + number of accepted lines <= colors^columns, so the loop accepts fewer than colors^columns lines |
| Mastermind.NewSheet | mastermind_puzzlegenerator.py:83-100 | secret and lines in range; every accepted line strictly lowered the count; Built: count 1, exactly `stops` lines, the accepted prefix kept by the padding; TooManyClues: count still above 1 with `stops` lines accepted, and exactly then; DrawsExhausted only with the count above 1 and fewer than `stops` lines accepted |
| Common.RandInt | sudoku_puzzlegenerator.py:159 | `randint(lo, hi)` yields a value in lo..hi |
| Common.Shuffle | sudoku_puzzlegenerator.py:131-132 | `shuffle` yields a permutation: same length, same multiset |
| Sorting.Sort | sudoku_puzzlegenerator.py:362-364 | `sorted` yields a permutation of the input, sorted by the key's preorder |
| SudokuReplacement.Replacement.GetClue | sudoku_puzzlegenerator.py:80-81 | Some(label) exactly when the marker has a label |
| SudokuReplacement.Replacement.GetStop | sudoku_puzzlegenerator.py:83-87 | Some(stop) exactly when the marker has a non-empty label that has a stop, and then it is that label's stop |
| SudokuReplacement.Replacement.MoveStops | sudoku_puzzlegenerator.py:89-98 | same labels, same labelled set, each stop renamed by the translation |
| SudokuReplacement.MoveStopsLookup | sudoku_puzzlegenerator.py:89-98 | after the move, GetClue is unchanged and GetStop is the old stop, translated |
| SudokuReplacement.MoveStopsCompose | sudoku_puzzlegenerator.py:89-98 | two moves equal one move by the composed translation |
| SudokuReplacement.OneBased | sudoku_puzzlegenerator.py:463-465 | the translation maps exactly 0..stops-1, n to n + 1 |
| SudokuReplacement.OneBasedStopsAreTruthy | sudoku_puzzlegenerator.py:462-466 | after renumbering, every stop GetStop finds is in 1..stops, hence truthy when the clue is rendered |
| SudokuBoard.Coverage | sudoku_puzzlegenerator.py:102-126 | the three checks together find exactly the earlier cells that share a row, column or box with the index |
| SudokuBoard.Sheet.FoundInRow | sudoku_puzzlegenerator.py:102-108 | true exactly when the candidate is in an earlier cell of the same row |
| SudokuBoard.Sheet.FoundInColumn | sudoku_puzzlegenerator.py:110-116 | true exactly when the candidate is in an earlier row of the same column |
| SudokuBoard.Sheet.FoundInBox | sudoku_puzzlegenerator.py:118-126 | true exactly when the candidate is in an earlier row of the same 3x3 box |
| SudokuBoard.ShuffledDigits | sudoku_puzzlegenerator.py:131-132 | the candidates are a permutation of the digits 1..9: each digit exactly once, nothing else |
| SudokuBoard.Rejected | sudoku_puzzlegenerator.py:135-140 | a digit the checks reject is the next cell of no solved board |
| SudokuBoard.Admitted | sudoku_puzzlegenerator.py:135-144 | a digit the checks pass, once written, extends the valid prefix |
| SudokuBoard.AllExcluded | sudoku_puzzlegenerator.py:134-147 | when every candidate fails, no solved board starts with the prefix |
| SudokuBoard.Sheet.FillBoard | sudoku_puzzlegenerator.py:128-147 | cells before index are not written; true gives a solved board (81 digits, no repeat in any row, column or box); false only when no solved board extends the prefix |
| SudokuBoard.Sheet.TryDigit | sudoku_puzzlegenerator.py:134-146 | one candidate: success gives a solved board, failure shows that no solved board follows prefix + [n] |
| SudokuBoard.SolvableFromEmpty | sudoku_puzzlegenerator.py:149-152 | a solved board exists, so `_fill_board(0)` cannot return False |
| SudokuBoard.Sheet.constructor | sudoku_puzzlegenerator.py:149-153 | the board is solved and the fully filled board is a copy of it |
| SudokuBoard.SolvedAllPlain | sudoku_puzzlegenerator.py:149-153 | a solved board has 81 digit cells |
| SudokuBoard.Sheet.EmptyRandomCell | sudoku_puzzlegenerator.py:158-162 | one cell that held a non-zero entry becomes 0 and no other cell changes |
| SudokuBoard.Sheet.ReplaceBy | sudoku_puzzlegenerator.py:164-170 | one cell that held a digit 1..9 becomes the marker, that digit is returned, and no other cell changes |
| SudokuBoard.PlainCellsStep | sudoku_puzzlegenerator.py:164-170 | replacing a digit cell removes exactly that cell from the digit cells |
| SudokuBoard.Sheet.BoardValue | sudoku_puzzlegenerator.py:172-178 | a value, the entry itself, exactly for entries that are non-zero and at most 9, negative entries included as in the code (the empty string otherwise) |
| SudokuBoard.Sheet.BoardClue | sudoku_puzzlegenerator.py:180-190 | empty for entries <= 9; for a marker, "stop label" when the stop is truthy, else the label lookup |
| SudokuBoard.ValueOrClue | sudoku_puzzlegenerator.py:172-190 | at most one of value and clue is non-empty, and both are empty for 0 |
| SudokuBoard.Decimal | sudoku_puzzlegenerator.py:189 | `str(stop)` is a non-empty string of digits and minus signs |
| SudokuBoard.DecimalRoundTrip | sudoku_puzzlegenerator.py:189 | `str` of a natural number reads back as that number |
| SudokuLabels.ClueLengthFor | sudoku_puzzlegenerator.py:300-306 | the least i in 1..9 with len(letters)^i above the clue count, or none when no such i exists |
| SudokuLabels.AllLabelsComplete | sudoku_puzzlegenerator.py:317-319 | the labels of length n are exactly the strings of n letters of the alphabet |
| SudokuLabels.AllLabelsDistinct | sudoku_puzzlegenerator.py:317-319 | with distinct letters, the len(letters)^n labels are pairwise distinct |
| SudokuLabels.FreshLabelExists | sudoku_puzzlegenerator.py:317-321 | while fewer labels are used than exist, an unused label exists, so the retry can succeed |
| SudokuGenerator.Generator.constructor | sudoku_puzzlegenerator.py:287-313 | clues per sheet = 81 - 10 - initial values; the label length as ClueLengthFor states; all collections empty |
| SudokuGenerator.Generator.GenerateClue | sudoku_puzzlegenerator.py:315-323 | the label has the label length, uses only the alphabet, was not used before, and is appended to the used labels |
| SudokuAllocation.HeapCount | sudoku_puzzlegenerator.py:333-338 | the heap count is floor(stops * sqrt 7) exactly, at least 2 for one stop or more |
| SudokuAllocation.Distribute | sudoku_puzzlegenerator.py:337-341 | heap-count heaps whose concatenation is a permutation of the markers |
| SudokuAllocation.NonEmpty | sudoku_puzzlegenerator.py:342 | the non-empty heaps, with the same concatenation |
| SudokuAllocation.SplitIntoHeaps | sudoku_puzzlegenerator.py:336-342 | markers shuffled in place; heaps non-empty, longest first, at most heap-count of them, together a permutation of the markers |
| SudokuGenerator.Generator.SplitAll | sudoku_puzzlegenerator.py:334-343 | every digit's list is permuted in place, and its saved heaps split it into at most heap-count non-empty heaps, longest first |
| SudokuGenerator.Generator.MarkHeap | sudoku_puzzlegenerator.py:358-359 | every entry of the heap is mapped to the label, other entries keep theirs |
| SudokuGenerator.Generator.AddTicket | sudoku_puzzlegenerator.py:356-359 | a ticket for the heap and digit, with a fresh label; the entries of the heap are mapped to that label and every other entry keeps its label; for a heap apart from the earlier tickets, every ticket's entries still carry that ticket's label |
| SudokuGenerator.Generator.AddTickets | sudoku_puzzlegenerator.py:355-359 | one ticket per heap, in order; all labels used are distinct; for heaps apart from each other and from the earlier tickets, every marked entry carries the label of a ticket whose heap holds it, and every entry of every ticket is mapped to that ticket's label |
| SudokuGenerator.HeapTickets | sudoku_puzzlegenerator.py:354-359 | the tickets of a digit hold exactly that digit's markers |
| SudokuGenerator.TicketsApart | sudoku_puzzlegenerator.py:336-359 | with no marker listed twice, the heaps of the next digit share no marker with each other or with the tickets of the digits before it |
| SudokuGenerator.MarkedApart | sudoku_puzzlegenerator.py:356-359 | when every ticket's entries are mapped to its label and the labels are distinct, no two tickets share an entry |
| SudokuGenerator.Generator.IssueTickets | sudoku_puzzlegenerator.py:353-359 | the tickets carry distinct fresh labels; every ticket holds markers of its own digit and every marker of every digit is in a ticket of that digit; no two tickets share a marker; every marked entry is mapped to the label of the ticket holding it |
| SudokuAllocation.PlaceStep | sudoku_puzzlegenerator.py:371-373 | after sorting by load, the first stop is a least loaded one; appending the ticket adds it once and keeps the loads within the bound |
| SudokuAllocation.PlaceOne | sudoku_puzzlegenerator.py:371-373 | the ticket is appended to a stop whose load was minimal; the other stops are kept unchanged, only reordered; the tickets grow by exactly that one; loads stay within the bound |
| SudokuAllocation.PlacedFirst | sudoku_puzzlegenerator.py:371-373 | appending to the first stop of a reordering whose first stop is least loaded is a greedy step |
| SudokuAllocation.TraceStep | sudoku_puzzlegenerator.py:368-373 | one more greedy step extends the record of greedy steps by one ticket |
| SudokuAllocation.PlaceTickets | sudoku_puzzlegenerator.py:368-373 | `stops` stops; every ticket on exactly one stop; no two stops differ in load by more than the longest heap; the tickets are placed in their order, each appended to a stop that was least loaded at that moment, starting from empty stops |
| SudokuAllocation.PairLeIsPreorder | sudoku_puzzlegenerator.py:385-386 | Python's tuple order on (label, digit) is a total preorder |
| SudokuAllocation.Pairs | sudoku_puzzlegenerator.py:385-386 | one (label, digit) pair per ticket of the stop, in the stop's order |
| SudokuAllocation.Listing | sudoku_puzzlegenerator.py:385-386 | the stop's (label, digit) pairs, sorted |
| SudokuAllocation.ListStops | sudoku_puzzlegenerator.py:383-386 | stop n lists exactly the pairs of its tickets, sorted |
| SudokuAllocation.IndexStop | sudoku_puzzlegenerator.py:390-391 | every label on stop n is indexed to n; earlier labels stay indexed, to the same stop or a later one; each index names a stop up to n that carries the label |
| SudokuAllocation.IndexStops | sudoku_puzzlegenerator.py:389-391 | every listed label is indexed, and each index names a stop 0..stops-1 that holds the label |
| SudokuAllocation.Deliver | sudoku_puzzlegenerator.py:362-391 | the tickets are ordered biggest heap first (a permutation of them) and placed in that order, each on a then least loaded stop; the stops are listed sorted, then shuffled into a permutation of the listings, and indexed, with the guarantees above; with distinct clues, a clue is carried only by the stop it is indexed to |
| SudokuAllocation.CarriedOnce | sudoku_puzzlegenerator.py:362-391 | with distinct clues, at most one of the shuffled stops carries a given clue |
| SudokuAllocation.ListedOnce | sudoku_puzzlegenerator.py:368-386 | with distinct clues, at most one stop listing carries a given clue, as every ticket is placed on one stop only |
| SudokuAllocation.TicketListed | sudoku_puzzlegenerator.py:362-391 | every ticket's (label, digit) pair is on some stop |
| SudokuAllocation.ListedTicket | sudoku_puzzlegenerator.py:362-391 | every pair on a stop comes from a ticket |
| SudokuGenerator.AllResolve | sudoku_puzzlegenerator.py:353-391 | every marker of every digit leads through its label and the label's stop to (label, digit) on that stop |
| SudokuGenerator.Generator.Allocate | sudoku_puzzlegenerator.py:325-391 | the lists are permuted in place; `stops` stops, each sorted; every marker of digit v leads to (its label, v) on its label's stop, and no other stop carries that label |
| SudokuGenerator.Generator.AlreadySeen | sudoku_puzzlegenerator.py:399-403 | true exactly when a kept sheet has the same fully filled board (`__eq__`) |
| SudokuGenerator.Blank | sudoku_puzzlegenerator.py:405-406 | exactly 10 cells of the solved board become 0, the other 71 keep their digit |
| SudokuGenerator.Generator.Record | sudoku_puzzlegenerator.py:410-412 | the marker is appended to its digit's list, created when missing, and the key order grows only for a new digit |
| SudokuGenerator.FreshMarker | sudoku_puzzlegenerator.py:408-412 | a marker above all earlier ones keeps every marker listed once, under one digit, and keeps every earlier marker |
| SudokuGenerator.Generator.ReplaceCells | sudoku_puzzlegenerator.py:407-412 | one new marker per clue, each recorded under the digit it replaced; the cells are emptied, digits of the solved board, or markers recorded under their digit |
| SudokuGenerator.Generator.Accept | sudoku_puzzlegenerator.py:404-412 | the new sheet is appended, emptied and carved, keeping all sheets laid out and their fully filled boards distinct |
| SudokuGenerator.Generator.MakeSheets | sudoku_puzzlegenerator.py:395-412 | at least one sheet when one is asked for (the first is always new), at most number_of_sheets sheets, with distinct fully filled boards, each laid out |
| SudokuGenerator.Generator.SheetsResolve | sudoku_puzzlegenerator.py:393-416 | after the allocation every marker cell resolves to the digit it replaced |
| SudokuGenerator.Generator.Calculate | sudoku_puzzlegenerator.py:393-416 | at most number_of_sheets sheets, and at least one when one is asked for; no two equal; each solved underneath, with 10 cells emptied and the digits outside the given ones replaced by markers above 100; every marker resolves through the Replacement to (its label, the digit it replaced) on its stop; `stops` stops |

## Left out

- Spreadsheet output is not modelled: `Sheet.output` in both programs, `output_stop` and the style constants. It is formatting through a foreign library.
- Console output is not modelled: `Sheet.print`, `Sheet.print2`, the debug traces and the "seen"/"Too many clues" messages. The "Too many clues" case is modelled as an absent label length.
- Argument parsing, the global `args` and the main blocks are not modelled. The configuration is a `Config` record for Mastermind and the constructor parameters for Sudoku. Of the Sudoku main block, only the renumbering of the stops from 1 is modelled (`OneBased`, `MoveStops`).
- Random draws are choices. The retry recursions of `empty_random_cell`, `replace_by` and `generate_clue` become one choice among the eligible cells or labels. Their preconditions state that such a cell or label exists. Python does not eliminate tail calls, so in the source a long run of unlucky draws ends in RecursionError after about 1000 nested retries even when an eligible cell or label remains; the model does not capture that failure.
- Mastermind.NewSheet: the source loop may draw random lines forever. The model draws at most `maxDraws` lines and reports `DrawsExhausted` when the budget ends before the loop does.
- Mastermind.RandomLine: requires at least one colour when there are columns. With no colours the source's `randint(1, 0)` raises ValueError.
- Mastermind.NewSheet: requires at least one column and one colour. With no columns the source fails with IndexError on the empty domain list; with no colours `randint` fails as above.
- Mastermind.Answer: multiset-consuming scoring, which the test file expects, is not modelled. The model states what the code computes.
- SudokuGenerator.Generator.Calculate: modelled for one call on a freshly constructed generator.
- SudokuGenerator.Generator.Calculate: requires at least one stop and a label length when there are markers. Without them the source fails in `randint(0, -1)` or on the missing `_clue_length` attribute.
- SudokuGenerator.Generator.Calculate: requires at most 71 clues per sheet. With more, `replace_by` runs out of digit cells and its retry recursion ends in RecursionError.
- SudokuGenerator.Generator.Calculate: requires distinct clue letters. With repeats there are fewer distinct labels than the length calculation counts, and once they are all used the retry recursion of `generate_clue` ends in RecursionError (the known weakness noted at sudoku_puzzlegenerator.py:297-299).
- SudokuAllocation.HeapCount: `int(stops * 7 ** (1/2))` is modelled as the exact floor of stops times the square root of 7. Floating-point rounding for very large stop counts is not modelled.
- Mastermind.Config: columns, colours and stops are natural numbers. Negative command-line values are not modelled. In the source a negative `--stops` raises TooManyClues as soon as more than one candidate remains, and negative columns or colours fail as zero does, with IndexError or ValueError.
- SudokuReplacement.Replacement.MoveStops: requires every stop in use to be a key of the translation. Otherwise the source raises KeyError. Its one call site, the `OneBased` renumbering of the generator's stops 0..stops-1, always meets this (`OneBasedStopsAreTruthy`).
- SudokuGenerator.Generator.constructor: the stop count is a natural number. A negative count gives an empty `range` in the source, which behaves as 0.
- Sorting.Sort: its contract does not state the stability of Python's `sorted`, only sortedness and permutation.
- SudokuBoard.Sheet.SameSheet: `__eq__` is a predicate on the fully filled boards, with no contract of its own.
- Python dictionaries iterate in insertion order. The dictionary of markers is modelled as a map plus the list of its keys in insertion order.
