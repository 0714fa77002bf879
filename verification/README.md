# Golly pattern writing, rule trees and layer bookkeeping, in Dafny

This project models four pieces of Golly, the cellular-automaton explorer, and proves what they promise.

**The RLE pattern writer** (`writepattern.cpp`)
- `writerle` walks a rectangle of the universe row by row. It turns gaps and runs of live cells into run-length tokens `b`, `o`, `$` and `!`.
- `AddRun` writes each run as an optional decimal count plus its token, wrapping lines at 70 characters.
- Characters go through the fixed-size buffer of `putchar`.
- `writepattern` opens the file, picks the writer for the format, and returns a fixed message for each failure, or the truncation message after an abort.

**Rule trees** (`Scripts/Python/glife/RuleTree.py`)
- `RuleTree` is a hash-consed decision diagram whose nodes are interned by `_getNode`.
- `_init_tree` builds the empty tree, and `add_rule`/`_add` add rules with first-rule-wins.
- `_shrink`/`_recreate` garbage-collect, `_setdefaults` fills unset outputs with the centre state, and `write` produces the file.
- `MakeRuleTreeFromTransitionFunction` builds the tree of a transition function by full enumeration.

**Hexagonal emulation** (`Scripts/Python/glife/EmulateHexagonal.py`)
- Hexagonal transitions are rearranged into Moore-neighbourhood rules.
- The monochrome icon strip is built.
- The rule name is derived from the input path.

**Layer bookkeeping** (`wxlayer.cpp`)
- The tile arithmetic of `CalculateTileRects`.
- The layer-array operations `AddLayer` (and `CloneLayer`/`DuplicateLayer`), `DeleteLayer`, `DeleteOtherLayers` and `MoveLayer`.
- `GetUniqueCloneID`, and the clone counting in `Layer::Layer` and `Layer::~Layer`.

**Modules**

| Module(s) | What they model |
|---|---|
| `OutBuffer` | `putchar` and its buffer |
| `LineEncoder` | `AddRun`, and an RLE body reader (`ParseRuns`) used as its inverse |
| `RleScan` | the row scanner, as the sequence of `AddRun` calls it makes |
| `RleRead` | what an RLE reader does with a run sequence: the cells it places |
| `RleProofs`, `RleAbort` | the scanner's loop invariants and its behaviour under abort |
| `RleWriter`, `PatternWriter` | the whole file and the dispatch |
| `NodeStore`, `NodeText` | interning, and node text with its read-back |
| `RuleTree`, `RuleTreeProofs`, `TransitionTree` | the two tree builders |
| `Hexagonal`, `HexIcons` | the emulation script |
| `TileLayout` | `CalculateTileRects` |
| `Clones`, `Layers` | the layer array |

**How the environment is represented**
- The universe is a finite list of live cells with its rule string. `nextcell` is computed from that list, and its contract is proved (`RleScan.NextCellSpec`).
- The progress dialog is a cancel oracle `cancel: nat -> bool`, asked with the accumulated count at each poll.
- Whether the file can be created is a parameter.
- The algorithm's own macrocell writer is a parameter: its hyper-capability, text, message and abort flag.

## Model

| member | source | states |
|---|---|---|
| OutBuffer.PutChar | writepattern.cpp:37-49 | after any `putchar` `outpos` is in 1..BUFFSIZE; the flushed bytes followed by `outbuff[0..outpos)` grow by exactly the character put; a full buffer is flushed whole first and `currsize` rises by BUFFSIZE (mod 2^32), otherwise nothing is flushed and `outpos` rises by one |
| OutBuffer.PutString | writepattern.cpp:41-49 | a sequence of `putchar` calls adds exactly the string, in order, to what has been put |
| OutBuffer.StartWithHeader | writepattern.cpp:91-92 | the header `sprintf`ed into `outbuff` with `outpos = strlen` is the content so far, with nothing flushed and `currsize` 0 |
| OutBuffer.BufferedFile | writepattern.cpp:91-176 | header, buffered body and the final partial `fwrite` leave in the file exactly the header followed by the body: buffering loses and reorders nothing |
| Decimal.NatToStringValue | writepattern.cpp:62 | the `%u` text of a run count reads back as that count |
| Decimal.NatToStringInjective | writepattern.cpp:62 | different counts have different `%u` texts |
| Decimal.NatToStringLength | writepattern.cpp:59-63 | a number below 10^k has at most k digits, so a 32-bit count has at most 10 and fits `numstr[32]` |
| Decimal.IntToString | Scripts/Python/glife/RuleTree.py:74 | Python's `str` of an integer is non-empty and starts with `-` exactly when the integer is negative |
| LineEncoder.AddRun | writepattern.cpp:53-79 | `*run` is left 0; a newline is written first exactly when `linelen + numlen + 1 > 70`; `linelen` becomes `numlen + 1` after that newline and grows by `numlen + 1` otherwise; the text ends with the token |
| LineEncoder.RunText | writepattern.cpp:61-76 | a run of at most 1 is written as the bare token; a longer run as decimal digits whose value is the run, followed by the token |
| LineEncoder.AddRunLayout | writepattern.cpp:67-77 | the new `linelen` is the column the text ends at; only the first character can be a newline; the text stays within 70 columns whenever the count text is under 70 characters |
| LineEncoder.EncodeWithinWidth | writepattern.cpp:67-77 | over any sequence of `AddRun` calls from `linelen <= 70`, no line exceeds 70 characters and `linelen` is always the length of the unfinished line |
| LineEncoder.EncodeEndsWithToken | writepattern.cpp:76 | the text of a non-empty sequence of runs ends with the last run's token |
| LineEncoder.RunTextParses | writepattern.cpp:61-76 | an RLE reader reads a count-and-token text back as that run, whatever follows |
| LineEncoder.AddRunParses | writepattern.cpp:53-79 | an RLE reader reads one `AddRun` text, wrapped or not, back as its run, whatever follows |
| LineEncoder.ParseEncode | writepattern.cpp:53-79 | an RLE reader recovers exactly the sequence of runs given to `AddRun`, in order, for any starting `linelen`; line wrapping is transparent |
| RleScan.NextCellSpec | writepattern.cpp:113-115 | `nextcell(x, y)` is -1 exactly when row `y` has no live cell at column `x` or beyond, and otherwise the distance to the nearest one, which is live |
| RleScan.Poll | writepattern.cpp:150-156 | no contract of its own: the poll after more than 1024 counted cells; `RleProofs.PollKeepsOutput` states that it changes nothing written |
| RleScan.Visit | writepattern.cpp:113-156 | no contract of its own: one pass of the column loop's body (clamped skip, gap, found cell, poll); `RleAbort.VisitGrows`, `RleAbort.VisitCancel` and `RleProofs.ColumnIteration` state what it does |
| RleScan.ScanRow | writepattern.cpp:112-157 | no contract of its own: the column loop, ending past `right` or on an abort; `RleProofs.ScanRowCorrect` and `RleAbort.ScanRowCancel` state what it does |
| RleScan.EndRow | writepattern.cpp:160-167 | no contract of its own: the end of a row; `RleProofs.RowEnd`, `RowEndAlive` and `RowEndEmpty` state what it does |
| RleScan.ScanRows | writepattern.cpp:108-168 | no contract of its own: the row loop, with the `isaborted` break of line 159; `RleProofs.ScanRowsCorrect` and `RleAbort.ScanRowsCancel` state what it does |
| RleScan.ScanBody | writepattern.cpp:95-168 | no contract of its own: both loops from the zeroed run counters; `RleProofs.ScanBodyCorrect` states what it does |
| RleRead.AliveMerge | writepattern.cpp:132-133 | a live cell right after a pending `o` run places the same cells as lengthening that run by one |
| RleRead.EndOfLineMerge | writepattern.cpp:167 | one more `$` after a pending `$` run moves the reader as lengthening that run does, so blank rows collapse into one `$` run |
| RleProofs.VirtualFlush | writepattern.cpp:135-145 | flushing the pending runs in the order `$`, `b`, `o` places the reader where the scan state says it stands |
| RleProofs.SeeCellRuns | writepattern.cpp:116-145 | a live cell after `skip` dead cells hands `AddRun` exactly the pending runs (`o`, or `$`) and then the `b` run of the gap, and leaves one live cell pending |
| RleProofs.SeeCellMerge | writepattern.cpp:132-133 | a live cell right after a live run makes no `AddRun` call and only lengthens the pending live run |
| RleProofs.ColumnVirtual | writepattern.cpp:116-146 | after a live cell found `skip` columns on, the reader stands one past it and has placed it |
| RleProofs.ColumnShape | writepattern.cpp:116-146 | one live cell keeps the runs canonical (maximal, `b` always followed by `o`) and every count within the rectangle's size |
| RleProofs.ColumnWindow | writepattern.cpp:112-146 | after the column-loop pass that finds a live cell, the reader has placed exactly the window's cells up to and including that cell |
| RleProofs.WindowRowRest | writepattern.cpp:113-148 | when the clamped skip is negative, no live cell of the window lies between `cx` and `right`, so ending the row there loses nothing |
| RleProofs.WindowAddCell | writepattern.cpp:113-131 | stepping past the cell the clamped skip finds adds exactly that cell, which lies inside the rectangle |
| RleProofs.PollKeepsOutput | writepattern.cpp:150-156 | the progress poll changes nothing that is written, and if not cancelled it is the never-cancelling poll |
| RleProofs.RowRestEmpty | writepattern.cpp:147-149 | when no live cell remains in the row the column loop ends with the whole row scanned |
| RleProofs.ColumnIteration | writepattern.cpp:113-156 | one column-loop pass that finds a live cell keeps the loop invariant, and an abort there leaves canonical output |
| RleProofs.ScanRowCorrect | writepattern.cpp:112-157 | the column loop of a row either aborts with canonical, bounded runs or ends with the row fully scanned and the invariant kept |
| RleProofs.ScanRowFound | writepattern.cpp:129-157 | the column loop from a position where a live cell remains ends as `ScanRowCorrect` says |
| RleProofs.ScanRowNone | writepattern.cpp:147-157 | the column loop from a position where no live cell remains ends the row at once |
| RleProofs.RowStart | writepattern.cpp:108-112 | entering a row (`lastchar` reset, `cx = left`) establishes the column-loop invariant |
| RleProofs.RowEnd | writepattern.cpp:158-167 | leaving a row flushes a pending live run, forgets dead cells and adds one pending `$`, keeping the row-loop invariant |
| RleProofs.RowEndAlive | writepattern.cpp:163-167 | a row ending in live cells hands its `o` run to `AddRun` and leaves one more `$` pending |
| RleProofs.RowEndEmpty | writepattern.cpp:167 | a row with no live cell makes no `AddRun` call and only lengthens the pending `$` run |
| RleProofs.RowsFinished | writepattern.cpp:108-168 | after the last row the runs handed to `AddRun` place exactly the window's live cells and end with a live run (the final `$` run is never emitted) |
| RleProofs.ScanRowsCorrect | writepattern.cpp:108-168 | the row loop from any row satisfying the invariant ends with canonical, bounded runs that, unless aborted, place exactly the window's cells |
| RleProofs.ScanBodyCorrect | writepattern.cpp:108-168 | the whole scan of a non-degenerate rectangle gives canonical runs within its size that place exactly its live cells, relative to its corner, unless aborted |
| RleProofs.CanonicalRuns | writepattern.cpp:116-167 | every run the scanner hands `AddRun` is `b`, `o` or `$` with a positive count |
| RleProofs.BoundedRuns | writepattern.cpp:116-167 | every run count is at most the rectangle's width or height |
| RleAbort.VisitGrows | writepattern.cpp:116-156 | a column-loop pass only ever appends to the runs already handed to `AddRun` |
| RleAbort.VisitCancel | writepattern.cpp:150-156 | a pass makes the same `AddRun` calls whatever the user answers, and if not cancelled it is the uncancelled pass |
| RleAbort.ScanRowGrows | writepattern.cpp:112-157 | the column loop only appends runs |
| RleAbort.ScanRowsGrows | writepattern.cpp:108-168 | the row loop only appends runs |
| RleAbort.ScanRowCancel | writepattern.cpp:150-157 | the runs of a row scanned with aborts are a prefix of the runs of the uninterrupted scan, and equal to it when not aborted |
| RleAbort.ScanRowsCancel | writepattern.cpp:155-159 | the row loop with aborts emits a prefix of the uninterrupted runs, and exactly the uninterrupted scan when not aborted |
| RleWriter.BodyRunsWellFormed | writepattern.cpp:108-172 | every `AddRun` call of the body has a token and a positive count bounded by the rectangle's size, the last being the bare `!` |
| RleWriter.WriteRle | writepattern.cpp:82-179 | `writerle` through the buffer writes the file described by `RleFile`: the fixed empty-pattern text, or a header and body ending in `!` and a newline |
| RleWriter.BodyEndsWithBang | writepattern.cpp:170-173 | the body always ends with `!` and a newline, even after an abort |
| RleWriter.EmptyPattern | writepattern.cpp:84-86 | an empty universe or a degenerate rectangle writes exactly `x = 0, y = 0, rule = R`, newline, `!`, newline, and is not an abort |
| RleWriter.RleRoundTrip | writepattern.cpp:108-173 | reading back the body of a save that was not aborted places exactly the rectangle's live cells, relative to its top-left corner |
| RleWriter.RleCanonicalBody | writepattern.cpp:108-173 | the body reads back as canonical runs followed by one bare `!`: no zero counts and no two adjacent runs alike; when not aborted, no trailing dead cells and no `$` before `!` (after an abort the last run may be a `b` run) |
| RleWriter.RleLineWidth | writepattern.cpp:51-79 | with `int` corners, no line of the body is longer than 70 characters |
| RleWriter.RleTruncated | writepattern.cpp:150-173 | an aborted save hands `AddRun` a prefix of the runs of the uninterrupted save; a save not aborted writes exactly the uninterrupted file |
| RleWriter.CentreCellScan | writepattern.cpp:108-168 | the 3x3 rectangle with only its centre live scans to `$`, `b`, `o` |
| RleWriter.CentreCellEncode | writepattern.cpp:53-79 | those runs and `!` are written as `$bo!` |
| RleWriter.BareEncode | writepattern.cpp:61-77 | a run of one on a line with room is written as its bare token, advancing `linelen` by one |
| RleWriter.CentreCellHeader | writepattern.cpp:89-91 | the fixture's header is `x = 3, y = 3, rule = B3/S23` |
| RleWriter.CentreCellFixture | writepattern.cpp:82-179 | the fixture's whole file is `x = 3, y = 3, rule = B3/S23\n$bo!\n` |
| PatternWriter.CannotCreate | writepattern.cpp:196-198 | a file that cannot be opened gives `Can't create pattern file!` and nothing else happens |
| PatternWriter.WriteLife105 | writepattern.cpp:181-184 | no contract of its own: nothing written and a fixed message; `PatternWriter.DispatchMessages` states the message |
| PatternWriter.WriteMacrocell | writepattern.cpp:186-191 | no contract of its own: the native writer only for a hyper-capable algorithm; `PatternWriter.DispatchMessages` states both cases |
| PatternWriter.Dispatch | writepattern.cpp:203-221 | no contract of its own: the `switch` on the format; `PatternWriter.DispatchMessages` states each case |
| PatternWriter.WritePattern | writepattern.cpp:193-229 | no contract of its own: `fopen`, dispatch, and the abort message overriding the writer's; `PatternWriter.CannotCreate`, `DispatchMessages` and `SaveRle` state what it returns |
| PatternWriter.DispatchMessages | writepattern.cpp:204-228 | RLE returns null unless aborted; Life 1.05 gives `Not yet implemented!!!`; macrocell without hyper-capability gives `Not yet implemented.`, and with it the native writer's message; any other format gives `Unsupported pattern format!`; an abort always gives `File contains truncated pattern.` |
| PatternWriter.SaveRle | writepattern.cpp:193-229 | an RLE save creates exactly the file `writerle` describes, returns null when not aborted and "File contains truncated pattern." when aborted, and its outcome is `writepattern`'s for the RLE format |
| NodeStore.GetNode | Scripts/Python/glife/RuleTree.py:49-57 | a node already interned returns its index and changes nothing; a new one gets index `nodeSeq` and is appended to `seq`; `world` and `seq` stay inverse |
| NodeStore.TextInjective | Scripts/Python/glife/RuleTree.py:27-29 | two nodes have the same joined string exactly when they are the same node, so interning by node is interning by the string `_add`, `_recreate` and `_setdefaults` build |
| NodeStore.AppendedInjective | Scripts/Python/glife/RuleTree.py:162-179 | two nodes have the same appended string exactly when they are the same node, so interning by node is interning by the string `_recur` builds |
| NodeStore.TextChildren | Scripts/Python/glife/RuleTree.py:67 | `map(int, seq[i].split()[1:])` of a stored node string gives its children |
| NodeStore.InternedDistinct | Scripts/Python/glife/RuleTree.py:49-57 | no node string is ever stored twice |
| NodeStore.EvalGrow | Scripts/Python/glife/RuleTree.py:53-56 | appending nodes to `seq` changes nothing any existing tree computes |
| NodeStore.EvalNewNode | Scripts/Python/glife/RuleTree.py:74-76 | interning a node of child trees gives a tree that computes what its child for the input at that level computes |
| NodeText.ParseIntToString | Scripts/Python/glife/RuleTree.py:67 | `int(str(i)) == i` |
| NodeText.JoinedIsAppended | Scripts/Python/glife/RuleTree.py:44-46 | the node string built by appending `" " + str(c)` (as `_init_tree` does) equals the one built with `" ".join` (as `_add` does) if and only if the node has at least one child; with none, the joined one has a trailing space the appended one lacks |
| NodeText.AppendedLevel | Scripts/Python/glife/RuleTree.py:172-179 | the first word of an appended node string is its level |
| NodeText.AppendedChildren | Scripts/Python/glife/RuleTree.py:175-178 | the node string `_recur` builds reads back as its children |
| NodeText.JoinedChildren | Scripts/Python/glife/RuleTree.py:67-74 | the node string `_add` writes reads back, via `split()[1:]`, as its children |
| NodeText.JoinedLevel | Scripts/Python/glife/RuleTree.py:74 | the first word of a node string is its level |
| RuleTree.NewTree | Scripts/Python/glife/RuleTree.py:24-47 | a new tree is interned and a valid tree over all `numNeighbors + 1` inputs; `RuleTreeProofs.NewTreeUnset` states its contents |
| RuleTree.Add | Scripts/Python/glife/RuleTree.py:59-77 | `_add` only appends to the store, keeps it interned, and returns a valid tree of the same level; `RuleTreeProofs.AddEval` states what it computes |
| RuleTree.AddRule | Scripts/Python/glife/RuleTree.py:102-109 | a successful `add_rule` leaves a valid interned tree with the same `numStates` and `numNeighbors`; `RuleTreeProofs.AddRuleEval` and `AddRuleErrors` state the rest |
| RuleTree.Recreate | Scripts/Python/glife/RuleTree.py:79-90 | `_recreate` only appends to the target store, keeps it interned, and returns a valid tree of level `lev` |
| RuleTree.Shrink | Scripts/Python/glife/RuleTree.py:92-100 | the shrunk tree is interned and valid; `RuleTreeProofs.ShrinkEval` and `ShrinkReachable` state what it keeps |
| RuleTree.SetDefaults | Scripts/Python/glife/RuleTree.py:111-125 | `_setdefaults` only appends to the store, keeps it interned, and returns a valid tree of the same level |
| RuleTree.Write | Scripts/Python/glife/RuleTree.py:131-141 | the lines are `num_states=` and `num_neighbors=` with the tree's values, `num_nodes=` with the number of node lines, then each stored node's string in index order; the saved tree is valid with the same sizes |
| RuleTreeProofs.InitStep | Scripts/Python/glife/RuleTree.py:43-47 | each pass of `_init_tree` stores one new node of the next level whose children all equal the previous node |
| RuleTreeProofs.InitFromShape | Scripts/Python/glife/RuleTree.py:41-47 | `_init_tree` creates exactly `numParams` nodes, node `i` of level `i + 1`, and the root is the last |
| RuleTreeProofs.InitUnset | Scripts/Python/glife/RuleTree.py:41-47 | every input of the tree `_init_tree` builds leads to the unset output -1 |
| RuleTreeProofs.NewTreeUnset | Scripts/Python/glife/RuleTree.py:24-47 | a new tree has `numNeighbors + 1` nodes, root `numNeighbors`, `shrinksize` 100, and every input unset |
| RuleTreeProofs.AddEval | Scripts/Python/glife/RuleTree.py:59-77 | after `_add`, an input the rule matches whose output was unset gives the rule's output; every other input keeps its output (first rule wins) |
| RuleTreeProofs.AddEachEval | Scripts/Python/glife/RuleTree.py:69-73 | the loop over an input set rewrites exactly the children whose value is in the set |
| RuleTreeProofs.AddUntouched | Scripts/Python/glife/RuleTree.py:67-75 | `_add` leaves every child whose value is not in the input set as it was |
| RuleTreeProofs.AddEachUntouched | Scripts/Python/glife/RuleTree.py:69-73 | the loop leaves a child not among the remaining values unchanged |
| RuleTreeProofs.AddCheckedEval | Scripts/Python/glife/RuleTree.py:106-109 | adding a checked rule from the root, with the possible shrink, gives each input the first-rule-wins output |
| RuleTreeProofs.MaybeShrinkEval | Scripts/Python/glife/RuleTree.py:108-109 | the conditional shrink never changes what the tree computes |
| RuleTreeProofs.AddRuleEval | Scripts/Python/glife/RuleTree.py:102-109 | `add_rule` with inputs of the right length and in range succeeds, keeps the tree's shape, and gives every matching unset input the rule's output, changing nothing else |
| RuleTreeProofs.AddRuleErrors | Scripts/Python/glife/RuleTree.py:102-107 | `add_rule` fails exactly when the input length is not `numParams` or `_add` reaches a value outside `0..numStates-1`, with the warning text as the error |
| RuleTreeProofs.RecreateEval | Scripts/Python/glife/RuleTree.py:79-90 | a tree rebuilt by `_recreate` into another store computes what the old one did |
| RuleTreeProofs.RecreateEachEval | Scripts/Python/glife/RuleTree.py:85-86 | each child rebuilt by the loop of `_recreate` computes what the old child did |
| RuleTreeProofs.ShrinkEval | Scripts/Python/glife/RuleTree.py:92-100 | `_shrink` preserves the rule the tree computes, keeps its sizes, and sets `shrinksize` to twice the new node count |
| RuleTreeProofs.RecreateReach | Scripts/Python/glife/RuleTree.py:79-90 | every node `_recreate` adds to the store is a node of the tree it returns |
| RuleTreeProofs.RecreateEachReach | Scripts/Python/glife/RuleTree.py:85-86 | every node the loop of `_recreate` adds belongs to one of the rebuilt children |
| RuleTreeProofs.ShrinkReachable | Scripts/Python/glife/RuleTree.py:92-100 | after `_shrink` the store holds exactly the nodes reachable from the new root: each stored node is reachable, and each reachable node is stored |
| RuleTreeProofs.SetDefaultsEval | Scripts/Python/glife/RuleTree.py:111-125 | after `_setdefaults` every set output is unchanged and every unset one becomes its offset in the level-1 node, the centre cell's state |
| RuleTreeProofs.SetDefaultsEachEval | Scripts/Python/glife/RuleTree.py:120-121 | the loop completes child `i` with offset `i` |
| RuleTreeProofs.WriteEval | Scripts/Python/glife/RuleTree.py:131-141 | the written tree gives every input the tree's output, with unset outputs replaced by the centre state; the file is `num_states=` and `num_neighbors=` with the tree's values, then `num_nodes=` with the number of node lines that follow |
| RuleTreeProofs.WriteLinesReadBack | Scripts/Python/glife/RuleTree.py:135-139 | each node line of the written file reads back with `split()[1:]` and `int` as that node's children |
| TransitionTree.MakeRuleTree | Scripts/Python/glife/RuleTree.py:150-160 | the constructor builds a tree over all `numNeighbors + 1` inputs; the file is `num_states=` and `num_neighbors=` with the given values, `num_nodes=` with the number of node lines, then each node as `_recur` built its string: the level, then `" " + str(c)` per child, in index order |
| TransitionTree.MakeRuleTreeLinesRead | Scripts/Python/glife/RuleTree.py:172-179 | every node line written as `_recur` builds it (as `MakeRuleTree` ensures), split into words, starts with the node's level, and the rest reads back with `int` to its children |
| TransitionTree.Recur | Scripts/Python/glife/RuleTree.py:172-179 | `_recur` only appends to the store, keeps it interned, and returns a valid tree of level `at`; `TransitionTree.RecurEval` states what it computes |
| TransitionTree.RecurEval | Scripts/Python/glife/RuleTree.py:172-179 | the tree `_recur(at)` builds gives `f` of the parameters chosen above it followed by those its own inputs choose |
| TransitionTree.RecurEachEval | Scripts/Python/glife/RuleTree.py:176-178 | the child built for state `i` fixes `params[numParams - at]` to `i` |
| TransitionTree.MakeRuleTreeEval | Scripts/Python/glife/RuleTree.py:150-179 | for every choice of parameters the tree, read with the parameters in reverse order, gives `f(params)` |
| Hexagonal.MooreRulesAt | Scripts/Python/glife/EmulateHexagonal.py:7-9 | transition `i` becomes rule `i` with inputs `[t0,t4,t2,t5,t1,t3,all,all,t6]` and output `t[7][0]` |
| Hexagonal.MooreInputs | Scripts/Python/glife/EmulateHexagonal.py:8-9 | no contract of its own: the reordered input sets `[t0,t4,t2,t5,t1,t3,all,all,t6]`; `Hexagonal.MooreRulesAt` and `MooreMatches` state what they cover |
| Hexagonal.MooreMatches | Scripts/Python/glife/EmulateHexagonal.py:9 | a Moore input is covered by the rule exactly when its hexagonal cells are allowed by the transition, whatever SW and NE hold |
| Hexagonal.MooreFirst | Scripts/Python/glife/EmulateHexagonal.py:7-9 | the first rule covering a Moore input is the first transition allowing its hexagonal cells |
| Hexagonal.MooreOutputs | Scripts/Python/glife/EmulateHexagonal.py:9 | transitions with state outputs give rules with state outputs |
| Hexagonal.AddRulesEval | Scripts/Python/glife/EmulateHexagonal.py:7-9 | adding rules in order leaves set inputs alone and gives each unset input the output of the first rule covering it |
| Hexagonal.AddRulesErrors | Scripts/Python/glife/EmulateHexagonal.py:7-9 | adding the rules fails exactly when one of them would be refused on its own |
| Hexagonal.HexagonalTreeEval | Scripts/Python/glife/EmulateHexagonal.py:4-10 | the written tree has 9 inputs and gives each Moore input the output of the first transition allowing its hexagonal cells, or its centre state if none does |
| Hexagonal.HexagonalTreeErrors | Scripts/Python/glife/EmulateHexagonal.py:6-9 | the conversion stops exactly when some transition has a value out of range where `add_rule` reaches it |
| Hexagonal.HexagonalTree | Scripts/Python/glife/EmulateHexagonal.py:4-10 | no contract of its own: every transition added in order, then `write`; `Hexagonal.HexagonalTreeEval` and `HexagonalTreeErrors` state the result |
| Hexagonal.BaseName | Scripts/Python/glife/EmulateHexagonal.py:89 | `os.path.split(p)[1]` is the longest suffix of the path without `/`: it has no `/`, and it is the whole path or is preceded by one |
| Hexagonal.LastDot | Scripts/Python/glife/EmulateHexagonal.py:89 | finds the position of the last `.`, or reports that there is none |
| Hexagonal.RuleNameIsPrefix | Scripts/Python/glife/EmulateHexagonal.py:89 | the rule name is a prefix of the file name, and the whole file name when that has no `.` |
| Hexagonal.RuleName | Scripts/Python/glife/EmulateHexagonal.py:89 | the rule name contains no `/`; `Hexagonal.RuleNameIsPrefix` and `RuleNameOf` state the rest |
| Hexagonal.BaseNameOf | Scripts/Python/glife/EmulateHexagonal.py:89 | the file name of `dir/name` is `name` |
| Hexagonal.RuleNameOf | Scripts/Python/glife/EmulateHexagonal.py:89 | `dir/name.ext` gives the rule name `name` |
| HexIcons.MasksAreMasks | Scripts/Python/glife/EmulateHexagonal.py:19-71 | the three masks are 31x31, 15x15 and 7x7, of 0s and 1s |
| HexIcons.PaintMask | Scripts/Python/glife/EmulateHexagonal.py:75-77 | one row/column loop copies the mask, 1 as fg and 0 as bg, into its block and leaves every other pixel as it was |
| HexIcons.PaintIcons | Scripts/Python/glife/EmulateHexagonal.py:15-85 | the grid is 53 by `31*(n_states-1)`; for state `s` the masks go at column `(s-1)*31`, rows 0, 31 and 46; every other pixel stays black |
| HexIcons.MakePlainHexagonalIcons | Scripts/Python/glife/EmulateHexagonal.py:12-85 | the strip with the script's own masks has that shape and contents |
| HexIcons.IconColours | Scripts/Python/glife/EmulateHexagonal.py:72-83 | every pixel is bg or fg, and the parts of a block beside the 15- and 7-pixel masks are bg |
| TileLayout.CDiv | wxlayer.cpp:660-661 | C's truncating `/` equals Dafny's on a non-negative dividend and positive divisor |
| TileLayout.ShapeCells | wxlayer.cpp:639-657 | the `switch` gives `n` cells, or `n + 1` for 3, 5 and 7 layers (with at least two rows and columns), and portrait is landscape transposed |
| TileLayout.LayoutCells | wxlayer.cpp:639-672 | the chosen layout has one cell per layer, plus one spare cell exactly in the 3, 5, 7 cases of the table |
| TileLayout.LayoutFallback | wxlayer.cpp:660-695 | when the table's tiles would be more than 2.5 times wider than high, the layers' tiles form one row: each starts at the top with the full height `bight`, tile `idx` starts at `idx * (bigwd / n)`, all but the last are `bigwd / n` wide, and the last reaches the right edge; when more than 2.5 times higher than wide, one column: full width `bigwd`, tile `idx` at `idx * (bight / n)`, the last reaching the bottom edge |
| TileLayout.RowTiles | wxlayer.cpp:674-695 | in a one-row layout of `q`-wide cells, tile `idx` starts at `(idx * q, 0)` with the full height, all but the last are `q` wide, and the last reaches the right edge |
| TileLayout.ColumnTiles | wxlayer.cpp:674-695 | in a one-column layout of `q`-high cells, tile `idx` starts at `(0, idx * q)` with the full width, all but the last are `q` high, and the last reaches the bottom edge |
| TileLayout.CellIndex | wxlayer.cpp:687-690 | `i * cols + j` numbers the grid's cells row by row, and only the spare cell is numbered `numlayers` |
| TileLayout.PlaceCell | wxlayer.cpp:676-694 | one pass of the placing loop sets that cell's layer rectangle, or widens the last layer by the spare cell, and touches nothing else |
| TileLayout.PlaceTiles | wxlayer.cpp:674-696 | after the placing loop each layer has its cell's rectangle, the last row and column taking the remainders and the last layer also the spare cell's width |
| TileLayout.BorderCell | wxlayer.cpp:702-714 | one pass of the border loop moves that tile in by `tileborder` and shrinks it, again at the grid's right and bottom edges |
| TileLayout.BorderTiles | wxlayer.cpp:698-716 | after the border loop each tile is moved and shrunk so that all borders are `tileborder` wide |
| TileLayout.CalculateTileRects | wxlayer.cpp:632-718 | every layer's `tilerect` is its bordered tile of the chosen layout |
| TileLayout.LayoutFits | wxlayer.cpp:660-672 | the chosen grid of cells fits the viewport |
| TileLayout.SpareContains | wxlayer.cpp:687-690 | the last layer's tile widened by the spare cell holds exactly the points of its own cell and of the spare one |
| TileLayout.PartitionOf | wxlayer.cpp:674-696 | for any fitting layout a point of the viewport lies in layer `idx`'s tile exactly when `idx` is the layer of its cell |
| TileLayout.TilesPartition | wxlayer.cpp:674-696 | without a border, every point of the viewport lies in the tile of exactly one layer |
| TileLayout.BorderGaps | wxlayer.cpp:698-716 | with a border every tile keeps a gap of `tileborder` at its left and top, and another where it meets the viewport's right or bottom edge |
| Clones.FindCloneId | wxlayer.cpp:1499-1505 | the loop returns the smallest available id from 1 on and clears it, or 1 (changing nothing) when none is available |
| Clones.GetUniqueCloneId | wxlayer.cpp:1497-1509 | the id returned is in 1..`MAX_LAYERS`-1 and is no longer available, no other entry of `cloneavail` changes, and it was available exactly when some id was |
| Clones.CloneIdFree | wxlayer.cpp:1497-1509 | when a non-clone is cloned among fewer than `MAX_LAYERS` layers, a free id exists, is unused, and is at most `MAX_LAYERS/2` |
| Clones.RemoveReset | wxlayer.cpp:1720-1725 | after the partner reset and removing the deleted layer, no layer of that group remains a clone |
| Clones.Destroy | wxlayer.cpp:1704-1730 | the destructor keeps the array's length and the size of `cloneavail`; `Clones.DestroyRemove` states the bookkeeping |
| Clones.DestroyRemove | wxlayer.cpp:1704-1730 | deleting a layer keeps `numclones` equal to the number of clones and `cloneavail` true exactly for unused ids; the other layer objects stay, in order |
| Layers.AddLayer | wxlayer.cpp:977-1026 | nothing happens at `MAX_LAYERS`; otherwise a new layer object goes in at `currindex + 1`, which becomes current, every other layer keeps its position relative to the current one and is unchanged, clone id included, and the invariant holds |
| Layers.FirstClones | wxlayer.cpp:1568-1573 | the first layer is no clone and every id from 1 on is available |
| Layers.Construct | wxlayer.cpp:1584-1594 | a layer that is not a clone gets id 0 and changes nothing; a clone of a clone shares its id and counts one more clone; a first clone gives both layers an id now unavailable and counts two |
| Layers.AddClones | wxlayer.cpp:1584-1594 | adding a layer after the current one keeps the clone bookkeeping consistent |
| Layers.AddLayerClones | wxlayer.cpp:1584-1594 | a plain layer is no clone; a clone shares the id of its source, which for a first clone was unused; `numclones` grows by 2 for a first clone, by 1 for a clone of a clone |
| Layers.DeleteLayer | wxlayer.cpp:1068-1111 | nothing happens with one layer; otherwise the current layer is removed, the others shift left in order, each unchanged except that, when the deleted layer was one of the last two clones of its group, its partner's clone id becomes 0; and `currindex` drops by one if positive |
| Layers.DeleteLayerClones | wxlayer.cpp:1704-1730 | deleting a non-clone leaves `numclones`; a clone in a group of more than two subtracts 1; otherwise 2 are subtracted, the partner becomes a non-clone and the id is available again |
| Layers.DestroyOthers | wxlayer.cpp:1704-1739 | after the destructor and the removal, every other layer is the one it was, except that the partner of the last-but-one clone of a group becomes a non-clone |
| Layers.DeleteAt | wxlayer.cpp:1165-1171 | one pass of the deleting loop destroys layer `i` and closes up the array, keeping the bookkeeping consistent |
| Layers.DeleteOtherLayers | wxlayer.cpp:1115-1181 | with more than one layer only the current layer remains, at index 0, no longer a clone, with `numclones` 0 and every id available |
| Layers.MovedAt | wxlayer.cpp:1264-1274 | the shifting loops put the moved layer at `toindex` and shift each layer between by one place towards `fromindex` |
| Layers.MovedShape | wxlayer.cpp:1264-1274 | the moved layer lands at `toindex` and the others keep their relative order |
| Layers.MoveBack | wxlayer.cpp:1264-1274 | moving from `toindex` back to `fromindex` restores the array |
| Layers.MoveClones | wxlayer.cpp:1264-1274 | a move keeps the clone bookkeeping consistent |
| Layers.MoveLayer | wxlayer.cpp:1257-1277 | equal or out-of-range indices change nothing; otherwise the layer moves to `toindex`, the others keep their relative order, and `currindex = toindex` |

## Left out

**I/O and environment**
- `fopen`, `fwrite`, `fclose`: the file is the sequence of characters written. Whether `fopen` succeeds is a parameter.
- The progress dialog is the `cancel` oracle. Left out:
  - the `File size: %.2g MB` message;
  - the floating-point progress fraction (`accumcount / maxcount`);
  - `lifebeginprogress` and `lifeendprogress`.
- `lifealgo`:
  - `nextcell` and `isEmpty` are computed from a finite list of live cells;
  - `getrule` is a field;
  - `hyperCapable` and `writeNativeFormat` are parameters;
  - `getPopulation` only feeds the progress fraction.

**Constants and integer widths**
- `BUFFSIZE` is 8192, as on every platform except Mac OS X, where it is 4096.
- `MAX_LAYERS` is 10. wxlayer.h, which defines it, is not part of this model.
- `wd`, `ht` and `currsize` wrap modulo 2^32.
- Run counts are unbounded integers in the model. `brun`, `orun` and `dollrun` are `unsigned int`, and each is at most the rectangle's width or height (`RleProofs.BoundedRuns`). That is below 2^32 unless the rectangle spans every `int` column or row; only then can a count reach 2^32 and wrap to 0. `linelen` stays at most 70.
- The `INT_MAX` edge: when `right` or `bottom` is `INT_MAX`, `cx = right + 1`, `cx++` and `cy++` overflow `int`, and so can `skip + cx`. That is undefined behaviour in C++, and as written the loops never end. The model uses unbounded integers, so its loops end and `RleWriter.RleRoundTrip` gives a result for such rectangles too.
- OutBuffer.StartWithHeader: requires the header to fit in the buffer. The source `sprintf`s it into `outbuff` unchecked, so an overlong rule string overflows the array.

**Rule-tree scripts**
- The `cache` dictionaries of `_add`, `_recreate` and `_setdefaults` are left out. Within one traversal they only memoise a node already visited at the same level, and in `_add` the result does not depend on anything else.
- Nodes are interned by value (level and children) rather than by their string. `NodeStore.TextInjective` shows this is the same key as the joined string of `_add`, `_recreate` and `_setdefaults`. `NodeStore.AppendedInjective` shows it is the same key as the appended string of `_recur`.
- NodeStore.TextInjective, NodeStore.GetNode, RuleTree.NewTree, RuleTree.AddRule: with `numStates == 0`, `_init_tree` builds the node string `"k"` while `_add`, `_setdefaults` and `_recreate` build `"k "` for the same childless node (`NodeText.JoinedIsAppended`). So the source can store one such node under two keys, where the model stores it once. This changes only `nodeSeq`, and so when `_shrink` runs. It never changes what the tree computes, and never what `write` writes, because `write` shrinks first and `_recreate` rebuilds every string in the joined form.
- `golly.warn` followed by `golly.exit` becomes an error result carrying the warning text.
- `golly.getdir`, the file writing itself, and `ConvertTreeToRule` are left out. `write` is modelled as the list of lines it writes.
- Hexagonal.HexagonalTreeEval: stated for transitions whose outputs are states (at least 0). A negative output would be read as "unset" by later rules, which the script does not intend.
- `os.path.splitext` is the POSIX one: leading dots are not an extension separator.
- The icon masks are lists of the integers 0 and 1, modelled as a subset type of `int`.
- `MakePlainHexagonalIcons` takes `rule_name` but never uses it.
- Hexagonal.BaseName: `os.path.split` is taken with POSIX separators only, so a `\` in a Windows path is not treated as a separator.
- Hexagonal.IsTransition: the model requires at least eight lists and a non-empty output list. A shorter transition, or an empty output list, makes the script raise `IndexError`, and that error path is not modelled.
- RuleTree.py is Python 2 code: `map(int, ...)` followed by `node[i] = ...` (RuleTree.py:67-73, 84-86, 119-121) relies on `map` returning a list. The model reads the children as a sequence, which is that list.
- TransitionTree.Recur: `_recur` passes `f` the dictionary `self.params`, keyed `0..numParams-1` and filled in place (RuleTree.py:156, 174-177). The model passes the sequence of those values in key order. This loses nothing when `f` only reads those keys and keeps no reference to the dictionary.

**wxlayer.cpp**
- `float(a) > float(b) * 2.5` is written `2 * a > 5 * b`. The product is taken in `double`, so this is exact whenever `float` holds the tile sizes exactly, which it does below 2^24.
- All GUI work is left out:
  - `LayerBar` and the bitmap buttons;
  - the Layer menu;
  - tile windows (`CreateTiles`/`DestroyTiles`);
  - `SaveLayerSettings`/`CurrentLayerChanged`;
  - viewports, undo/redo, temporary files;
  - the settings a new layer inherits.
- The "generating, so set `command_pending` and return" deferrals are left out, as are the `inscript` early return of `DeleteOtherLayers` and its `askondelete` save dialogs, through which the user can cancel. The operations are modelled as if the user agreed.
- `DeleteLayer`'s `SaveCurrentLayer` prompt for a dirty non-clone is left out for the same reason.
- `SyncClones` is left out. It copies settings between clones and does not touch ids or counts.
- Layers.DeleteOtherLayers, Layers.MoveLayer, Layers.AddLayer, Layers.DeleteLayer: each requires the bookkeeping invariant `Wf`, which the source keeps implicitly. Every operation preserves it, and the start state has it (`Layers.StartWf`).
- `Fatal` on a failed `new Layer()` is left out.
- The other `Layer` fields set by the constructor are left out; only the clone id matters here.
- `Scripts/slide-show.py`, `wxmain.h` and `liferender.h` hold no logic in this core.
- `writelife105` and `writemacrocell` are modelled only as the message they return and the native writer's result. The native writer is not part of this model.
