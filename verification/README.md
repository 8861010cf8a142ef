# Verified models of the contest platform's stateful cores

This project models the parts of the platform whose correctness is not visible in any single
function, and proves properties of them in Dafny 4.11. `dafny verify dfyconfig.toml` checks all of it.
Dafny's automatic induction is switched off wherever it would apply, so that every proof is what its body says.

**Filter compiler** (`Filter*.dfy`, `TaskFilter.dfy`; source `api/src/utils/filter.cc`). A filter text is
scanned, its parentheses are matched by a stack pass, a two-stack operator-precedence parser builds a tree, a
typed generator emits code with back-patched jumps, a link pass rewrites the code in place, and a stack machine
runs it. `FilterAst` gives trees a direct meaning (`Eval`) and a type system (`WellTyped`). `TaskFilter.Filter`
is the imperative filter; each of its phases is proved against a function, and those functions are tied
together: the two-stack parser equals a reference parser that splits a chain at its last loosest operator
(`FilterGrammar` says which texts are accepted and which operator of them binds how, from the words alone, and
`FilterText` what each character and operator means), generation reports an error iff the tree is ill typed,
linked code run by the machine computes `Eval`, and printing a tree with the fewest parentheses and compiling
the text runs to the value of the tree. `Fault` stands for an underflow, an index out of range, a wrong operand
kind or a jump that does not advance, so every "halts with" statement is a safety and termination statement too.

**Delta engine** (`Delta*.dfy`, `Diffable.dfy`; source `ui/src/utils/diff.ts` and the code emitted by
`tools/diff-proto`). Messages hold scalar fields and sets of messages, to any depth; each object keeps a local
and a remote copy, a delta and a counter, and children call back upward. `DeltaSpec` and `DeltaCommit` are the
state machine on values; `Diffable.Message` and `Diffable.MessageSet` are the heap objects, every method of
which is proved equal to a step of that machine. The main result: over any run of edits, atomic blocks,
additions, snapshots and commits of the last snapshot, every delta in the tree is exactly the difference.

**Save loop** (`Sync*.dfy`; source `ui/src/utils/sync-controller.ts`, `ui/src/utils/future.ts`). The loop that
sends deltas while edits go on, as a state machine over edits, blocks, responses and waits, and as a class that
refines it.

**Sessions and object ids** (`Session*.dfy`, `Id*.dfy`; source `api/src/routes/session.cc`,
`api/routes/user.cc`). A path-copying trie of heap nodes with lock-free readers and a rebuilding collector;
the list of id blocks of a session, once as heap objects used by one request at a time and once as a state
machine in which every atomic access of overlapping requests is a step.

**Task positions of a KIM** (`Kim*.dfy`; source `api/routes/kims.cc`, `api/routes/kims.sql`). The mapping of
client positions to database positions, the reservation of fresh ones, and the delete and upsert statements
under the table's constraints.

**Smaller cores.** The route trie built in place (`Route*.dfy`; `api/src/routes.cc`), the scan that escapes
brackets outside allowed tags (`TagScanner.dfy`; `ui/src/utils/editor-transforms.ts`), the Base64 codec
(`Base64.dfy`; `api/src/utils/common.cc`) and the connection pool (`ConnectionPool.dfy`;
`api/src/async/pq.cc`).

Where the code does not do what one would expect, the project says exactly when it does:

- `FilterRoundTrip.StringExpressible`: some quoted text, in either kind of quotes, is scanned as the string iff it
  does not end in a backslash; `BackslashHidesQuote` is what happens to a text that does.
- `FilterRoundTrip.BooleanWordsIff`: a "boolean" variable may be passed as the word `w` iff `w` is 0 or 1; for any
  other word `v == 1` compiles and answers wrongly, and `v && 1` (`BooleanWords`) keeps only the lowest bit.
- `DeltaSpec.AtomicExactIff`, `AddExactIff`: an atomic block keeps its message exact iff it does not make the two
  equal copies of its set differ and equal again; `DeltaSpec.TouchAndRevert` is the shortest failing block.
- `SyncSpec.BecomesStuckIff`: which steps leave a waiter behind, after which nothing is ever saved again
  (`SyncSpec.StuckForever`); on pages that switch saving on once only a response can (`SyncSpec.OnlyResponses`).
- `SyncSpec.AnswersIff`: a change made before saving is switched on is unsaved and yet `synchronize` answers true,
  until some change is reported; from then on the answer tells the truth.
- `IdInterleaving.SorryIff`, `LostIff`, `SeparateLosesNothing`: when an id request fails, when a session can no
  longer find a block that it was given, and that neither happens to requests of a session that do not overlap;
  `SorryReachable` and `LostBlockReachable` are runs in which they do.
- `KimOrder.AbsentTaskIff`: a current position claimed for an absent task stands for position 0, and an update
  fails iff two places stand for it, or one does and no position was reserved before.
- `RouteDispatch.DispatchIff`, `NoWayBack`: which requests a registered path answers when dispatch never goes back.
- `Base64.Decoded`: decoding reads beyond its input iff one digit is left over.
- `ConnectionPool.CountIff`, `LoseOne`: the pool's count is idle plus lent connections iff no rollback at the end of
  a handle has failed; a connection whose rollback failed is counted forever, and once all are, `GetConnection` lets
  every request wait.

## Model

| member | source | states |
|---|---|---|
| FilterTokens.Tokenize | api/src/utils/filter.cc:32-116 | The scanning loop yields, for every text, the tokens and errors of the recursive scanner `Lex`, which the print and parse results are about |
| FilterTokens.ScanToken | api/src/utils/filter.cc:41-114 | One iteration: whitespace, parenthesis, the first operator of the table that stands there, string, 64-bit number, name or error, and where the next iteration starts |
| FilterPrint.LexLine | api/src/utils/filter.cc:32-116 | Scanning a line of spaced lexemes reads exactly those lexemes, with no error |
| FilterParser.Contract | api/src/utils/filter.cc:372-390 | Joining two neighbouring operands early leaves the meaning of a chain unchanged if the operator on the left is looser and the one on the right not tighter |
| FilterParser.TopGroup | api/src/utils/filter.cc:374-379 | Finds exactly the run of operators at the top of the stack that share the priority of the top one |
| FilterParser.FoldGroup | api/src/utils/filter.cc:380-388 | Folding that run from the left gives stacks that mean the same chain |
| FilterParser.MergeStacks | api/src/utils/filter.cc:372-390 | On stacks of non-increasing priority with one operand more than operators, merging keeps that shape, leaves nothing tighter than the given priority and means the same chain before any operator of that priority |
| FilterParser.PushOperand | api/src/utils/filter.cc:359-370 | Pending NOTs wrap the operand by parity; a second operand in a row is reported; the stacks keep standing for the gathered chain |
| FilterParser.PushOp | api/src/utils/filter.cc:407-414 | An operator without an operand before it is reported, otherwise the stacks are merged and keep standing for the chain |
| FilterParser.FinishTree | api/src/utils/filter.cc:416-423 | A missing last operand is an error, otherwise the final merge leaves the tree of the whole chain |
| FilterParser.BuildTree | api/src/utils/filter.cc:341-424 | On every range of nested parentheses, well formed or not, the two-stack parser terminates, indexes nothing out of range and returns the tree and the errors of the reference parser |
| FilterParser.Collect | api/src/utils/filter.cc:392-415 | For every token range gathering keeps operators at most as many as operands and operands at most one more |
| FilterParser.CollectErr | api/src/utils/filter.cc:392-415 | Gathering a range only appends errors: what was reported before has no influence on what is gathered or reported |
| FilterGrammar.AssocSplitsAt | api/src/utils/filter.cc:118-138 | A chain with a disjunction splits at its last one, a chain without that has a conjunction at its last one, and any other chain at its last comparison, whichever comparisons it holds |
| FilterGrammar.BuildBinds | api/src/utils/filter.cc:341-424 | The tree of an accepted range has at its root the last disjunction outside parentheses, without one the last conjunction, without either the last comparison, and what stands on either side of it below |
| FilterGrammar.NotsCancel | api/src/utils/filter.cc:357-406 | NOTs before a single operand cancel in pairs, and the last of an odd number is at the root |
| FilterGrammar.AcceptedIff | api/src/utils/filter.cc:341-424 | A range is accepted without a report iff it reads as an expression: operands, each behind any number of NOTs, with operators between them, in parentheses too |
| FilterParens.MatchParens | api/src/utils/filter.cc:464-479 | The stack pass links exactly the matched parentheses, each to the first closing one it is left with, and reports exactly the unmatched ones in order |
| FilterParens.LinksNest | api/src/utils/filter.cc:464-482 | When no opening parenthesis is unmatched the links lie in range and nest, which is what the parser's recursion relies on |
| FilterParens.VariableIds | api/src/utils/filter.cc:446-450 | A name declared twice stands for its last declaration |
| FilterParens.ResolveVariables | api/src/utils/filter.cc:452-462 | Every declared name gets its index and every other one an error, in the order of the text |
| FilterAst.EvalHasType | api/src/utils/filter.cc:266-339 | A well-typed tree evaluates to a value of its static type |
| FilterCode.GenErrorsIffIllTyped | api/src/utils/filter.cc:186-339 | Code generation reports nothing iff the tree is well typed: every error node and every operand that cannot be converted is reported, and nothing else |
| FilterCode.GenWhole | api/src/utils/filter.cc:201-339 | Without errors the generated cells are whole instructions, so a linear pass never takes an operand for an opcode |
| FilterMachine.LinkConcat | api/src/utils/filter.cc:489-502 | Linking commutes with joining whole instruction sequences |
| FilterMachine.RunConversion | api/src/utils/filter.cc:186-198 | A conversion leaves a slot with the truth or the number of the operand, by OP_TEST exactly when an integer becomes a boolean |
| FilterMachine.RunTail | api/src/utils/filter.cc:309-337 | The comparison instructions on converted operands leave the meaning of the operator, also where it is spelled by OP_NOT |
| FilterMachine.RunJump | api/src/utils/filter.cc:559-568 | A jump goes just past the final operator iff the left operand decides, and keeps it on the stack |
| FilterMachine.RunGen | api/src/utils/filter.cc:201-339 | Compiler correctness: at any program counter and over any stack, the linked code of a well-typed tree pushes one slot that denotes the value of the tree, for every valuation |
| FilterMachine.RunLazy | api/src/utils/filter.cc:291-305 | The same for the two short-circuit operators, whichever way the jump goes |
| TaskFilter.ParseVariables | api/src/utils/filter.cc:452-484 | Every variable of a parsed tree is an index of a declaration |
| TaskFilter.ParseBinds | api/src/utils/filter.cc:118-138 | In every accepted text the operator at the root of the tree is the last disjunction outside parentheses, without one the last conjunction, without either the last comparison |
| TaskFilter.CompiledReads | api/src/utils/filter.cc:436-503 | Every text that compiles without an error reads as an expression of operands, NOTs, operators and parentheses |
| TaskFilter.CompiledMeaning | api/src/utils/filter.cc:484-575 | For every text that compiles without an error and every valuation of the declared types, the machine meets no fault and halts with exactly one value, the truth of the parsed tree |
| TaskFilter.UnescapeText | api/src/utils/filter.cc:225-234 | The loop computes the unescaped string |
| TaskFilter.RunLoop | api/src/utils/filter.cc:515-575 | The loop over program counter and stack returns whether the top word is non-zero when the machine halts |
| TaskFilter.Filter.constructor | api/src/utils/filter.cc:436-503 | For every text and declaration list the object holds the errors of all phases and, if the front end has none, the linked program of the reference parser's tree |
| TaskFilter.Filter.EnsureType | api/src/utils/filter.cc:186-198 | Appends the conversion or the error and nothing else |
| TaskFilter.Filter.Generate | api/src/utils/filter.cc:201-339 | Appends to code, pools and errors exactly the piece of the tree, wherever it is called |
| TaskFilter.Filter.GenerateText | api/src/utils/filter.cc:224-250 | Appends a string, or where a pattern is wanted a regex if the engine accepts it and otherwise an error |
| TaskFilter.Filter.GenerateLazy | api/src/utils/filter.cc:291-305 | With the jump length patched in afterwards, the code is that of the short-circuit operator |
| TaskFilter.Filter.GenerateEager | api/src/utils/filter.cc:307-337 | Appends both operands, the conversions that the left operand's type calls for and the operator |
| TaskFilter.Filter.LinkCode | api/src/utils/filter.cc:489-502 | The in-place pass turns whole code into its linked form and touches nothing else |
| TaskFilter.Filter.Matches | api/src/utils/filter.cc:515-575 | A filter that compiled without an error answers, for every valuation, the truth of the tree its text parses to |
| FilterPrint.GatherBinary | api/src/utils/filter.cc:392-424 | Scanning the words of a binary expression gathers a chain whose last loosest operator is the one at the root |
| FilterPrint.WordsBalanced | api/src/utils/filter.cc:464-482 | The parenthesis pass finds every parenthesis of a printed tree closed inside |
| FilterRoundTrip.ParsePrint | api/src/utils/filter.cc:32-138 | Scanning, matching and parsing the minimally parenthesized text of any printable tree gives the tree back, with no error |
| FilterRoundTrip.PrintedCompiles | api/src/utils/filter.cc:436-503 | The text of a printable tree compiles iff the tree is well typed and not a string or regex |
| FilterRoundTrip.PrintedMeaning | api/src/utils/filter.cc:436-575 | From text to result: the printed text of a well-typed tree runs, without a fault, to the truth of that tree under every valuation |
| FilterRoundTrip.StringExpressible | api/src/utils/filter.cc:67-83 | Some quote and text in it are scanned, whatever follows, as exactly one string token with this value iff the value does not end in a backslash |
| FilterRoundTrip.BackslashHidesQuote | api/src/utils/filter.cc:67-83 | A quoted text that ends in a backslash, escaped or not, is reported as unclosed and swallows its closing quote |
| FilterRoundTrip.BooleanWords | api/src/utils/filter.cc:530-533 | The filter `v && 1` compiles and answers 0 for the word 0 and the lowest bit of every other word |
| FilterRoundTrip.BooleanWordsIff | api/src/utils/filter.cc:515-575 | All filters that compile agree with reading the word of a boolean variable as a truth value iff that word is 0 or 1 |
| FilterText.CharClasses | api/src/utils/filter.cc:43-107 | Blanks, digits, quotes and the characters of names, by their codes |
| FilterText.NoTokenIff | api/src/utils/filter.cc:41-114 | A character is reported as starting no token iff it is no blank, parenthesis, quote, minus, digit, letter or underscore and none of the ten operators, written out, stands there |
| FilterText.NumberIff | api/src/utils/filter.cc:86-97 | The numeral of an integer is read as it iff it lies between -9223372036854775808 and 9223372036854775807, and reported otherwise |
| FilterText.UnescapeFirst | api/src/utils/filter.cc:225-234 | The first backslash that stands before a backslash or a quote of either kind is dropped, what stands before it stays, and the text behind the pair is read afresh |
| FilterText.UnescapePlain | api/src/utils/filter.cc:225-234 | A text without such a pair stands for itself |
| FilterText.Sentences | api/src/utils/filter.cc:32-575 | From text to answer: between the numerals of any two 64-bit integers each of `==`, `!=`, `<`, `<=`, `>`, `>=` and the two logical operators answers what it says |
| FilterText.Negation | api/src/utils/filter.cc:266-277 | From text to answer: a negated numeral is true iff it is 0 |
| FilterText.StringSentences | api/src/utils/filter.cc:307-337 | From text to answer: `==` and `!=` between quoted strings compare them, and `~=` asks the regex engine about the left one and the right pattern |
| DeltaSpec.CleanIff | ui/src/utils/diff.ts:87-100 | In an exact tree a counter is zero iff the local copy equals the remote one, all the way down |
| DeltaSpec.MountedExact | tools/diff-proto/src/main.cc:96-122 | A freshly mounted message is exact and holds the same data on both sides |
| DeltaSpec.SetSlotExact | tools/diff-proto/src/fields-scalar.cc:29-53 | A setter keeps its message exact, changes one local value and no remote one, and reports the change of the counter truthfully |
| DeltaSpec.OnSetEventExact | tools/diff-proto/src/fields-set.cc:39-51 | A message whose set has changed and called back truthfully is exact again and calls back truthfully |
| DeltaSpec.OnElementEventExact | ui/src/utils/diff.ts:87-100 | A set whose element has changed or is new and called back truthfully is exact again and calls back truthfully |
| DeltaSpec.ApplyExact | ui/src/utils/diff.ts:56-102 | Every edit at any depth, atomic blocks and additions included, keeps the whole tree exact, unless a block reports the pair (0, 0) |
| DeltaSpec.AtomicExactIff | ui/src/utils/diff.ts:56-70 | An atomic block keeps its message exact iff it does not find both copies of its set equal, make them differ and leave them equal |
| DeltaSpec.AddExactIff | ui/src/utils/diff.ts:72-79 | The same for the block in which an element is added and initialized |
| DeltaSpec.CalledIff | ui/src/utils/diff.ts:56-70 | The edits of a block on a clean set call back iff they make the two copies differ at some time |
| DeltaSpec.ApplyAllConcat | ui/src/utils/diff.ts:56-60 | A block inside a block of the same set is part of it |
| DeltaSpec.TouchAndRevert | ui/src/utils/diff.ts:62-69 | Setting a field of an element and setting it back in one block leaves a counter of 1 on a message that equals its remote copy |
| DeltaSpec.ApplyLocal | tools/diff-proto/src/fields-scalar.cc:29-53 | The bookkeeping never gets in the way: editing the local copy is editing plain data |
| DeltaCommit.SnapshotFits | tools/diff-proto/src/main.cc:124-131 | Every scalar of a snapshot differs from the remote value it was taken against |
| DeltaCommit.SnapshotIsDifference | tools/diff-proto/src/main.cc:124-131 | Writing a snapshot over the remote copy gives the local copy |
| DeltaCommit.CommitExact | tools/diff-proto/src/main.cc:133-155 | Committing a fitting snapshot after any edits keeps the tree exact, leaves the local copy alone, writes exactly the snapshot into the remote copy and reports truthfully |
| DeltaCommit.CommitOfSnapshot | tools/diff-proto/src/main.cc:124-155 | Right after its snapshot a commit leaves no difference at all |
| DeltaCommit.ApplyFits | tools/diff-proto/src/fields-scalar.cc:56-75 | A snapshot keeps fitting through every edit made while its request is in flight |
| DeltaCommit.RunExact | ui/src/utils/diff.ts:56-121 | Delta exactness over every run of edits, snapshots and commits of the last snapshot |
| Diffable.Message.Mount | tools/diff-proto/src/main.cc:96-122 | A mounted message object stands for a clean exact message |
| Diffable.Message.SetField | tools/diff-proto/src/fields-scalar.cc:29-53 | The setter's new state and event are the step of the state machine |
| Diffable.Message.HandleSetEvent | tools/diff-proto/src/fields-set.cc:39-51 | The callback's new state is the step of the state machine, and it calls upward unless propagation is suppressed |
| Diffable.Message.Perform | tools/diff-proto/src/fields-set.cc:32-54 | An edit anywhere below, with the callbacks of every level it passes, is one step of the state machine |
| Diffable.Message.Commit | tools/diff-proto/src/main.cc:133-155 | The commit of the objects is the commit of the state machine, with at most one event at its end |
| Diffable.Message.Synchronize | tools/diff-proto/src/main.cc:124-131 | Nothing iff the counter is zero, otherwise a deep copy of the delta |
| Diffable.MessageSet.HandleElementEvent | ui/src/utils/diff.ts:87-100 | The callback of an element, its count of calls and its suppressed propagation |
| Diffable.MessageSet.AsAtomicChange | ui/src/utils/diff.ts:56-70 | A block of edits ends in one event with the change of the counter iff any of them called back, and in none inside another block of the set |
| Diffable.MessageSet.AddElement | ui/src/utils/diff.ts:72-102 | Mounting a new element and editing it is one atomic block |
| Diffable.MessageSet.Commit | ui/src/utils/diff.ts:111-121 | Commits the listed elements and reports iff the counter has changed |
| SyncSpec.EditInv | ui/src/utils/sync-controller.ts:45-66 | Every edit keeps the invariant of the save loop, whether it starts a save, joins a running one or is suppressed |
| SyncSpec.BlockInv | ui/src/utils/sync-controller.ts:30-43 | So does a block of edits saved together |
| SyncSpec.RespondOk | ui/src/utils/sync-controller.ts:71-77 | After a success the server still equals the remote copy, and the loop ends only with an empty delta |
| SyncSpec.RespondFailed | ui/src/utils/sync-controller.ts:78-84 | After a failure message and server are as before, and the loop ends only if nothing is left or nothing changed meanwhile |
| SyncSpec.SilentSnapshot | tools/diff-proto/src/fields-scalar.cc:39-52 | An edit that calls nobody has not changed the delta, so a request without a raised flag carries the whole current delta |
| SyncSpec.SaveLoopSafety | ui/src/utils/sync-controller.ts:45-87 | Over every interleaving: the server holds the remote copy, a request in flight finds a notifier it can settle, the notifier is settled at most once per run of the loop, an idle document equals the server unless the last save failed, saving was suppressed or a loop could not start, and an undisturbed request carries it all |
| SyncSpec.AnswersIff | ui/src/utils/sync-controller.ts:93-107 | On pages that switch saving on once: while no loop runs `synchronize` answers at once, and true iff the server holds the local copy or no change was ever reported |
| SyncSpec.SynchronizedIff | ui/src/utils/sync-controller.ts:93-95 | Once a change was reported on such a page, `isSynchronized` holds, at any time, iff the server holds the local copy |
| SyncSpec.FailedSave | ui/src/utils/sync-controller.ts:78-106 | After a failed save without later edits no loop runs, the server lacks the changes, the answer is false, and a caller that waited is told false |
| SyncSpec.WaiterTold | ui/src/utils/future.ts:40-62 | Only a response ends the wait of a caller, which is then told true iff the server holds the local copy: true by a success and false by a failure |
| SyncSpec.SavedUnlessFailed | ui/src/utils/sync-controller.ts:45-87 | If no save failed, no loop is running and nobody was left waiting, every change is saved |
| SyncSpec.EditStartsSave | ui/src/utils/sync-controller.ts:45-66 | A change of an idle document is sent iff the notifier is not awaited |
| SyncSpec.LeavesWaiterIff | ui/src/utils/sync-controller.ts:59-86 | A response leaves a waiter behind iff the notifier is awaited, edits were reported during the request and they brought the local copy to where the response leaves the remote one |
| SyncSpec.BecomesStuckIff | ui/src/utils/sync-controller.ts:30-105 | Of all steps exactly such a response, and a wait while no loop runs and the last report is unsaved and unsettled, leave a waiter that nobody wakes |
| SyncSpec.OnlyResponses | ui/src/utils/sync-controller.ts:45-105 | On a page that never suppresses saving again only a response does |
| SyncSpec.StuckForever | ui/src/utils/future.ts:64-69 | From then on no loop ever starts, whatever the page does |
| SyncSpec.StuckReachable | ui/src/utils/sync-controller.ts:45-86 | Five events lead there from a fresh document |
| SyncController.Controller.OnDeltaChange | ui/src/utils/sync-controller.ts:45-66 | The callback's new state, up to the first request |
| SyncController.Controller.RunLoop | ui/src/utils/sync-controller.ts:59-86 | The loop from its head runs to the next request or to its end |
| SyncController.Controller.OnResponse | ui/src/utils/sync-controller.ts:70-86 | Resuming after a response: settle the notifier as the response says, telling a waiter, commit or keep, and go on |
| SyncController.Controller.AsAtomicChange | ui/src/utils/sync-controller.ts:30-43 | A block reports once, with the last counter, iff anything called back |
| SyncController.Controller.Synchronize | ui/src/utils/sync-controller.ts:97-106 | What the caller is answered at once, if it is, and that it waits for the notifier otherwise |
| SessionTrie.PathInjective | api/src/routes/session.cc:119-120 | Different ids have different low-half-first paths |
| SessionTrie.PathBytes | api/src/routes/session.cc:119-120 | The path holds the low half of each byte and then its high half |
| SessionTrie.PathOnto | api/src/routes/session.cc:119-120 | Every path of even length is the path of an id |
| SessionTrie.InsertMap | api/src/routes/session.cc:107-138 | Inserting at a free path adds that path to the lookup map and changes nothing else |
| SessionTrie.GcMap | api/src/routes/session.cc:28-62 | Collection keeps exactly the live sessions under their paths, and no branch without one |
| SessionTrie.GcNothingIff | api/src/routes/session.cc:28-62 | Collection leaves no trie iff no session of it is live |
| SessionStore.GcDfs | api/src/routes/session.cc:28-62 | Whatever is read from the clock and from each session when it is visited, the recursion builds, out of fresh nodes only, a heap trie of the sessions found live and counts exactly its nodes |
| SessionStore.SpineInserts | api/src/routes/session.cc:111-136 | Copied nodes, each linked to the next, with the session at the end, stand for the old trie with the session inserted |
| SessionStore.SessionStore.CopyPath | api/src/routes/session.cc:111-130 | The loop makes fresh copies of the nodes on the path, and its last node has no session iff the id is free |
| SessionStore.SessionStore.Save | api/src/routes/session.cc:107-138 | A free id is added to the published map and nothing else changes; a taken id leaves root, history and session as they were; every root ever published keeps its map |
| SessionStore.CollectedMap | api/src/routes/session.cc:28-62 | Under ids: collection finds a session iff it was there and is live, and leaves null iff none is |
| SessionStore.SessionStore.RunGc | api/src/routes/session.cc:70-82 | The new root holds exactly the live sessions, those not logged out and idle for at most 18 000 000 000 000 ticks, is null iff there are none, and the reported count is the size of its trie |
| SessionStore.Reader.Step | api/src/routes/session.cc:168-177 | A step down keeps what the walk will find equal to what the loaded root held |
| SessionStore.RequireAuth | api/src/routes/session.cc:152-186 | With any saves, collections and logouts between any two steps of the walk, the request is let through iff the root it loaded held a session for the id that has every single right asked for and is not logged out at the end; nobody is refused for rights when none is asked for |
| SessionStore.AllowsIff | api/src/routes/session.cc:180-181 | Testing all rights at once by a mask is testing each single right that the mask asks for |
| IdRanges.Range.TryReserve | api/routes/user.cc:71-83 | Gives the next ids of the block, at most twenty, none of which it gave before, and fails iff the block is used up |
| IdRanges.IdOwner.IsOwnerOf | api/src/routes/session.cc:92-101 | Holds for exactly the ids that were handed to the session |
| IdRanges.IdOwner.RequestIdRange | api/routes/user.cc:68-108 | A request that is alone on its session always succeeds with new ids, from the newest block or, iff all blocks are used up, from a new one twice as long |
| IdRanges.NoIdSkipped | api/routes/user.cc:71-103 | All blocks but the last are handed out whole and the last from its start, and n blocks have 2^(n+1) - 2 ids |
| IdInterleaving.RunKeepsInv | api/routes/user.cc:68-108 | Every atomic step keeps blocks disjoint and below the counter, ranges given to requests inside their block and disjoint, and every id below a block's pointer given to some request |
| IdInterleaving.GivenDisjoint | api/routes/user.cc:68-108 | In every interleaving of the atomic steps of requests of any sessions, no id is given to two requests |
| IdInterleaving.SorryAllGiven | api/routes/user.cc:104-107 | A request only ever fails when every id of the block that it made was given to other requests |
| IdInterleaving.SorryIff | api/routes/user.cc:89-107 | A request that has linked its own block and is done failed iff every id of the block was given to other requests |
| IdInterleaving.SorryReachable | api/routes/user.cc:104-107 | That does happen with two overlapping requests |
| IdInterleaving.LostBlockReachable | api/routes/user.cc:89-103 | Two overlapping requests can link their blocks at the same place, after which the session no longer reaches ids that it was given |
| IdInterleaving.RunKeepsRecord | api/routes/user.cc:85-103 | Every request stays in the list of its session, links its block at most once, and each place holds what was linked there last |
| IdInterleaving.LostIff | api/src/routes/session.cc:92-101 | A linked block cannot be found from the head of its session iff another request later overwrote a link on the chain to it |
| IdInterleaving.SeparateLosesNothing | api/routes/user.cc:68-108 | When requests of a session do not overlap, whatever other sessions do, none fails and the session finds every block that it was given ids of |
| KimSpec.SortStrict | api/routes/kims.cc:112-112 | Sorting puts distinct positions in strictly increasing order and keeps them |
| KimSpec.SortSorts | api/routes/kims.cc:112-112 | Sorting any positions puts them in order and keeps each as often as it was there |
| KimSpec.MappingAre | api/routes/kims.cc:98-128 | Introduced positions get fresh consecutive numbers in order, all others the number of the task that was there |
| KimSpec.RowsAfter | api/routes/kims.cc:130-152 | Exactly the tasks that were moved, or were there and not removed, are in the list afterwards |
| KimSpec.UpdateKeepsInv | api/routes/kims.cc:83-153 | Every well-formed update commits, keeps positions distinct and below the count record, and does not move tasks it does not mention |
| KimSpec.FailsIff | api/routes/kims.cc:77-152 | Which entries make an update fail as not owned, without a count record, or naming a row twice, whatever else they say |
| KimOrder.UpdateKeepsOrder | api/routes/kims.cc:83-153 | If client positions map to database positions in increasing order and introduced ones exceed the existing ones, the new positions put the tasks in the order the client requested, and the enlarged mapping, places of removed tasks included, is increasing again |
| KimOrder.ListingUnique | api/routes/kims.sql:9-19 | The list ordered by position is unique |
| KimOrder.SessionKeepsOrder | api/routes/kims.cc:65-153 | However many updates a client sends, reading the list back by position gives the order it asked for |
| KimOrder.OnlyOwnersCreate | api/routes/kims.cc:74-81 | Over any sequence of requests a KIM comes into being only with a request of a session that owns its id, and the ones before it have changed nothing |
| KimOrder.OthersCreateNothing | api/routes/kims.cc:74-81 | Requests of sessions that do not own its id never create a KIM, and no request removes one |
| KimOrder.AbsentTaskIff | api/routes/kims.cc:98-152 | An update with distinct tasks, current and wanted positions is committed or fails on a taken position; it fails iff two places that tasks keep or take stand for position 0, or one does and no position was reserved before |
| KimOrder.AbsentTasksCollide | api/routes/kims.cc:98-103 | Two absent tasks, each said to be at a position of its own, always collide |
| KimUpdate.KimTasks.Update | api/routes/kims.cc:65-153 | The handler's loops and statements have the outcome of the specification, for every list of entries: not the owner iff the KIM is new and not the session's, no count record iff there is none for an old KIM and an entry wants a position that none has, a row twice iff two entries place one task; any failure leaves the rows as they were |
| KimUpdate.KimTasks.InsertAndSwapTasks | api/routes/kims.sql:94-99 | The upsert moves or inserts every named task, and fails iff a task is named twice |
| KimUpdate.Split | api/routes/kims.cc:130-144 | Which tasks are deleted and which placed, entries that say neither being skipped |
| KimUpdate.GetEditable | api/routes/kims.cc:37-48 | Numbers the tasks from 0 in the order of their positions, which gives a client a view in the same order |
| RouteSpec.OrderIrrelevant | api/src/routes.cc:113-131 | Rules that differ only in order build alike and are the same set |
| RouteSpec.SplitIff | api/src/routes.cc:54-55 | The segments of a path are the only list of texts without slashes that joins back to it, and a bare slash has none |
| RouteSpec.SegIff | api/src/routes.cc:60-64 | A segment is the variable of a name iff it is a dollar sign and that name, and a literal iff it begins with no dollar sign |
| RouteDispatch.DispatchIff | api/src/routes.cc:74-93 | A registered path answers a request iff it has as many segments and takes each part, where a variable takes a part only if no path with the same steps before has it as a literal; then each variable is bound to its own part and nothing else is |
| RouteDispatch.SameName | api/src/routes.cc:23-26 | All paths that share a variable give it the same name |
| RouteDispatch.LiteralAnswers | api/src/routes.cc:80-89 | A path of literals answers its own request |
| RouteDispatch.PathAlone | api/src/routes.cc:74-93 | A path registered alone answers exactly the requests with as many segments whose parts equal its own wherever those begin with no dollar sign, and binds each name behind a dollar sign to its part and nothing else |
| RouteDispatch.NoWayBack | api/src/routes.cc:74-93 | With `/a/b` registered, `/$x/c` does not answer `/a/c` |
| Routes.RouteTrie.AppendVar | api/src/routes.cc:17-31 | Fails iff the name is used twice or the node has another one, otherwise goes to the only variable child; the tree stays wired and no other name changes |
| Routes.RouteTrie.AppendPart | api/src/routes.cc:33-40 | Goes to the child for the literal, made if missing; the tree stays wired |
| Routes.RouteTrie.InsertPath | api/src/routes.cc:50-72 | Succeeds iff the segments are valid, its variables distinct and it clashes with no registered path, and then the trie holds one rule more |
| Routes.RouteTrie.GetRoute | api/src/routes.cc:74-93 | Walking the nodes answers and binds as narrowing the list of registered rules segment by segment does |
| RouteTable.RouteStorage.Build | api/src/routes.cc:113-131 | Succeeds iff the root is absolute or empty and all paths below it are valid and pairwise free of clashes |
| RouteTable.CanBuildIff | api/src/routes.cc:57-59 | Building fails on a relative root and on every segment that is empty, a dot, two dots or a bare dollar sign, and otherwise succeeds iff the rules go together |
| RouteTable.RouteStorage.GetRoute | api/src/routes.cc:138-141 | The route that dispatch chooses among the registered paths, or the fallback |
| RouteTable.RegistrationOrder | api/src/routes.cc:113-131 | Registering the same paths in another order builds iff the first order does, with the same rules to dispatch by |
| TagScanner.Scan | ui/src/utils/editor-transforms.ts:390-439 | For every text the loop escapes exactly the brackets whose neighbouring bracket does not enclose an allowed tag with them |
| TagScanner.IsAllowed | ui/src/utils/editor-transforms.ts:411-420 | A tag is allowed iff it closes an allowed tag other than img, is one, or begins with one and a space |
| TagScanner.AllowedIff | ui/src/utils/editor-transforms.ts:411-420 | A tag without a leading slash is allowed iff what stands before its first space is one of the thirteen names, written out; a tag with one iff the rest is such a name other than img |
| TagScanner.OutputTagged | ui/src/utils/editor-transforms.ts:390-439 | In the output every `<` opens and every `>` closes an allowed tag without brackets inside |
| TagScanner.OutputNames | ui/src/utils/editor-transforms.ts:390-439 | Every `<` of the output is followed by one of the names and a space or `>`, or by a slash, a name other than img and `>` |
| TagScanner.ScanParts | ui/src/utils/editor-transforms.ts:390-439 | A text is scanned piecewise around any pair of neighbouring brackets: the pair stays iff its tag is permitted, and what stands before and behind is scanned on its own |
| TagScanner.CutAtPair | ui/src/utils/editor-transforms.ts:390-439 | Every text with a `<` before a `>` can be cut at such a pair |
| TagScanner.ScanApart | ui/src/utils/editor-transforms.ts:390-439 | In a text without a pair every bracket is escaped |
| TagScanner.ScanTwice | ui/src/utils/editor-transforms.ts:390-439 | A second scan changes nothing |
| TagScanner.UndoScan | ui/src/utils/editor-transforms.ts:390-439 | Taking the introduced escapes back gives the input |
| Base64.Encode | api/src/utils/common.cc:155-179 | Shifting groups of three bytes and overwriting the padding gives the sextets of the bytes in the RFC 4648 alphabet, padded |
| Base64.Decode | api/src/utils/common.cc:128-153 | For every input the loop puts the bytes together from neighbouring digits, and needs a digit beyond the end iff one digit is left over |
| Base64.IndexOfDigit | api/src/utils/common.cc:6-13 | The index table inverts the alphabet |
| Base64.EncodedGroup | api/src/utils/common.cc:155-179 | Each group of four characters gives, in the alphabet written out, the digits of the number that its three bytes are, with `=` for digits that hold no byte |
| Base64.IndexIs | api/src/utils/common.cc:6-13 | The index of each character of the alphabet is its place, and of the other characters only minus, dot, comma and underscore are digits |
| Base64.DecodedGroup | api/src/utils/common.cc:128-153 | Each group of three bytes is the number that its four digits are, for every text |
| Base64.DecodedLengthIs | api/src/utils/common.cc:128-153 | How many bytes any text stands for, by its length and whether its last two characters are `=` |
| Base64.PadBitsZero | api/src/utils/common.cc:155-179 | The bits of the last digit that hold no byte are zero |
| Base64.DecodeEncode | api/src/utils/common.cc:128-179 | Decoding what was encoded gives back every byte string |
| Base64.DecodeUnpadded | api/src/utils/common.cc:128-179 | Also when the padding is cut off |
| ConnectionPool.Pool.ReturnConnection | api/src/async/pq.cc:119-135 | A good connection goes to the longest waiting request or into the pool, a broken one is dropped and only new ones take its place; the pool's invariant is kept |
| ConnectionPool.Pool.PopulatePool | api/src/async/pq.cc:93-110 | Counts exactly the attempts that succeed among the missing connections, serves waiting requests in order with new connections only, notes the time iff an attempt fails, and does nothing during the cooldown |
| ConnectionPool.Pool.GetConnection | api/src/async/pq.cc:142-165 | The answer is a good connection that was not lent and has no open transaction, a place at the end of the queue while nothing is idle, or a rejection while nothing is alive; other lent connections stay lent, requests are served first come, first served, each with a connection that is then lent, no good idle connection is dropped, and a request is answered at once if nobody waits, some connection is neither lent nor lost and creating one works |
| ConnectionPool.Pool.TakeBack | api/src/async/pq.cc:119-135 | A lent connection that comes back is idle or with the first request, or gone if its link is lost; other lent ones stay lent |
| ConnectionPool.Pool.OnStop | api/src/async/pq.cc:167-174 | Every waiting request is rejected and nothing stays idle |
| ConnectionPool.Pool.AllLost | api/src/async/pq.cc:93-110 | When every connection was lost in a failed rollback nothing is idle and nothing can be created |
| ConnectionPool.CountIff | api/src/async/pq.cc:19-34 | The count is idle plus lent connections iff no rollback at the end of a handle has failed |
| ConnectionPool.LoseOne | api/src/async/pq.cc:19-46 | A run in which a connection is lost: two are lent, one begins a transaction, its handle ends and the rollback fails; the other one stays lent and the count stays 2 |
| ConnectionPool.IncreasingOrder | api/src/async/pq.cc:129-134 | Served and waiting requests are in the order in which they were made, none of them twice |
| ConnectionPool.Connection.Transaction | api/src/async/pq.cc:40-46 | The server has an open transaction only if the handle knows of one |
| ConnectionPool.Connection.Destroy | api/src/async/pq.cc:26-34 | A handle without a transaction returns its connection at once to the first request or the pool, any other leaves it to a rollback and the connection lent; other lent connections stay lent |
| ConnectionPool.RollbackAndReturn | api/src/async/pq.cc:19-22 | After a rollback the connection comes back without a transaction, to the first request or the pool; if the rollback fails it never does |

## Left out

- I/O and foreign code: sockets, libpq, FastCGI, timers, the event loop, protobuf encoding and the DOM. Database statements are atomic updates of maps, clocks and the outcomes of foreign calls are parameters, the HMAC of a session id is the id that the storage sees.
- The regex engine: which patterns it accepts and what they match are uninterpreted functions. The wording of filter diagnostics: a diagnostic keeps its kind, its index and its names.
- TaskFilter.Filter.constructor: the shared error node's token has index -1 in both models of it; string and regex addresses are tagged references into the pools instead of machine addresses, and a jump that does not advance counts as a fault.
- 64-bit wrap-around of id counters, sizes and positions, and 32-bit positions of tasks; only the filter's integer literals have a width.
- FilterRoundTrip.ParsePrint: covers trees whose leaves the language can spell; what the parser accepts beyond them, such as a NOT after an operand that is carried to the next one, is covered by FilterParser.BuildTree.
- DeltaSpec.ApplyExact: excludes the atomic blocks of DeltaSpec.AtomicExactIff, and additions under an id that is already there.
- Scalar values that are not equal to themselves, or undefined, and the fields `currPos` and `swapPos`, whose serialization swaps their roles; `serialize`, which copies the delta into a transport object.
- OrderedSetComponent.push, which mounts an element whose local and remote copies differ, and the page code that calls the engine.
- SyncSpec.SaveLoopSafety: a failed request is one that changed nothing on the server, and the server is taken to hold the initial data of an element that was added and not yet saved. Waiters are not promised to be woken (see SyncSpec.BecomesStuckIff).
- The fan-out array of a trie node is a sequence of sixteen references.
- SessionStore.RequireAuth: starts from a signed id; a missing cookie is a rejection before that. The idle limit is applied by the collector only, as in the code.
- KimUpdate.KimTasks.Update: the rows of one KIM and one transaction at a time; foreign keys, names, groups and the check that the id is not zero are left out. Sorting is a library call and modelled by its result.
- KimOrder.SessionKeepsOrder: one client edits the list at a time; a second client makes the first one's positions stale.
- RouteTable.RouteStorage.Build: does not write the API root back into the list of raw paths, which nothing reads afterwards.
- ConnectionPool.Pool.GetConnection: promises no liveness; a queued request can outlive the last connection during the cooldown. Statements that a coroutine sends by itself to open a transaction are not tracked.
- TagScanner.Scan: the trimming of the result and everything the page does with it.
- The URL and hexadecimal codecs, query strings, grading, standings, the integer encoders, mutexes and the bidirectional map, which would add easy members only.
