# FORA semantic-test driver, modelled in Dafny

This project models the driver that runs the FORA language's semantic
tests (`ufora/FORA/test/test.py`). It covers four pieces of that driver:

- **The test-tag classifier.** `isTestCase` decides from a module
  member's metadata whether the member is a test. Its metadata's `outer`
  value must be the symbol `` `test `` or a tuple holding it.
  `extractModuleTestNames` collects the names of those members.
- **The two string transformations.** `sanitizeErrString` packs a FORA
  exception's text onto one line of at most 2505 bytes.
  `replaceWhitespace` normalises a frame descriptor before it is printed.
- **Counting and aggregation.**
  - `executeFORATest` turns a FORA exception into the test's result.
  - `printTestResults` makes each test one pass or one failure.
  - `testModuleStr` imports a module and runs its tests that the filter
    accepts. A parse failure counts as one failed test.
  - `test()` runs every `.fora` file of the test directory in sorted
    order, sums the totals, and returns exit code 1 when anything failed.
- **The frame-graph walker of `dumpReasonerSummary`.** This is a memoised
  depth-first walk from the root frame the forward reasoner produced. It
  counts the distinct reachable frames, records every frame that still
  holds unknown apply nodes (with the stack under which it was first
  reached), and tallies the bad nodes.

Modules:

- `Util` holds `Option`.
- `Tags` holds the classifier.
- `Text` holds the string transformations.
- `Frames` holds the walker and the summary.
- `Runner` holds one module's tests.
- `Suite` holds `test()`.

The module import and the test function may raise. Their outcomes are
modelled as `Raises<T>`: either `Ok` or `Raise` of an `Exception`. The exceptions the driver tells apart are a
parse exception, a FORA exception and any other exception.

The runtime collaborators are parameters bundled in `Runner.Harness`:

- the module importer;
- the optional test filter;
- the test function, either plain execution or reasoning.

In `test()`, the directory listing is an input sequence of file names.

The driver is Python 2 code, so its strings are byte strings. A Dafny
`string` here stands for such a byte `str`, one `char` per byte.

## Model

| member | source | states |
|---|---|---|
| Tags.IsTestCase | ufora/FORA/test/test.py:49-73 | A member is a test exactly when its metadata is present, has an `outer` member, and that value is `` `test `` or a tuple with `` `test `` at some position. Absent metadata or a missing `outer` member gives false. |
| Tags.ScanForTag | ufora/FORA/test/test.py:68-71 | The scan over the tuple from index `ix` finds the tag exactly when some element at or after `ix` equals `` `test ``. |
| Tags.TupleMember | ufora/FORA/test/test.py:60-63 | `getTupleMember("outer")` is absent for a non-tuple or a tuple with no field of that name. Otherwise it is the value of a field with that name. |
| Tags.ExtractModuleTestNames | ufora/FORA/test/test.py:75-88 | A name is extracted exactly when some member has that name and test-case metadata. There are never more names than members. |
| Tags.ExtractKeepsOrder | ufora/FORA/test/test.py:84-87 | The names are appended in the members' order: the tests of a concatenation are the tests of each part in turn. |
| Tags.ExtractedNamesDistinct | ufora/FORA/test/test.py:80-88 | Member names are dictionary keys and so distinct, and then the extracted test names are distinct too. |
| Text.Replace | ufora/FORA/test/test.py:92 | `str.replace` of one character by another keeps the length and changes exactly the positions that held the replaced character. |
| Text.SanitizeErrString | ufora/FORA/test/test.py:90-96 | The output has no newline or tab. A text of at most 2500 bytes keeps its length and has each newline and tab blanked. A longer text becomes exactly 2505 bytes: its blanked first 1250 bytes, then `" ... "`, then its blanked last 1250 bytes. |
| Text.SanitizeIdempotent | ufora/FORA/test/test.py:90-96 | Sanitising an already sanitised text changes nothing. |
| Text.CollapsePairs | ufora/FORA/test/test.py:202 | One `replace('  ', ' ')` pass never lengthens the text. It strictly shortens any text holding two adjacent spaces, leaves any other text unchanged, and introduces no new character. |
| Text.CollapseAll | ufora/FORA/test/test.py:201-205 | The `while True` loop ends, and its result has no two adjacent spaces. |
| Text.ReplaceWhitespace | ufora/FORA/test/test.py:199-205 | The normalised descriptor has no tab, no newline and no two adjacent spaces. |
| Text.ReplaceWhitespaceIsSqueeze | ufora/FORA/test/test.py:199-205 | The fixpoint loop computes the one-pass reference: blank tabs and newlines, then turn every run of spaces into one space. |
| Text.ReplaceWhitespaceIdempotent | ufora/FORA/test/test.py:199-205 | Normalising twice gives the same result as normalising once. |
| Text.ReplaceWhitespaceKeepsText | ufora/FORA/test/test.py:199-205 | Normalising changes only blanks: the non-blank characters survive, in order. |
| Runner.ExecuteFORATest | ufora/FORA/test/test.py:124-133 | A FORA exception from the test function becomes the test's result. A returned value is passed on. Every other exception escapes unchanged. |
| Runner.PrintTestResults | ufora/FORA/test/test.py:98-122 | Every test is exactly one pass or one failure. It is a pass exactly when the result is `True`. |
| Runner.FailureDetail | ufora/FORA/test/test.py:104-115 | Failure text is printed exactly for failed tests. For a caught FORA exception it is `"throw "` followed by the sanitised text: one line, at most 2511 bytes. |
| Runner.PassIffTrue | ufora/FORA/test/test.py:104-133 | When the test does not crash, it counts as (1, 0) exactly when the test function returned `True`. A caught FORA exception always counts as (0, 1). |
| Runner.Selected | ufora/FORA/test/test.py:149-150 | The names the filter lets through are never more than the names given. |
| Runner.SelectedMembers | ufora/FORA/test/test.py:149-150 | A test name is run exactly when it is a test name and the filter is absent or accepts it. |
| Runner.NoFilterSelectsAll | ufora/FORA/test/test.py:150 | Without a filter, every test name is run, in order. |
| Runner.RejectedNamesSelectNothing | ufora/FORA/test/test.py:149-150 | When the filter rejects every name, nothing is run. |
| Runner.FirstCrash | ufora/FORA/test/test.py:149-156 | Reference for escape: no exception escapes exactly when no accepted test crashes. Otherwise the exception is that of the first crashing test. |
| Runner.RunTests | ufora/FORA/test/test.py:146-168 | The loop raises exactly when some accepted test crashes, and then it raises the first crash's exception. Otherwise passed + failed is the number of accepted test names, and passed is the number that returned `True`. |
| Runner.BaseName | ufora/FORA/test/test.py:143 | The module name is the part of the path after its last `/`: it has no `/`, it ends the path, and it is either the whole path or preceded by `/`. |
| Runner.TestModuleStr | ufora/FORA/test/test.py:135-168 | A parse failure on import gives (0, 1). Any other import exception escapes. For an imported module, the counts or the escaping exception are those of its accepted tests, run under the module's base name. |
| Runner.RejectingFilterRunsNothing | ufora/FORA/test/test.py:149-168 | With a filter that rejects everything, an imported module gives (0, 0). |
| Frames.CheckFrame | ufora/FORA/test/test.py:183-191 | The walk ends (the set of unvisited frames shrinks). It only adds to `allFrames` and appends to `unknownWithStacks`, and the frame is visited afterwards. |
| Frames.CheckSubframes | ufora/FORA/test/test.py:190-191 | After the loop over a frame's subframes, every subframe is visited. Nothing visited or recorded is lost. |
| Frames.FirstVisitSound | ufora/FORA/test/test.py:184-188 | A first visit keeps the walk invariant: visited frames are reachable, records are distinct, each record's stack plus frame is a root path, and every visited frame with unknown apply nodes is recorded. |
| Frames.CheckFrameSound | ufora/FORA/test/test.py:183-191 | A call of `checkFrame` keeps the walk invariant. Every visited frame not on the current stack has all its subframes visited. |
| Frames.CheckSubframesSound | ufora/FORA/test/test.py:190-191 | The loop over subframes keeps the same two facts. |
| Frames.RootWalkSound | ufora/FORA/test/test.py:193-195 | The walk from the root visits exactly the frames reachable from it. |
| Frames.PathStaysInClosedSet | ufora/FORA/test/test.py:183-193 | A set holding the root and closed under subframe edges holds every frame on every root path. This is the completeness half of the walk. |
| Frames.DumpReasonerSummary | ufora/FORA/test/test.py:179-217 | `reachableFrames` is the number of distinct reachable frames. The recorded frames are exactly the reachable frames with unknown apply nodes, each recorded once with a root path as its stack. `badApplyNodes` is non-zero exactly when such a frame exists. |
| Frames.BadApplyNodes | ufora/FORA/test/test.py:197-211 | The tally is zero exactly when every recorded count is zero. When every recorded frame has at least one unknown apply node, as the walk guarantees, the tally is at least the number of records. |
| Frames.BadNodesAreReachableTotal | ufora/FORA/test/test.py:197-217 | `badApplyNodes` equals the sum of the unknown apply nodes of the reachable frames that have any, each frame counted once, whatever order the walk took. |
| Frames.FrameLines | ufora/FORA/test/test.py:208-214 | One printed line per frame of the stack plus the frame. Each line is normalised and keeps the non-blank text of the frame's descriptor. Each line is exactly the frame's descriptor with tabs and newlines blanked and every run of spaces turned into one space. |
| Frames.FullyResolvedGraphReportsNothing | ufora/FORA/test/test.py:208-217 | With no unknown apply node anywhere, nothing is recorded and the summary line is not printed. |
| Frames.DiamondCountsSharedFrameOnce | ufora/FORA/test/test.py:183-195 | In the diamond A to {B, C} to D, with unknowns only in D, four frames are reachable and D is recorded once. |
| Suite.LexLeTotal | ufora/FORA/test/test.py:253 | The byte-value string order `sorted` uses is total. |
| Suite.LexLeAntisymmetric | ufora/FORA/test/test.py:253 | Two strings ordered both ways are equal. |
| Suite.SortNames | ufora/FORA/test/test.py:253 | `sorted(os.listdir(...))` is in byte-value order. |
| Suite.SortNamesPermutes | ufora/FORA/test/test.py:253 | Sorting is a permutation of the listing: every name is kept as often as it occurs, and none is added. |
| Suite.SortedUnique | ufora/FORA/test/test.py:253 | Two sorted arrangements of the same names are identical. |
| Suite.ForaFiles | ufora/FORA/test/test.py:253-254 | A listing entry is run exactly when its name ends in `.fora`. |
| Suite.ForaFilesSorted | ufora/FORA/test/test.py:253-254 | The `.fora` files are run in sorted order. |
| Suite.BaseNameOfJoin | ufora/FORA/test/test.py:143 | For a listing entry (a name without `/`), the module name `testModuleStr` derives from `os.path.join(curdir, f)` is `f` itself. |
| Suite.SumUnitsRaisesIff | ufora/FORA/test/test.py:253-264 | The run is interrupted by an exception exactly when some unit raises. |
| Suite.SumUnitsCleanIff | ufora/FORA/test/test.py:263-273 | The total of failures is zero exactly when every unit ran with no failure. |
| Suite.SumListingIsSumOfForaFiles | ufora/FORA/test/test.py:253-264 | Skipping the non-`.fora` entries along the way is the same as summing over the `.fora` files alone. |
| Suite.RunUnits | ufora/FORA/test/test.py:247-264 | The loop's totals (or its escaping exception) are the reference sum over the `.fora` files of the listing, in order. |
| Suite.Test | ufora/FORA/test/test.py:240-273 | `test()` reports the reference totals over the sorted `.fora` files. Its exit code is 1 exactly when something failed and 0 exactly when nothing did. |
| Suite.SuiteIgnoresListingOrder | ufora/FORA/test/test.py:253 | Two listings of the same directory, in any order, run the same units in the same order and give the same totals. |
| Suite.ExitZeroIffAllUnitsClean | ufora/FORA/test/test.py:263-273 | The exit code is 0 exactly when every `.fora` unit of the listing ran without a failure. |

## Left out

- Text.SanitizeErrString: a Dafny `string` stands for a Python 2 byte
  `str`, one `char` per byte. The 2500 and 1250 limits therefore count
  bytes, as `len` and slicing do on such a string. Abridging may split a
  multi-byte UTF-8 character, as Python does; the model says nothing
  about decoding. The same holds for `sorted` (`Suite.SortNames`), which
  compares bytes, and for the length bound of `Runner.FailureDetail`.
- Printing is not modelled: the failure lines, the "TEST STARTING" and
  "TEST SUCCEEDED" lines, the summary lines and the final banner. Nor are
  timestamps, elapsed times, `time.sleep` or the `TCMallocNative` memory
  reading. The model keeps the counts, the failure text
  (`Runner.FailureDetail`) and the normalised frame lines
  (`Frames.FrameLines`).
- The `verbose` flag and the `delay` argument only affect printing and
  sleeping, so they are not parameters.
- The runtime is not modelled:
  - `FORA.importModule`, `FORA.objectMembers`, `extractImplValContainer`,
    `executeForaCode` (`getattr`) and `reasonAboutForaCode` (with its
    lazily built reasoner and compiler, lines 220-238) become the
    importer and test-function parameters of `Runner.Harness`;
  - the reasoner's frames become a finite map of frames;
  - `totalFrameCount()` is passed in as given.
- The test filter, `FORA.objectMembers`, `extractImplValContainer` and
  `getTupleMember` are assumed not to raise. In Python an exception from
  any of them (lines 60, 80 and 150) would escape `testModuleStr` and
  `test()` as a crashing test does. The model has no such path: the
  filter is a total predicate, and the members and their metadata are
  plain values.
- `getTupleMember` is native code. `Tags.TupleMember` takes the first
  field with the requested name.
- FORA value equality with `` `test `` is modelled as structural equality
  of the `Tags.Value` datatype.
- The iteration order of `objectMembers` is unspecified. The members are
  an input sequence, and `Tags.ExtractKeepsOrder` states that this order
  is kept.
- The directory listing is an input, and so is the directory
  (`os.path.split(__file__)[0]`).
- `os.path.join` and `os.path.split` are modelled for POSIX paths only.
- Frames.DumpReasonerSummary: requires that every subframe of a known
  frame is itself known, as the reasoner guarantees. The recursion depth
  of the Python walk is not modelled.
- Suite.SortNames: its own contract states only the order. That it is a
  permutation of the listing is the lemma `Suite.SortNamesPermutes`.
- In reasoning mode, `reasonAboutForaCode` prints the summary and then
  returns `True`. That test function stays a parameter of
  `Runner.Harness`. The summary it prints is modelled on its own by
  `Frames.DumpReasonerSummary`, over a frame graph given as input.
- Frames.BadApplyNodes: its own contract states only zero-ness and a
  lower bound. The exact total is stated by
  `Frames.BadNodesAreReachableTotal`.
- Runner.Selected: its own contract states only the length bound. The
  membership and order facts are the lemmas `Runner.SelectedMembers`,
  `Runner.NoFilterSelectsAll` and `Runner.RejectedNamesSelectNothing`.

Note on the filter: a filter that rejects every test gives (0, 0) only
for a module that imports. A module that fails to parse still gives
(0, 1), because the import happens before any test name is filtered
(lines 137-141). `Runner.RejectingFilterRunsNothing` therefore requires a
successful import.
