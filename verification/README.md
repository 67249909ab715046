# Verification of go-upki's revocation filters, index and checker

A Dafny 4.11 model of go-upki, a reader for Mozilla's CRLite revocation data, with
proofs of what its parts promise each other. Check everything with

    dafny verify dfyconfig.toml

## What is modelled

* **The clubcard filter, from construction to query.** `Words`, `Gf2`, `Windows`:
  64-bit words, 256-coefficient windows, inner products over GF(2). `Equations`,
  `Ribbons`: the builder's in-place equation addition, insertion by on-the-fly
  Gaussian elimination, back-substitution. `Blocks`, `FilterWriter`: one issuer's
  block, the packed columns, the file. `HashWindows`, `Clubcard`, `Crlite`: the query,
  from the bytes of the hash on.
  `Exactness`, `EndToEnd`: the filter answers exactly on everything enrolled.
* **The V4 wire format.** `Readers`, `FilterFormat`: the format as functions from
  the remaining input to a value, with three laws of such readers. `Parser`: the
  cursor-based parser, proved to compute those functions. `RoundTrip`: reading
  back what was written. `Canonical`: writing back what was read, and where in the
  bytes every field lies.
* **The revocation index.** `UpkiIndex`: opening, validation, binary search,
  lookup. `IndexFormat`: which files open and what a lookup finds, in terms of the
  file's bytes. `IndexSections`, `StrayIndexes`: where accepted entry sections lie.
  `IndexWriter`, `IndexRoundTrip`: the writer, and that lookups undo it.
* **A check.** `PassRules`, `CheckPass`, `Verdicts`, `Cache`: one pass over the
  selected filters, what decides it, errors included, and that the index only
  accelerates it. `WholeCache`: filters and index as their writers make them, and a
  pass over both.
* **The Checker under concurrency.** `Protocol`, `ProtocolSteps`,
  `ProtocolSafety`: checks, reopens and closes as interleaved steps against a cache
  that somebody else updates under the atomicity contract, and what holds in every
  run. `ProtocolOpens`, `ProtocolRepeats`: how often a call opens a file. `Schedules`,
  `ProtocolTight`: runs that reach the bounds.

`Arithmetic`, `Sequences` and `Wrappers` hold what several of these share.

SHA-256 is an arbitrary function to 32 bytes and the builder's random generator an
arbitrary stream, so every result holds whatever they are. A file is a fixed byte
string. A filter file is opened through an object that logs its use and yields the
file's contents, "does not exist", or another error; it may yield something else the
next time. In the concurrent model a file name stands for fixed contents: an update
adds and removes files but does not edit them. The sort of the entry sections is an
arbitrary function that sorts, since slices.SortFunc promises no order among equals.
What the source does by panicking is a precondition: serials of at most 255 bytes, at
most 65535 index filters, filenames of at most 32 bytes.

Every lemma carries `{:induction false}`: each induction is written out, and none
rests on the verifier's automatic induction.

## Findings

* **Entry sections.** `validateEntrySections` takes for granted that
  `entryOffset + sectionLen` cannot overflow an int64 (internal/upki_index.go:227-228).
  It can, and then the computed end wraps to a negative number.
  `StrayIndexes.StrayAccepted` gives indexes, for any set of logs, that are accepted
  with every section at 2^63 - 1: outside the file, and for two logs or more on top of
  each other. The smallest is 56 bytes long, the smallest with an overlap 98
  (`StrayIndexes.OverlapAccepted`). A later lookup of such a log fails cleanly.
  The exact conditions on an accepted index: its sections lie inside a file of known
  size if and only if none of them ends past 2^63 - 1
  (`IndexSections.InsideIffNoOverflow`), and no two of them overlap if and only if any
  section that ends past it starts after all the others
  (`IndexSections.DisjointIffOverflowsLast`). Where no section runs across 2^63 - 1,
  exactly the well-formed indexes are accepted (`IndexFormat.OpensIffWellFormed`).
* **Files opened per call.** The comment on `Check` says that each filter file is
  opened at most once per call (upki/check.go:169-170). The set of files already
  seen is local to a pass, so this holds of a pass (`CheckPass.CheckOnce`) but not of a
  call: `ProtocolTight.TwoUpdatesSuffice` is a run in which one call opens one file
  three times. A call opens a file at most once more than it found some file missing,
  hence once if it found none missing, and never more than three times
  (`ProtocolOpens.OpensPerCall`). A call can open a file twice if and only if an index
  update reselects the file: some version has the call open it before it gets to
  another file, an update does without that other file, and a version no older than
  that update has the call open the first one again
  (`ProtocolRepeats.OpenedTwiceIffReselected`).
* **Missing files.** Two cache updates becoming visible during one call are needed
  (`ProtocolSafety.MissingFileNeedsTwoUpdates`) and enough
  (`ProtocolTight.TwoUpdatesSuffice`) for a check to surface a missing-file error.
* **Serials enrolled twice.** The builder accepts an issuer that lists a serial both as
  revoked and as not revoked; such a serial is answered as not revoked
  (`Exactness.ExactOnUniverse`).

## Model

| member | source | states |
|---|---|---|
| Gf2.DotRealigned | internal/test/clubcard_encode.go:319-332 | Moving a window's coefficients down to its lowest set one while moving the origin up by as much leaves its inner product with every assignment unchanged |
| Equations.Equation.Add | internal/test/clubcard_encode.go:308-333 | On every assignment the new equation is violated exactly when one of the two summands is; it ends up zero or aligned, two aligned summands give a strictly larger origin, and it reaches no further than they did |
| Ribbons.Eval | internal/test/clubcard_encode.go:337-351 | The windowed word loop computes the GF(2) inner product of the 256 coefficients with the column, for every column length and offset, reading zero past the end |
| Ribbons.StoredSystem | internal/test/clubcard_encode.go:375-379 | Storing the reduced equation in its empty row turns the solution set into the old one intersected with the inserted equation's, and keeps row i aligned at i |
| Ribbons.FullyReduced | internal/test/clubcard_encode.go:369-371 | An insertion reduced to zero is consistent with the rows on all their solutions or on none, as its constant term says |
| Ribbons.Ribbon.Insert | internal/test/clubcard_encode.go:364-382 | If accepted, the solutions become exactly those that also solve the equation; if refused, the rows are unchanged and no assignment solves both; nonzero row i stays aligned at i, and the table never exceeds m + 255 rows |
| Ribbons.BackSubstitute | internal/test/clubcard_encode.go:390-398 | Writing unknown i satisfies row i and disturbs none of the rows above it |
| Ribbons.SolutionUnique | internal/test/clubcard_encode.go:384-401 | The free bits determine the whole column: solutions that agree on the empty rows and past the table are equal |
| Ribbons.Ribbon.Solve | internal/test/clubcard_encode.go:384-401 | For every stream of random words the column satisfies every row, takes its free bits from consecutive draws, is zero past the rows, and has the four words of padding |
| Blocks.HomogeneousAccepted | internal/test/clubcard_encode.go:228-232 | An equation with constant term zero is never refused by a system of such equations |
| Blocks.InsertAll | internal/test/clubcard_encode.go:204-208 | After inserting all revoked items the solutions of the system are exactly the assignments that put every one of them on the zero side |
| Blocks.SolveApprox | internal/test/clubcard_encode.go:204-213 | Every column puts every revoked item on the zero side; all columns are equally long, and long enough for any query window |
| Blocks.SelectUniverse | internal/test/clubcard_encode.go:217-238 | The exact filter's universe is the revoked items followed by exactly the good ones the approximate filter lets through, in order |
| Blocks.SolveExact | internal/test/clubcard_encode.go:241-251 | Revoked items evaluate to zero, every other item to one unless recorded as an exception, and only items that are not revoked are recorded |
| Blocks.RankFor | internal/test/clubcard_encode.go:197-202 | The rank is the floor of the binary logarithm of the ratio of good to revoked serials, and zero unless the good outnumber the revoked |
| Blocks.ExceptionsNotRevoked | internal/test/clubcard_encode.go:228-232 | Every recorded exception is a serial that is not revoked |
| Blocks.SolvedBlock | internal/test/clubcard_encode.go:185-254 | The solved segments classify the issuer's whole universe |
| Blocks.BuildBlock | internal/test/clubcard_encode.go:185-254 | For every hash function and random stream: revoked serials pass both filters, no serial enrolled as not revoked is answered as a member, exceptions are never revoked serials, an all-revoked issuer gets an inverted empty block, and the exact filter is sized by what survives the approximate one |
| FilterWriter.SortBlocks | internal/test/clubcard_encode.go:71-81 | The result is a permutation of the blocks, ordered by descending rank and then by id |
| FilterWriter.PlaceBlocks | internal/test/clubcard_encode.go:83-95 | Each block's offsets are where its segments start in the packed columns; nothing else changes |
| FilterWriter.FilterBytes | internal/test/clubcard_encode.go:63-154 | The bytes encode the coverage, one solved and placed block for every issuer and none besides, and their packed columns |
| Exactness.ColumnsAligned | internal/test/clubcard_encode.go:71-74 | Ahead of a block of rank above c, column c is as long as column 0, which is why one offset serves all of the block's columns |
| Exactness.DotInSegment | internal/test/clubcard_encode.go:180-184 | A 256-bit window that starts in a segment's rows stays inside the segment wherever the segment is placed |
| Exactness.PackedApprox | internal/test/clubcard_encode.go:83-95 | Querying packed column c at the block's offset plus a row equals querying the block's own segment c at that row, for every block of rank above c and every row below its modulus |
| Exactness.ExactAgrees | internal/test/clubcard_encode.go:91-94 | The same for the exact filter column and its offset |
| Exactness.MemberIsAnswer | internal/clubcard.go:52-89 | Membership queried on the packed filter is the block's own answer, for every hash and serial |
| Clubcard.BitsXorIsZero | internal/clubcard.go:139-153 | The result says whether the GF(2) inner product of the 256 coefficients with the column bits from the row on vanishes, the quantity the builder's evaluation computes |
| HashWindows.CoefficientBit | internal/clubcard.go:64-68 | Coefficient p of the query is bit p modulo 8 of byte p / 8 of the hash, the first one forced |
| HashWindows.WindowOfHash | internal/clubcard.go:123-133 | All coefficients are the hash's bits, and rows derive from its last eight bytes read backwards as one number |
| Clubcard.MemberIsQuery | internal/clubcard.go:52-89 | For every block, inverted ones with a nonzero modulus included, membership is what the hash's own bytes say: the rows they give vanish in every column of the rank and in the exact column, and the serial is no exception, up to polarity |
| Clubcard.Contains | internal/clubcard.go:52-89 | The query computes that membership; an empty block answers its polarity |
| Windows.WindowStep | internal/clubcard.go:144-150 | One word of the loop adds exactly 64 products to the parity, across the word straddle |
| Words.ParityXor | internal/clubcard.go:149-152 | The parity of the exclusive or is the exclusive or of the parities |
| Words.OnesCountParity | internal/clubcard.go:152 | The low bit of the population count is the GF(2) sum of the bits |
| FilterFormat.AcceptedPrefixFree | crlite/parser.go:69-71 | No accepted file is a proper prefix of another accepted file |
| FilterFormat.GuardsRejectNothing | crlite/parser.go:94-99 | Dropping the checks of counts against remaining input changes neither the accepted files, nor what they parse to, nor the error |
| Readers.GuardIsFree | crlite/parser.go:236-240 | A pre-allocation check by a true lower bound on the item size never changes the outcome of a counted read |
| Parser.ReadCoverageMap | crlite/parser.go:88-123 | The cursor loop with its duplicate check inside returns what reading all entries first and then requiring distinct log ids returns, and stops at the same place |
| Parser.ReadMeta | crlite/parser.go:332-375 | The cursor-based block entry reader agrees with the format, including the polarity flag check and the exception set |
| Parser.ReadBlockTable | crlite/parser.go:269-310 | The same for the block table and its duplicate ids |
| Parser.ReadColumn | crlite/parser.go:230-250 | The same for a column filled word by word in place |
| Parser.ValidateBlocks | crlite/parser.go:217-226 | Accepts iff every block's rank is at most the column count |
| Parser.FromBytes | crlite/parser.go:40-74 | The parser computes the wire format: version and reserved byte, coverage, filter, and no trailing bytes; it refuses a file for its version iff its first byte is not 4 |
| Canonical.AcceptedIffWritten | crlite/parser.go:40-74 | A file is accepted iff it is, byte for byte, what the writer makes of some coverage, block entries and columns that fit the wire, no log or block twice and every rank within the column count; and it parses to them |
| Canonical.CoverageMapLayout | crlite/parser.go:76-87 | The coverage is a two-byte count and 48-byte entries: log, first and last timestamp |
| Canonical.BlockLayout | crlite/parser.go:312-331 | A block entry is its id, modulus, rank, offset, exact modulus and offset, polarity, and counted exceptions, each in its place |
| Canonical.ColumnLayout | crlite/parser.go:228-250 | A column is a four-byte word count and that many eight-byte words, most significant byte first; bit p of the column is bit p modulo 64 of word p / 64 |
| ByteStrings.GetUintDigit | crlite/parser.go:36-39 | The digits to base 256 of a number read are the bytes it was read from, the most significant first |
| RoundTrip.BlockReads | internal/test/clubcard_encode.go:109-134 | Reading a written block entry recovers its id, offsets, moduli, rank, polarity and exception set from any input that starts with it |
| RoundTrip.ParseEncoded | internal/test/clubcard_encode.go:97-153 | Parsing a written file recovers coverage map, block entries and columns, and succeeds iff no log id and no block id repeats and every rank is within the column count |
| Exactness.ProducedParses | internal/test/clubcard_encode.go:57-63 | A built file parses iff no log and no issuer is listed twice, and then every block can be queried |
| Exactness.ExactOnUniverse | internal/test/clubcard_encode.go:24-46 | The main theorem: on a built file that parses, a query covered by the enrolment answers good for every serial enrolled as not revoked and revoked for every other enrolled serial, and an uncovered query answers not covered |
| Exactness.UnknownIssuer | crlite/crlite.go:139-142 | On a built file, an issuer that was not enrolled is reported as not enrolled, or not covered if no timestamp is covered |
| EndToEnd.SizesSuffice | internal/test/clubcard_encode.go:101-137 | Limits on the enrolment alone under which every count and offset fits its wire field |
| EndToEnd.BuildAndQuery | internal/test/clubcard_encode.go:63-154 | Build, serialize, parse and query in one run: when what was built fits the wire fields, the file is readable iff no log and no issuer is listed twice, and then every enrolled serial gets its own status |
| Crlite.ContainsAt | crlite/crlite.go:133-149 | Not covered, not enrolled, revoked or good, in that order of precedence |
| Crlite.Contains | crlite/crlite.go:28-39 | The answer depends on the timestamps only through whether one of them is covered |
| UpkiIndex.OrderLifts | internal/upki_index.go:180-200 | Comparing neighbours orders every pair of directory entries, hence log ids are unique |
| UpkiIndex.FindLog | internal/upki_index.go:351-369 | On an ordered directory binary search hits iff the log is present, at the entry a linear scan finds |
| UpkiIndex.ValidateLogDirOrder | internal/upki_index.go:189-200 | Accepts iff neighbouring log ids are strictly ascending |
| UpkiIndex.ValidateEntrySections | internal/upki_index.go:212-251 | Whatever order the sort gives equal starts, accepts iff every section is in bounds in int64 arithmetic and no two neighbours after sorting overlap |
| UpkiIndex.NewIndexFromReader | internal/upki_index.go:89-150 | Opening computes the index format and yields only ordered directories |
| IndexFormat.OpensIffWellFormed | internal/upki_index.go:89-150 | Where no section runs across 2^63 - 1, a file opens iff it starts with the magic text, holds its tables, has legal names and lexicographically ascending logs, and every section lies behind the tables, in the file, and apart from the others |
| IndexFormat.OpenedView | internal/upki_index.go:89-150 | Any opened file starts with the magic text; its names are legal and stand in their slots, its logs ascend, and its sections start behind the tables |
| IndexFormat.LegalIffValid | internal/upki_index.go:152-178 | The name check admits exactly names of 1 to 32 bytes over the alphabet of letters, digits, hyphen, full stop and underscore, other than the two directory references |
| ByteStrings.CompareIsLexicographic | internal/upki_index.go:189-200 | Comparing negative means coming first: smaller at the first difference, or a proper prefix |
| UpkiIndex.Lookup | internal/upki_index.go:305-342 | The loop computes the lookup: a short read or any filter index out of range, matching or not, is an error |
| IndexFormat.LookupExact | internal/upki_index.go:305-342 | For every view: a lookup is an error iff the log is listed and its section cannot be read in full or has an entry naming a filter that does not exist, whatever the instant; otherwise it gives the names of exactly the entries containing the instant, in order and with multiplicity |
| UpkiIndex.Index.Close | internal/upki_index.go:272-285 | The closer is invoked on the first call and never again |
| IndexSections.InsideIffNoOverflow | internal/upki_index.go:223-232 | For a reader of known size the accepted sections lie between the tables and the end of the file iff none of them ends past 2^63 - 1 |
| IndexSections.DisjointIffOverflowsLast | internal/upki_index.go:239-248 | The nonempty accepted sections are pairwise disjoint, although only neighbours are compared and equal starts may be sorted either way, iff any section that overflows starts after all others |
| StrayIndexes.StrayAccepted | internal/upki_index.go:223-232 | For any ascending logs, an index that is accepted although its sections lie outside the file and, from two on, overlap; looking up any of the logs is an error |
| StrayIndexes.OverlapAccepted | internal/upki_index.go:239-248 | A 98-byte index of two logs that is accepted although their sections overlap |
| IndexWriter.IndexBytes | internal/test/index_encode.go:36-99 | The bytes encode a directory of exactly the logs that some filter covers, in strictly ascending order, with each log's entries in filter-list order |
| IndexRoundTrip.WrittenOpens | internal/upki_index.go:89-150 | Every index written from valid filenames within the count limits is accepted |
| IndexRoundTrip.WrittenLookup | internal/upki_index.go:305-342 | A lookup in a written index returns exactly the filenames of the coverage entries that claim the log at the instant, in filter-list order and with multiplicity |
| CheckPass.QueryFilter | upki/check.go:338-350 | The error is "missing" iff the file does not exist, "unreadable" iff opening or reading fails otherwise, "malformed" iff it does not parse; otherwise the filter's own status |
| CheckPass.CheckOnce | upki/check.go:237-296 | Whatever happens to the cache meanwhile, the pass opens no file twice; an open that fails or says revoked is the last and decides the result, its error passed on; if none does, the pass fails iff a lookup does, and otherwise weighs the answers; and result and opens are those of the pass over any cache that gives each file the answer its one open gave |
| PassRules.OpensDecide | upki/check.go:246-295 | The same of every pass, whatever the files answer and whichever lookups fail |
| Verdicts.FirstDecisiveWins | upki/check.go:264-272 | The first selected file that cannot be queried or says revoked decides the pass, whatever comes after it |
| Verdicts.FirstInvalidLookupFails | upki/check.go:252-255 | A failing lookup fails the pass if no file selected before it was decisive |
| CheckPass.ReplayExplains | upki/check.go:242-258 | Such a cache exists: since no file is opened twice, replaying the logged opens gives every answer the pass saw |
| Verdicts.PassIsDecision | upki/check.go:162-174 | When every lookup and read succeeds the result is a decision over the set of selected filters: revoked wins, then not revoked, then inconsistent iff all of them deny coverage |
| Verdicts.OpensAllChosen | upki/check.go:158-170 | Such a pass opens every selected filter exactly once, unless a revoked answer ends it early |
| Verdicts.VerdictIndependence | upki/check.go:246-286 | The result is unchanged by permuting or repeating timestamps and by dropping the de-duplication |
| Cache.PassIsBruteForce | internal/upki_index.go:55-56 | On an exact index a pass gives the verdict of querying every filter in the cache, and never reports an inconsistent index |
| Cache.WrittenIndexExact | internal/test/index_encode.go:11-29 | An index written from distinct filenames and the filters' own coverage is exact |
| Cache.CheckWrittenCache | upki/check.go:237-296 | Write the index, open it, run a pass: the verdict of querying every filter file |
| WholeCache.CacheIsExact | upki/check.go:151-174 | Over filters as the builder makes them and an index as its writer makes it from their coverage, a pass answers revoked if a covering filter has the serial revoked, else not revoked if one has it as good, else not covered, provided every covering filter that enrols the issuer enrols the serial |
| WholeCache.BuildCacheAndCheck | upki/check.go:237-296 | Build the filters, write the index, open it and run a pass: the same verdict, for every random stream |
| ProtocolSteps.StepInv | upki/check.go:122-149 | Every step of any check, reopen, close or update keeps the protocol invariant |
| ProtocolSafety.ReadsThroughOpenIndex | upki/check.go:123-126 | In every run no check reads through a closed index, nor through any but the installed one |
| ProtocolSafety.HandlesAccountedFor | upki/check.go:76-79 | In every run no index is closed twice, and whenever the write lock is free the only open index is the installed one, all others having been closed |
| ProtocolSafety.ClosedIsAbsorbing | upki/check.go:298-311 | Once closed the Checker stays closed: no retry in flight reinstalls an index |
| ProtocolSafety.MissingFileNeedsTwoUpdates | upki/check.go:212-231 | In every run a call that returns a missing-file error had at least two cache updates become visible between its start and its return, whoever did the reopening |
| ProtocolSafety.AnswerFromOneSnapshot | upki/check.go:233-244 | In every run each answer a call returns is the decision over all files that one index version selects for it, and that version was the installed one from the snapshot taken during the call until the return |
| ProtocolSafety.VerdictIsPass | upki/check.go:237-296 | The concurrent model's verdict of a version is the result of the pass over that version's index |
| ProtocolSafety.ResultsHaveCauses | upki/check.go:212-224 | In every run each result has its own cause: a call reports a closed Checker iff it returns while the Checker is closed, a failed reopen only from a failing reopen under the write lock, a missing file only for a missing file |
| ProtocolSafety.FailuresSurface | upki/check.go:221-223 | A snapshot of a closed Checker and a failing reopen end the call at once with that error |
| ProtocolOpens.GivesUpAfterRetries | upki/check.go:226-231 | A call returns a missing-file error only after finding a file missing in its first pass and in each of its two retries |
| ProtocolOpens.OpensPerCall | upki/check.go:169-170 | In every run a call opens a file at most once more than it found some file missing, and at most three times |
| ProtocolRepeats.ReselectedOpensTwice | upki/check.go:169-170 | For any cache whose updates reselect a file, a contract-obeying run in which one call opens it twice |
| ProtocolRepeats.OpenedTwiceIffReselected | upki/check.go:169-170 | The exact condition: some run has a call open a file twice iff an update reselects the file for it |
| ProtocolTight.TwoUpdatesSuffice | upki/check.go:227-231 | A contract-obeying run in which exactly two updates leave a check with a missing-file error, after it opened one file three times |

## Left out

- Machine words: a `uint64` is the list of its 64 bits with the operators defined bit by bit, not Dafny's `bv64`. The builder's constant terms and its evaluation result are booleans.
- Integer widths elsewhere: positions, offsets and moduli are natural numbers. Row origins stay below m + 255 and offsets come from 32-bit fields, so the `uint64` sums of the source do not wrap; the one sum that can wrap, in the section check, is modelled in int64.
- ProtocolSafety.AnswerFromOneSnapshot: errors other than a missing file, whether of a lookup, a read or a parse, can strike a pass at any point and end the call; nothing is said of when they do.
- Liveness and fairness of the read-write lock: the steps allow every interleaving the lock allows, and more.
- Determinism of builds: results hold for every random stream, so nothing is said of the fixed seed.
- `InvertedByte` and `RankByte`, which exist to emit malformed fixtures, are absent.
- Errors are reduced to the classes that drive control flow; message texts and wrapping are not modelled.
- SCT extraction, serial extraction and the chain-length check (upki/sct.go, the head of `Check`): timestamps, issuer hash and serial are inputs.
- The file system, `DirOpener`, HTTP backends and how a reader reports its size: a file is a byte string and a flag saying whether its size is known.
- `NewestCoverageCutoff` and `CoverageCutoffForLog`: lookups in the coverage map that would only add easy members.
- The manifest, both command-line programs, the Rust re-encoder and generated code: input, output and JSON.
- False-positive rates and filter sizes: probabilistic, not decided by the code.
