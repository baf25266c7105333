# Horizons: parsing, alignment, ingestion and paging, proved

A Dafny model of the part of Horizons that turns a legal document into versions, clauses and change
events, keeps them, and serves them:

- **Parsing** (`arena`, `matching`, `builder`, `parser`, `outline`, `outline_witness`, `title_places`,
  `text_places`, `parser_text`, `parser_titles`, `parser_segments`, `default_patterns`, `evaluation`):
  the tree builder with its open stack and waiting title. Which clauses a document opens, at which
  depth, under which parent, path and title and with which texts, read off its blocks without the
  builder; distinct paths, document order, conservation of text and of titles, where slashes come
  from, and the default configuration's patterns written out.
- **Alignment** (`similarity`, `candidates`, `heading_pass`, `monotonic_pass`, `events`, `align`,
  `confidence`): banded candidate enumeration, the greedy anchored pass as a stable matching, the
  dynamic program as an optimum, and the events as a patch.
- **Storage and identity** (`rows`, `identity`, `transition`, `ledger`, `collision`, `reingest`):
  writing and reloading clause rows, carrying uids across versions, what event rows refer to.
- **Polling** (`poll`, `history`, `slash_witness`): the state of one document over every run of polls,
  and a document that cannot be stored.
- **Blobs and sweeping** (`blobs`, `sweep`): the blob map shared by polls and the orphan sweep, as
  interleaved steps.
- **The claim loop** (`schedule`, `loop`, `worker`): concurrent ticks under row locks, serializability,
  parking and the failure budget; and whole workers, whose polls change document stores.
- **Paging** (`base64url`, `paging`): opaque cursors and keyset walks over a growing table.

`text` and `clauses` hold the string operations and the clause tree everything else uses.

## How the model reads the source

- Code that updates things in place is imperative here: the tree builder, one document's version
  rows, the blob store, the sweep loop and the claim loop are classes; table filling, scans, sorts and
  row writing are methods with loops. Each is proved equal to a specification function, and the
  promises are proved about that function.
- The parser's shared mutable clauses are entries of an arena, named by their creation index; a
  `parent` index stands for the place in the tree. The paired-position sets that the passes mutate
  through references are passed in and handed back as values.
- Regular expressions, MinHash, SHA-256, lower-casing, the word class, the tokeniser and the JSON layer
  of a cursor are function parameters. Only these facts are asked of them: matches are non-empty,
  inside the text and not blank after stripping (`DefaultPatterns.DefaultValid` proves it of the default
  patterns); the word class has no slash; all signatures have the configured length; the hash
  tells contents apart where a poll compares it; loading a dumped cursor payload gives it back. In
  `sweep` the hash may collide: the store then refuses the upload, as the in-memory one does.
- Confidences are exact reals. `uuid4` is a counter, so fresh uids never repeat. Configuration values
  are within the ranges the configuration models validate; the failure threshold is taken as
  non-negative, as deployed.
- Version rows, clause rows and event rows of one document are nested in a list of versions.
  `version_label` is `v<version_no>`, so its uniqueness follows from that of `version_no`.
- The state machines in `sweep`, `loop` and `worker` quantify over every list of steps; a step that is not
  possible leaves the state as it is. A claim is one atomic step: the oldest due rows that are neither
  parked nor locked. `touched` and `log` are bookkeeping fields that no step consults.

## Where the code and its own documentation part

The code is followed in each case.

- `docs/RFC-2 clause-alignment.md:207` caps pass-3 confidence at 0.9; the code passes the estimate
  through, up to 1: `Confidence.MovedAtFullConfidence` is a witness, `Confidence.AboveCapIff` says when.
- `docs/RFC-4 services.md:82` has an unchanged poll extend the live version. The code sets `valid_to`,
  and the live version is looked up by an empty `valid_to`, so from then on the document has no live
  version: every later poll tries version 1 and is rejected. `PollHistory.RunRecords` and
  `PollHistory.ChangeRecordedIff` say exactly what is recorded; `PollHistory.ThirdContentLost` is a
  witness, and `Workers.StuckForGood` says what becomes of such a document and of its batch-mates.
- The uid map is documented as carrying identity; its path fallback also applies to clauses that are
  not paired, so uids can repeat within a version. `Ledger.SharedUidThroughSources` and
  `Ledger.SharedUidIff` give the exact conditions, `Collision.PollsCollide` a witness: two documents
  polled one after the other under the default configuration.
- The docstring of `sweep.py` says the poll body opens its transaction only after the upload; the claim
  loop opens it before. `Sweep.KeptIff` gives the exact condition over whole runs, `Sweep.NoBlobLost` a
  sufficient one in terms of upload-to-commit spans, `Sweep.DeletedInUseLoses` what a harmful deletion
  leads to, `Sweep.RaceLoses` a witness.
- The parser promises one path per clause for the uniqueness constraint on joined paths. Paths are
  distinct for any labels; the joined strings are when segments contain no slash, which the pattern
  `ČÁST\s+\S+` does not guarantee. `SlashWitness.DocumentUnstorable` and
  `SlashWitness.DocumentRejected` show a document on which it fails; `PollHistory.ParsedStorableIff`,
  `ParserSegments.ParsedSegments`, `Rows.RoundTripsIff` and `Reingest.ParsedSilentIff` give the exact
  role of the slash.
- A database error inside a poll, the constraint violations above included, leaves the transaction
  unusable, so the failure mark fails too and the whole tick rolls back with its batch-mates. It is
  therefore an abort in the model and not a recorded failure: `Workers.Next` allows such a tick nothing
  but a rollback. The incident counter of an aborted tick may have moved all the same.

## Model

| member | source | states |
|---|---|---|
| Similarity.EstimateRange | packages/horizons-core/src/horizons_core/core/alignment/similarity.py:65-80 | the agreement estimate lies in [0, 1], is symmetric, and is 1 exactly for equal signatures |
| Similarity.EstimateIsShare | packages/horizons-core/src/horizons_core/core/alignment/similarity.py:65-80 | the estimate is the number of equal positions over the length, 1 for empty signatures; it reaches a threshold exactly when that number reaches that part of the length |
| Similarity.SharesBandIff | packages/horizons-core/src/horizons_core/core/alignment/similarity.py:83-147 | the index reports two signatures exactly when there is a band all of whose entries agree |
| Similarity.ShingleIff | packages/horizons-core/src/horizons_core/core/alignment/similarity.py:33-46 | a string is a shingle exactly when its pieces between single spaces are k consecutive words of the text |
| Text.RunsAcross | packages/horizons-core/src/horizons_core/core/alignment/similarity.py:43-46 | the words of a text do not reach across whitespace (with `Text.RunsOfOne`, a stretch without whitespace is one word): this determines `split()` |
| Similarity.LshCandidates | packages/horizons-core/src/horizons_core/core/alignment/similarity.py:83-147 | raises exactly on bad arguments; otherwise lists, once and smaller position first, each unordered pair with a band all of whose entries agree and a number of equal positions of at least threshold times length, and no other pair |
| Similarity.BandingBound | packages/horizons-core/src/horizons_core/core/alignment/similarity.py:83-147 | pigeonhole: fewer than `bands` unequal positions and enough equal ones always make a candidate pair, equal signatures included; and the bound is sharp (with `bands` unequal positions two signatures can agree on no band) |
| Candidates.CollectCandidates | packages/horizons-core/src/horizons_core/core/alignment/align.py:180-189 | the loop gathers the non-blank clauses in walk order with their signatures; blank clauses are skipped |
| Candidates.CandidatesAt | packages/horizons-core/src/horizons_core/core/alignment/align.py:180-189 | the candidates are the clauses with a body that is not blank, in order, each with its path, heading and body, the signature of its body's shingles, and whether the body has k words |
| HeadingPass.AdmissibleIff | packages/horizons-core/src/horizons_core/core/alignment/align.py:223-266 | which pairs pass 2 may make, and their confidence: free ends; equal headings, or none and equal paths; two long bodies whose equal signature positions reach the threshold, at the larger of 0.9 and their share, or two short equal bodies, at 0.9 |
| HeadingPass.MadeIff | packages/horizons-core/src/horizons_core/core/alignment/align.py:239-249 | which of them it makes: those that meet, at either end, no made pair of larger confidence, or of equal confidence and a later old position, or then a later new one |
| HeadingPass.UncorroboratedApart | packages/horizons-core/src/horizons_core/core/alignment/align.py:254-258 | two long clauses with too few equal signature positions are never paired by pass 2, whatever their headings |
| HeadingPass.LoneHeadingPairedIff | packages/horizons-core/src/horizons_core/core/alignment/align.py:223-266 | two clauses whose heading occurs once in each version are paired by pass 2 if and only if their contents corroborate it, wherever they stand |
| HeadingPass.Pass2IsTheStableMatching | packages/horizons-core/src/horizons_core/core/alignment/align.py:192-249 | pass 2 makes exactly the one stable matching of the admissible pairs under (confidence, i, j): a set of pairs is stable if and only if it is what the greedy loop takes |
| HeadingPass.GreedyStable | packages/horizons-core/src/horizons_core/core/alignment/align.py:239-249 | greedy assignment over a descending list shares no end and leaves out a pair only for a strictly stronger one at one of its ends |
| HeadingPass.PassHeadingMatch | packages/horizons-core/src/horizons_core/core/alignment/align.py:192-249 | the nested loops, the sort and the greedy loop compute that matching, and the two paired sets grow by exactly the matched positions |
| HeadingPass.Pass2Sound | packages/horizons-core/src/horizons_core/core/alignment/align.py:252-266 | no end is used twice; every pass-2 pair has equal headings, or none and equal paths; enough equal signature positions, or equal short bodies; and confidence in [0.9, 1] |
| HeadingPass.Pass2Diagonal | packages/horizons-core/src/horizons_core/core/alignment/align.py:223-249 | a list aligned with itself is paired position by position, repeated headings and bodies included |
| MonotonicPass.TracebackAttains | packages/horizons-core/src/horizons_core/core/alignment/align.py:316-354 | the traceback yields a non-crossing matching over `sim` whose weight is the table entry it starts from |
| MonotonicPass.BestIsUpperBound | packages/horizons-core/src/horizons_core/core/alignment/align.py:316-339 | no non-crossing matching over `sim` weighs more than the table entry |
| MonotonicPass.TracebackOptimal | packages/horizons-core/src/horizons_core/core/alignment/align.py:316-354 | so no non-crossing matching outweighs the traceback's |
| MonotonicPass.PairsOnTies | packages/horizons-core/src/horizons_core/core/alignment/align.py:319-354 | among optima: the walk back pairs whenever pairing loses nothing, else skips the old entry when that loses nothing, else the new one |
| MonotonicPass.BestMonotoneMatching | packages/horizons-core/src/horizons_core/core/alignment/align.py:312-354 | the filled tables and the walk back return a non-crossing matching of maximum weight, and that weight is `dp[m][n]` |
| MonotonicPass.FillTables | packages/horizons-core/src/horizons_core/core/alignment/align.py:316-339 | every cell of both in-place tables holds the recurrence's value and a move that attains it, pairing on ties |
| Align.Pass3Sound | packages/horizons-core/src/horizons_core/core/alignment/align.py:269-359 | pass 3 pairs only open, shingled candidate pairs, strictly monotone on both sides, with the estimate as confidence, in [threshold, 1] |
| Align.InReachIff | packages/horizons-core/src/horizons_core/core/alignment/align.py:284-311 | pass 3 can pair exactly the unpaired long clauses whose signatures agree on a whole band and on the threshold's share of positions, whatever their texts, headings and paths; such a pair weighs that share |
| Confidence.AboveCapIff | packages/horizons-core/src/horizons_core/core/alignment/align.py:341-354 | a pass-3 confidence exceeds 0.9 if and only if its estimate does |
| Confidence.ModifiedAtShare | packages/horizons-core/src/horizons_core/core/alignment/align.py:269-359 | two lone long clauses with different bodies and headings, a common band and enough equal positions are reported as one MODIFIED event whose confidence is the share of equal positions |
| Confidence.MovedAtFullConfidence | packages/horizons-core/src/horizons_core/core/alignment/align.py:341-354 | a witness against a cap: a long clause that keeps its text and changes heading and place is reported as moved with confidence 1 |
| Align.Pass3Optimal | packages/horizons-core/src/horizons_core/core/alignment/align.py:269-359 | no other non-crossing choice of candidate pairs of open positions has a larger total confidence |
| Align.PassContentMonotonic | packages/horizons-core/src/horizons_core/core/alignment/align.py:269-359 | open positions, banded enumeration over both sides at once, the similarity table and the dynamic program together compute that choice and mark its ends |
| Align.SimilarityTable | packages/horizons-core/src/horizons_core/core/alignment/align.py:284-311 | the table holds exactly the cross-side candidate pairs, each with its estimate; same-side near-duplicates are dropped |
| Align.AlignTrees | packages/horizons-core/src/horizons_core/core/alignment/align.py:136-177 | the whole alignment as it runs; every event it constructs passes the `ChangeEvent` validator |
| Align.EventsValid | packages/horizons-core/src/horizons_core/core/alignment/align.py:74-117 | field presence per change type, differing or equal texts and paths, and confidence in (0, 1] hold of every emitted event |
| Align.EventOrigin | packages/horizons-core/src/horizons_core/core/alignment/align.py:362-430 | an event is emitted exactly when it is the event of a changed pair, the removal of an unpaired old position, or the addition of an unpaired new one |
| Align.EventConfidence | packages/horizons-core/src/horizons_core/core/alignment/align.py:362-430 | an event's confidence is 1 for an addition or a removal, and otherwise that of a pair whose two paths and bodies it names |
| Align.EventsInOrder | packages/horizons-core/src/horizons_core/core/alignment/align.py:362-430 | pair events come first, then removals, then additions |
| Align.EventCount | packages/horizons-core/src/horizons_core/core/alignment/align.py:362-430 | every position lies in one pair or one residual event: the number of events is that of changed pairs plus unpaired positions on both sides |
| Align.AlignedIsAPatch | packages/horizons-core/src/horizons_core/core/alignment/align.py:136-177 | diff and patch: removing every before side from the old (path, body) multiset and adding every after side gives exactly the new one, for any two candidate lists and any renaming of paths |
| Align.AlignedWithItself | packages/horizons-core/src/horizons_core/core/alignment/align.py:149-151 | idempotent re-ingestion: equal candidate lists, repeated headings and bodies included, yield no events |
| Align.UnheadedClauseIsStable | packages/horizons-core/src/horizons_core/core/alignment/align.py:224-249 | with unique paths, an unheaded clause with the same path and body is paired with its counterpart, and no event mentions its path, whatever else changed |
| Matching.HasBoundaryBefore | packages/horizons-core/src/horizons_core/core/alignment/parser.py:126-137 | the backwards loop answers exactly whether the position is at the start, or follows whitespace with the last non-space character before it, if any, a terminator |
| Matching.HitIff | packages/horizons-core/src/horizons_core/core/alignment/parser.py:146-158 | the match at a position: the end its pattern gives, its boundary demand met, and every earlier pattern that matches there short of a boundary; none exactly when every pattern that matches is |
| Matching.FindMatches | packages/horizons-core/src/horizons_core/core/alignment/parser.py:140-162 | the scan terminates with ordered, disjoint spans inside the text; each is of a pattern that matches at its start with its boundary demand met, no earlier pattern doing so, and every position where some pattern does is covered |
| Matching.ScanUnique | packages/horizons-core/src/horizons_core/core/alignment/parser.py:140-162 | that description determines the result: a text has exactly one such list of spans |
| Matching.IsBoldOnly | packages/horizons-core/src/horizons_core/core/alignment/parser.py:110-123 | true exactly when some non-space character exists and all of them lie in a bold range |
| Matching.SlugIsWords | packages/horizons-core/src/horizons_core/core/alignment/parser.py:184-188 | a slug is the maximal word-character runs of the stripped, lower-cased title joined by dashes, cut to 64 characters |
| Text.StripIsMiddle | packages/horizons-core/src/horizons_core/core/alignment/parser.py:178 | stripping keeps a middle stretch of the string with nothing but whitespace around it, that neither starts nor ends with whitespace |
| Matching.DisambiguateSegment | packages/horizons-core/src/horizons_core/core/alignment/parser.py:191-210 | terminates; returns a segment no sibling uses: the input when free, else with its least free suffix from 2 up, which is at most one more than the number of siblings |
| Arena.GrowKeepsSpine | packages/horizons-core/src/horizons_core/core/alignment/parser.py:286-331 | adding a clause below an open one, with those above it closed, keeps the open clauses a rightmost path whose subtrees end the listing |
| Builder.TreeBuilder.Open | packages/horizons-core/src/horizons_core/core/alignment/parser.py:286-331 | one clause opened in place: closed clauses popped, segment chosen, waiting title taken, child appended, stack pushed |
| Builder.TreeBuilder.Title | packages/horizons-core/src/horizons_core/core/alignment/parser.py:270-284 | a bold title goes to the just-opened clause while it is bare, otherwise it waits |
| Builder.TreeBuilder.Leaf | packages/horizons-core/src/horizons_core/core/alignment/parser.py:333-344 | a stray paragraph becomes an ordinal leaf of the innermost open clause, which stays open |
| Builder.TreeBuilder.ParagraphBlock | packages/horizons-core/src/horizons_core/core/alignment/parser.py:233-253 | ignored, titling, leaf and structural paragraphs, with the cuts between matches, change the builder as specified |
| Builder.TreeBuilder.HeadingBlock | packages/horizons-core/src/horizons_core/core/alignment/parser.py:255-260 | a non-blank heading block opens a clause at its level plus the offset, at least 1 |
| Builder.TreeBuilder.LooseText | packages/horizons-core/src/horizons_core/core/alignment/parser.py:262-265 | loose text is appended to the innermost open clause's body |
| Parser.AttachSiblings | packages/horizons-core/src/horizons_core/core/alignment/parser.py:311-331 | attaching a child keeps sibling segments distinct if and only if the segment was free |
| Parser.BuiltInv | packages/horizons-core/src/horizons_core/core/alignment/parser.py:213-344 | after any blocks: the stack is the rightmost path from the root, every path extends its parent's by one segment, siblings are distinct, and the innermost open clause has only ordinal leaves |
| Parser.WalkIsCreationOrder | packages/horizons-core/src/horizons_core/core/alignment/clause.py:26-30 | document order: the pre-order walk of the frozen tree lists the clauses in the order they were created |
| Outline.BuiltOutline | packages/horizons-core/src/horizons_core/core/alignment/parser.py:233-344 | the outline theorem: the opened clauses are, in order, what the blocks open (a label at its pattern's depth, a heading at its level plus the offset, at least 1); each hangs below the latest earlier one of smaller depth, or below the root; every other clause is a leaf one level below the clause opened last |
| Outline.BuiltNames | packages/horizons-core/src/horizons_core/core/alignment/parser.py:298-344 | every path is the parent's path and one segment: the label, or the slug of the title, made free among the older siblings' segments; the ordinal among the siblings for a leaf or a title without a slug |
| OutlineWitness.SectionInPart | packages/horizons-core/src/horizons_core/core/alignment/config.py:53-71 | under the default configuration, a section paragraph after a part paragraph opens a clause below the part's, with the part's label and its own as its path |
| TitlePlaces.TitlesLand | packages/horizons-core/src/horizons_core/core/alignment/parser.py:255-300 | which title each opened clause gets: a heading its own; a label the last bold title that named nothing, if no label came between, else a bold title that follows at once when the label has no text; leaves get none |
| TextPlaces.TextsLand | packages/horizons-core/src/horizons_core/core/alignment/parser.py:233-265 | which texts each clause holds: an opened clause the text after its label, then the loose texts up to the next opening; the leaves the paragraphs, or starts of paragraphs, without a label |
| Parser.ParsedPathsDistinct | packages/horizons-core/src/horizons_core/core/alignment/parser.py:286-344 | all clause paths of a parsed tree are pairwise distinct, for any labels and titles |
| ParserSegments.ParsedSegments | packages/horizons-core/src/horizons_core/core/alignment/parser.py:297-321 | no path segment of a parsed tree is empty, and no segment contains `/` if and only if no label cut from the document does |
| ParserText.OpenSpine | packages/horizons-core/src/horizons_core/core/alignment/parser.py:294-296 | with positive pattern depths, each open clause is the youngest child of the one before it and strictly deeper, and popping keeps exactly the clauses above the new depth |
| ParserText.ParsedText | packages/horizons-core/src/horizons_core/core/alignment/parser.py:233-265 | text conservation: labels and bodies read in pre-order give back every non-space character of the kept text once and in order without loose blocks, and once in any case |
| ParserText.BodyWords | packages/horizons-core/src/horizons_core/core/alignment/parser.py:178 | a body has the words of its parts, in order, none lost and none joined to its neighbour |
| ParserTitles.ParsedTitles | packages/horizons-core/src/horizons_core/core/alignment/parser.py:255-300 | title conservation: the headings of the tree, the title waiting at the end and the titles overwritten while waiting are together exactly the document's titles |
| ParserText.Parse | packages/horizons-core/src/horizons_core/core/alignment/parser.py:30-76 | the block loop builds and freezes that tree, under an empty untitled root, with distinct paths |
| Rows.RoundTripsIff | packages/horizons-ingestion/src/horizons_ingestion/poll.py:252-256 | with non-empty segments, a path survives joining and splitting exactly when no segment contains a slash |
| Rows.ClauseInsertRows | packages/horizons-ingestion/src/horizons_ingestion/poll.py:345-368 | one row per persistable clause in walk order, numbered from 1, each with the uid of its path |
| Rows.RowsAt | packages/horizons-ingestion/src/horizons_ingestion/poll.py:345-368 | the rows are those of the clauses with a body or a heading that is not blank, in walk order, each with that clause's uid, joined path, body, heading and label, numbered from 1 |
| Rows.LoadPreviousTree | packages/horizons-ingestion/src/horizons_ingestion/poll.py:240-277 | the loop rebuilds the flat tree and the uid of each loaded path; no rows give no tree |
| Rows.StoreThenLoad | packages/horizons-ingestion/src/horizons_ingestion/poll.py:240-277 | writing a tree and reloading it gives its candidate list with each path passed through storage, and the same list when the paths survive |
| Rows.ReloadedNodes | packages/horizons-ingestion/src/horizons_ingestion/poll.py:240-277 | reloading gives the persistable clauses in walk order with the same path, heading, body and label |
| Rows.ReingestSilentIff | packages/horizons-ingestion/src/horizons_ingestion/poll.py:240-277 | diffing a tree against its own stored form yields no events if and only if every candidate path survives storage |
| Reingest.ReingestReproduces | packages/horizons-ingestion/src/horizons_ingestion/poll.py:159-203 | storing a tree with durable paths and ingesting it again emits no event and writes the same rows, uids included |
| Reingest.ParsedReingests | packages/horizons-ingestion/src/horizons_ingestion/poll.py:153-203 | so does every document without a slash in a label, under any configuration |
| Reingest.ParsedSilentIff | packages/horizons-ingestion/src/horizons_ingestion/poll.py:153-175 | re-ingesting a parsed document emits nothing if and only if no clause with a body has a slash inside a path segment |
| Identity.BuildClauseUidMap | packages/horizons-ingestion/src/horizons_ingestion/poll.py:297-342 | the two loops build the map: pairing first, then path equality, then a fresh uid |
| Identity.UidsFacts | packages/horizons-ingestion/src/horizons_ingestion/poll.py:297-342 | exactly the persistable paths get a uid, so no row lacks one; inherited where there is a predecessor, otherwise fresh and used once |
| Transition.PairedBeforeExact | packages/horizons-ingestion/src/horizons_ingestion/poll.py:316-323 | the event-derived map sends the new path of each changed pair to its old path and has no other keys |
| Transition.PairKeepsUid | packages/horizons-ingestion/src/horizons_ingestion/poll.py:297-342 | identity carries over: for every pair alignment makes, changed or not, the new clause's row has the uid of the old clause's row |
| Transition.InitialIsDiff | packages/horizons-ingestion/src/horizons_ingestion/poll.py:280-294 | a first version's events are the diff against nothing |
| Transition.CollectInitialEvents | packages/horizons-ingestion/src/horizons_ingestion/poll.py:280-294 | the loop emits one ADDED event at confidence 1 per non-blank clause, in walk order |
| Ledger.SharedUidThroughSources | packages/horizons-ingestion/src/horizons_ingestion/poll.py:328-341 | two rows of a version share a uid if and only if they take their identity, by pair or by path, from stored rows with one uid |
| Ledger.SharedUidIff | packages/horizons-ingestion/src/horizons_ingestion/poll.py:328-341 | where the predecessor's uids are distinct: two rows share a uid if and only if one clause was paired with the predecessor at the other's path and the clause now at that path was paired with nothing |
| Collision.PollsCollide | packages/horizons-ingestion/src/horizons_ingestion/poll.py:337-339 | a witness: after polling two given documents under the default configuration, the second version has two clause rows, at different paths, with one uid |
| Collision.UidsCollide | packages/horizons-ingestion/src/horizons_ingestion/poll.py:337-339 | against the row the first document leaves, both clauses of the second get its uid, whatever the uids and the tuning (shingles of two words or more) |
| Ledger.UnheadedClauseKeepsUid | packages/horizons-ingestion/src/horizons_ingestion/poll.py:332-339 | an unheaded clause that keeps its path and body keeps its uid, whatever else changed |
| Ledger.ChangeEventInsertRows | packages/horizons-ingestion/src/horizons_ingestion/poll.py:371-447 | the loop writes one row per event: pairs carry the inherited uid on both sides, removals look theirs up in the predecessor, additions have no before uid |
| Ledger.EventRowsRefer | packages/horizons-ingestion/src/horizons_ingestion/poll.py:416-429 | referential integrity: every event row names a clause row of the old version and one of the new, with the same path, text and uid |
| Ledger.EventRowsAccepted | packages/horizons-core/migrations/versions/0010_change_events.py:99-102 | every event row meets the confidence constraint of its table, and MOVED and MODIFIED rows keep or change their text as their kind says |
| Ledger.EventRowConfidence | packages/horizons-ingestion/src/horizons_ingestion/poll.py:430-446 | the stored confidence is 1 for an addition or a removal, and otherwise that of the alignment pair whose joined paths and bodies the row names |
| Ledger.StoredPatch | packages/horizons-ingestion/src/horizons_ingestion/poll.py:371-447 | the stored event rows patch the stored clause rows of one version into those of the next, whatever the paths contain |
| Poll.DocumentStore.PollDocument | packages/horizons-ingestion/src/horizons_ingestion/poll.py:108-218 | one poll in place: skipped, `valid_to` set on the live version, a version inserted and its predecessor closed, or nothing changed on a constraint violation |
| Poll.StageVersion | packages/horizons-ingestion/src/horizons_ingestion/poll.py:159-203 | load, diff, uid map and both row lists of a version step |
| Poll.LiveIsLast | packages/horizons-ingestion/src/horizons_ingestion/poll.py:44-51 | at most one version is live, and only the highest-numbered can be |
| Poll.OutcomeIff | packages/horizons-ingestion/src/horizons_ingestion/poll.py:130-201 | which outcome a poll has: skipped without content; extended exactly when the last version is live with this hash; rejected exactly when the last version is closed or the new rows repeat a path |
| Poll.PollWrites | packages/horizons-ingestion/src/horizons_ingestion/poll.py:141-218 | the instants a poll writes: unchanged content closes the last version at this poll's time and changes nothing else; changed content closes it at the instant the next number starts; otherwise nothing changes |
| Poll.PollKeepsHistory | packages/horizons-ingestion/src/horizons_ingestion/poll.py:141-218 | every poll keeps: numbers 1..n, each version but the last closed at its successor's start, neighbours with different hashes, unique stored paths, uids already issued, and event rows that patch each version into the next |
| Poll.RunHistory | packages/horizons-ingestion/src/horizons_ingestion/poll.py:141-218 | so over every run of polls from no versions |
| Poll.ReplayRebuilds | packages/horizons-core/migrations/versions/0010_change_events.py:122-131 | replaying the stored events of versions 1..n from nothing gives exactly the (path, text) entries of version n's rows |
| PollHistory.StorableIff | packages/horizons-core/migrations/versions/0003_corpus_tables.py:100-101 | the rows of a tree meet the uniqueness constraint on paths exactly when the joined paths of its persistable clauses differ |
| PollHistory.ParsedStorableIff | packages/horizons-core/src/horizons_core/core/alignment/parser.py:311-321 | a parsed document meets that constraint if and only if no two persistable clauses have paths that agree once cut at slashes, one of them with a slash inside a segment |
| PollHistory.ParsedStorable | packages/horizons-core/src/horizons_core/core/alignment/parser.py:311-321 | a document without a slash in a label always meets it |
| SlashWitness.DocumentUnstorable | packages/horizons-core/src/horizons_core/core/alignment/config.py:53-71 | a witness under the default configuration: a three-block document whose clause paths are distinct and whose stored paths are not |
| SlashWitness.DocumentRejected | packages/horizons-ingestion/src/horizons_ingestion/poll.py:179-201 | a poll that fetches that document is refused and leaves the store as it was |
| DefaultPatterns.DefaultMatch | packages/horizons-core/src/horizons_core/core/alignment/config.py:53-71 | every match of a default pattern is inside the text, not empty, and starts with one of the few characters a default pattern can start with |
| DefaultPatterns.DefaultWordsIff | packages/horizons-core/src/horizons_core/core/alignment/config.py:53-68 | exactly what the part, section and article patterns match at a position, as stretches of the text that cannot be longer |
| DefaultPatterns.DefaultBracketsIff | packages/horizons-core/src/horizons_core/core/alignment/config.py:69-71 | exactly what the three bracketed patterns match at a position |
| DefaultPatterns.DefaultValid | packages/horizons-core/src/horizons_core/core/alignment/config.py:53-97 | the default configuration meets what the builder asks of its patterns: proper matches with non-blank labels, and positive depths |
| DefaultPatterns.PartParagraph | packages/horizons-core/src/horizons_core/core/alignment/parser.py:233-253 | under the default configuration a paragraph of a part label and a quiet body opens exactly one clause of depth 1 |
| PollHistory.SlashCollides | packages/horizons-core/src/horizons_core/core/alignment/config.py:54-61 | a slash inside one segment stores like a boundary between two, so two distinct paths collide |
| PollHistory.PollRecords | packages/horizons-ingestion/src/horizons_ingestion/poll.py:141-144 | one poll on what is recorded: a repeat closes the last version, after which everything is rejected; unstorable content is rejected; anything else is added |
| PollHistory.RunRecords | packages/horizons-ingestion/src/horizons_ingestion/poll.py:141-218 | over every run, the recorded versions are exactly the storable contents up to the first repeat of the previous one, and the last version is live exactly when there was none |
| PollHistory.ChangeRecordedIff | packages/horizons-ingestion/src/horizons_ingestion/poll.py:141-218 | the next poll records its content if and only if it is storable, differs from the last one, and no earlier poll repeated the previous content |
| PollHistory.ThirdContentLost | packages/horizons-core/migrations/versions/0007_ingestion_tables.py:69-75 | a witness: after one unchanged poll, new content violates the version-number constraint and is lost |
| Blobs.MemoryBlobStore.Put | packages/horizons-ingestion/src/horizons_ingestion/blob/store.py:54-63 | idempotent; refuses different bytes under one key and then changes nothing |
| Blobs.ContentAddressedIff | packages/horizons-ingestion/src/horizons_ingestion/sweep.py:121-128 | the keys a sweep may delete: 67 characters, the first 64 of them digits or a to f, the last three `.md` |
| Blobs.MemoryBlobStore.Keys | packages/horizons-ingestion/src/horizons_ingestion/blob/store.py:65-67 | yields every key exactly once |
| Blobs.MemoryBlobStore.Delete | packages/horizons-ingestion/src/horizons_ingestion/blob/store.py:69-70 | removes the key; a missing key is no error |
| Blobs.SweepLoop.SweepOnce | packages/horizons-ingestion/src/horizons_ingestion/sweep.py:98-128 | one pass alone keeps exactly the referenced keys and the keys of another shape, with their bytes, and counts what it reclaimed |
| Sweep.KeptIff | packages/horizons-ingestion/src/horizons_ingestion/sweep.py:98-118 | over every interleaving of uploads, commits, rollbacks and sweeps: no key in use is ever without its blob if and only if no visit deletes a key that is committed, or held by an open transaction, at that moment |
| Sweep.NoBlobLost | packages/horizons-ingestion/src/horizons_ingestion/sweep.py:98-118 | in every interleaving where no upload-to-commit span on a key meets the snapshot-to-delete span of its deletion, every committed version's blob is present throughout, under the name its bytes give it |
| Sweep.InUseMeets | packages/horizons-ingestion/src/horizons_ingestion/sweep.py:14-26 | every deletion of a key in use falls inside an upload-to-commit span that meets its sweep: the snapshot covers all else |
| Sweep.TouchedIff | packages/horizons-ingestion/src/horizons_ingestion/sweep.py:98-118 | a key counts as touched by the current sweep exactly when some transaction held it at some moment since the snapshot |
| Sweep.StepKeepsIff | packages/horizons-ingestion/src/horizons_ingestion/sweep.py:98-113 | one step of any kind keeps every key in use if and only if it does not delete one |
| Sweep.DeletedInUseLoses | packages/horizons-ingestion/src/horizons_ingestion/sweep.py:98-113 | after such a deletion a committed version can lose its blob |
| Sweep.RaceLoses | packages/horizons-ingestion/src/horizons_ingestion/sweep.py:14-26 | a witness on any content: upload, whole sweep, commit |
| Sweep.OnlyVisitsDelete | packages/horizons-ingestion/src/horizons_ingestion/sweep.py:98-128 | only a sweep deletes, and never a key of its snapshot nor one of another shape |
| Sweep.BytesStay | packages/horizons-ingestion/src/horizons_ingestion/blob/store.py:54-63 | a content-addressed blob that stays keeps its bytes, whatever the step |
| Sweep.OnlyCommitsPublish | packages/horizons-ingestion/src/horizons_ingestion/sweep.py:14-26 | the committed keys change only by a commit, which adds those of its own transaction's version rows |
| Sweep.QuietSweep | packages/horizons-ingestion/src/horizons_ingestion/sweep.py:98-118 | an undisturbed sweep leaves exactly the content-addressed blobs of committed versions, and every other blob |
| Schedule.OneIncidentPerParked | packages/horizons-ingestion/src/horizons_ingestion/loop.py:188-217 | a failure count never exceeds threshold + 1, and a document has exactly one incident when parked and none otherwise |
| Schedule.FailureCountMeaning | packages/horizons-ingestion/src/horizons_ingestion/loop.py:52-66 | the stored count is the number of committed failures since the last success |
| Schedule.ParkedForGood | packages/horizons-ingestion/src/horizons_ingestion/loop.py:45-50 | a parked row is never claimed again and never changes |
| Schedule.FailureBudget | packages/horizons-ingestion/src/horizons_ingestion/loop.py:45-66 | documents that never succeed use at most threshold + 1 committed claims each, in total |
| Schedule.DueAgainIff | packages/horizons-ingestion/src/horizons_ingestion/loop.py:52-66 | after a success a document is due again exactly one cadence later; after a failure it stays due unless that failure parked it |
| Schedule.CadenceRespected | packages/horizons-ingestion/src/horizons_ingestion/loop.py:52-58 | between a success and the next one, no tick claims the document before a full cadence has passed |
| Schedule.LastPolledMeaning | packages/horizons-ingestion/src/horizons_ingestion/loop.py:52-66 | the stored poll time is that of the last committed tick with the document in its batch, successful or not |
| Schedule.IncidentsAtThreshold | packages/horizons-ingestion/src/horizons_ingestion/loop.py:188-217 | every incident records the first count past the threshold |
| ClaimLoops.LeftOut | packages/horizons-ingestion/src/horizons_ingestion/loop.py:45-50 | a document that is due, not parked and not locked is left out of a claim only for as many documents as the batch size allows, none with a later poll time |
| ClaimLoops.OldestClaimed | packages/horizons-ingestion/src/horizons_ingestion/loop.py:45-50 | nobody overtakes: a due document with fewer competitors of no later poll time than the batch size is in every claim |
| ClaimLoops.AnswerExists | packages/horizons-ingestion/src/horizons_ingestion/loop.py:45-50 | every claim can be answered, in every state |
| ClaimLoops.RunSerializable | packages/horizons-ingestion/src/horizons_ingestion/loop.py:153-186 | every interleaving of ticks has the tables of its committed ticks run one after the other in commit order, each claiming only due rows below the threshold; no row is ever held by two workers |
| ClaimLoops.CommitIsTickAlone | packages/horizons-ingestion/src/horizons_ingestion/loop.py:153-179 | committing a tick has the effect of the whole tick executed alone at that moment |
| ClaimLoops.WhollyOrNotAtAll | packages/horizons-ingestion/src/horizons_ingestion/loop.py:174-179 | a tick commits wholly or not at all: aborts, claims and polls leave the tables as they are |
| ClaimLoops.RunParks | packages/horizons-ingestion/src/horizons_ingestion/loop.py:188-217 | over every run of concurrent ticks: counts within threshold + 1 and equal to the failures since success, one incident per parked document, and no parked document held |
| ClaimLoops.RunParkedForGood | packages/horizons-ingestion/src/horizons_ingestion/loop.py:45-50 | over every run: a row once parked stays as it is and no later tick has it in its batch |
| ClaimLoops.RunFailureBudget | packages/horizons-ingestion/src/horizons_ingestion/loop.py:45-66 | over every run: K documents that never succeed use at most K * (threshold + 1) committed claims |
| Workers.StuckRejects | packages/horizons-ingestion/src/horizons_ingestion/poll.py:141-183 | a document with versions and none live refuses every poll that fetches content |
| Workers.StuckForGood | packages/horizons-ingestion/src/horizons_ingestion/loop.py:153-179 | such a document's row and store never change while its fetches return content, so it is never parked, and no tick with it in its batch ever commits, for any interleaving of workers |
| Workers.RunInv | packages/horizons-ingestion/src/horizons_ingestion/loop.py:153-186 | workers whose polls change document stores, with transactions made unusable by a database error, keep the claim loop's invariants |
| Workers.PollVerdict | packages/horizons-ingestion/src/horizons_ingestion/loop.py:160-179 | what one poll does to its tick: a failure mark when it raises, a success mark when nothing was fetched or the content is taken in; content the database refuses leaves no mark and an unusable transaction, and nothing else does |
| Workers.StoresAreRuns | packages/horizons-ingestion/src/horizons_ingestion/loop.py:153-186 | no update is lost: over every interleaving of workers, each document's committed store is what some sequence of single polls from nothing makes of it, so the history invariant holds of it |
| Workers.StoreStep | packages/horizons-ingestion/src/horizons_ingestion/loop.py:153-186 | a step leaves a document's committed store as it is, or is a commit that puts one poll of that very store in its place |
| ClaimLoops.ClaimLoop.Tick | packages/horizons-ingestion/src/horizons_ingestion/loop.py:153-186 | one tick as it runs: all marked and counted on commit; on a broken poll the tables are as before and only the incident counter may have moved |
| ClaimLoops.ClaimLoop.RecordFailure | packages/horizons-ingestion/src/horizons_ingestion/loop.py:188-217 | the failure mark, and the incident counter moved exactly when an incident is written |
| Base64Url.RoundTrip | packages/horizons-core/src/horizons_core/repos/change_events.py:118-136 | section 5 of RFC 4648 without the padding of section 3.2: decoding after restoring it gives the payload back, and no padding is on the wire |
| Base64Url.LetterInTable | packages/horizons-core/src/horizons_core/repos/change_events.py:124 | the letters are those of table 2 of RFC 4648 |
| Base64Url.GroupNumber | packages/horizons-core/src/horizons_core/repos/change_events.py:124 | a group of letters writes in base 64 the number its bytes write in base 256, shifted to whole letters |
| Paging.CursorRoundTrip | packages/horizons-core/src/horizons_core/repos/change_events.py:118-136 | decoding an encoded cursor gives its position back |
| Paging.PageIs | packages/horizons-core/src/horizons_core/repos/change_events.py:224-250 | with n the smaller of the limit and 200: a page holds the first n rows of the sorted, filtered list below its cursor, or all of them, and a next cursor at its last row exactly when more rows follow |
| Paging.RefusedIff | packages/horizons-core/src/horizons_core/repos/change_events.py:127-136 | a page is refused exactly for a limit below 1, or else for a cursor that does not decode |
| Paging.NewestFirst | packages/horizons-core/src/horizons_core/repos/change_events.py:243 | later detection first, and the larger id first among rows detected at one instant |
| Paging.ClauseScopeIff | packages/horizons-core/src/horizons_core/repos/change_events.py:269-279 | the clause scope holds exactly the rows with the clause on either side, in the given document if there is one |
| Paging.CorpusScopeIff | packages/horizons-core/src/horizons_core/repos/change_events.py:257-268 | the document scope, and the corpus filters: what is not given filters nothing, the start of the window is in it and its end is not |
| Paging.WindowsTile | packages/horizons-core/src/horizons_core/repos/change_events.py:262-265 | half-open windows tile: the answer for a window is that for its later part followed by that for its earlier part |
| Paging.WalkInOrder | packages/horizons-core/src/horizons_core/repos/change_events.py:282-316 | every walk over an append-only table, whatever is appended meanwhile: newest first, no row twice, only rows in scope, and every row in scope at the start |
| Paging.WalkAgreesWithQuery | packages/horizons-core/src/horizons_core/repos/change_events.py:224-250 | a walk from no cursor equals the sorted, filtered list, also when newer rows are appended between pages; with n the smaller of the limit and 200, in max(1, ceil(rows / n)) pages |
| Paging.WalkLength | packages/horizons-core/src/horizons_core/repos/change_events.py:246-250 | every walk takes the fewest pages its rows allow at n rows a page, n the smaller of the limit and 200, and at least one |
| Paging.LateRowIff | packages/horizons-core/src/horizons_core/repos/change_events.py:282-301 | a row that appears between two pages is returned if and only if it lies below the cursor held by then |
| Paging.WalkExists | packages/horizons-core/src/horizons_core/repos/change_events.py:304-316 | on an unchanging table, following the cursors ends |

## Left out

- Tokenising markdown, the regex engine, MinHash, SHA-256, JSON and timestamps: parameters, as above.
- Float rounding of estimates and of the table sums: exact reals.
- HTTP client, Azure blob store, health probes, logging, sleeping and shutdown between ticks and sweeps: input and output only.
- Loading of portal and tuning configuration and `Shingles` with k below 1: the configuration models refuse it first.
- Row-level security, authentication, subscriptions, watchlists and overview queries: what a caller may see is the table given to `Paging`.
- `seed.py`: it repeats the row and uid logic of `poll.py`.
- Listing blobs page by page as the Azure store does: a sweep lists all keys in one step, as the in-memory store does.
- Several blob containers: one container, the one a worker is configured with.
- A claim that overlaps another worker's commit: the claim query's snapshot and its row locks are one step.
- Schedule rows vanishing mid-tick and operators unparking a document: no step removes a row or resets a count except a successful poll.
- ClaimLoops.ClaimLoop.Tick: one tick with no other worker's step in between, because the interleavings are the subject of `ClaimLoops.RunSerializable`; each of its statements is one step of that machine.
- Poll.DocumentStore.PollDocument: the upload before the insert is not in this member, because `Sweep` models it; a rejected poll leaves the store as it was and the abort of the rest of its tick is in `Workers`.
- Paging.LateRowIff: rows keep their detection time, because the table is append-only; which rows a caller may see does not change during a walk.
- Base64Url.RoundTrip: malformed cursors are refused by whole groups, because the leniency of Python's decoder towards foreign characters belongs to its library.
- `get_by_id` and the three thin read methods that share `_fetch_page`: easy members.
