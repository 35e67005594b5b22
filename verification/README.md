# CertMate verification

A Dafny model of the parts of CertMate whose correctness is not visible from any one function,
with proofs about every input, every run or every interleaving.

- **The audit chain and its pruning** (`Audit*.dfy`): hash-linked records, the incremental
  verifier, signed export bundles, the plan of a prune, its durable steps on a data directory, and
  whole runs in which any attempt may die between two steps (`AuditRuns.dfy`) or inside a write
  (`AuditTears.dfy`), with the exact condition under which the chain then verifies
  (`AuditGaps.dfy`). `AuditPlanning.dfy` says on any chain file at all what is planned and what is
  refused; `AuditFaults.dfy` holds what a prune does not survive, an unfinished last line
  and other writers, each with its exact condition.
- **Advisory grouping** (`AdvisoryGroups.dfy`): the incremental merge computes connected components.
- **The lockfile** (`Lockfile*.dfy`): reading, printing, checking and writing.
- **Translated pages** (`TranslationSplit.dfy`): the one-pass line state machine.
- **The theme codemod** (`Theme*.dfy`): the real pair table, the guarded patterns substituted through
  the text of a file, character by character, the set-based pass inside its class attributes, what
  both write (`ThemeRewrites.dfy`), and when the two need a second round.
- **ACME Renewal Information** (`Ari*.dfy`): certificate identifiers, base64url bit by bit,
  window arithmetic and the cached client.
- **Two small concurrent systems** (`ProcessLock.dfy`, `RequestWatchdog.dfy`), as steps under every
  interleaving.
- **Four loops with claims about repeated calls** (`ReissueQueue.dfy`, `VaultBackfill.dfy`,
  `AcmeProfiles.dfy`, `Timestamps.dfy`).

Objects the program updates in place (the verifier, the data directory, the codemod's file, the ARI
client, the request tracker, the key vault, the renewal configuration, the normaliser's flag) are
classes; loops are methods proved against a specification function; the claims are lemmas about
those functions. `Wrappers.dfy`, `Sets.dfy` and `Text.dfy` hold shared definitions.

## What the proofs found

The code is modelled as it is; where a promise does not hold, the condition under which it does is
proved and the failing family is exhibited.

- A chain file whose last line an earlier crash left unfinished swallows the `archive` record of the
  next prune, which still completes and verifies. If that last line was a whole record without its
  newline, the record itself is lost too, from the chain and from the archive
  (`LiveIsKeptIff`, `UnfinishedTailPrunesSilently`). Over whole runs a torn write costs at most the
  record it tears and the next one written (`EachTearCosts`), and a service left running behind it
  leaves a seq missing for good (`AuditGaps.VerifiesIff`).
- An anchor records only the one anchor it replaces, so a second interrupted prune in a row leaves a
  chain that is whole but does not verify until the prune is completed
  (`InterruptedPruneVerifiesIff`, `RerunCompletes`).
- Lines written by another process after the last look at the chain are overwritten
  (`LateWritesSurviveIff`), and those written between the reading of the last record and the snapshot
  are not noticed and can leave a chain that does not verify (`UnseenWritesVerifyIff`). The
  documentation asks for the service to be stopped.
- The count check of the plan does not exclude a gap when a seq is repeated; what the plan itself
  takes is archived all the same (`RepeatedRecordHidesAGap`, `NothingUnarchivedIsDeleted`).
- The lockfile round trip needs versions without a trailing backslash (`RoundTripIff`), and of two
  pins of one package only the later is compared (`EarlierPinIsNotCompared`). Writing compares names
  only, so a lock can be written that its own check refuses (`AnotherVersionIsWritten`).
- A translation notice inserted right before a quoted line of the page hides that line
  (`NoticeIsInvisibleIff`).
- One codemod pass is not a fixpoint, in a plain class value or in one written inside a JavaScript
  ternary (`OnePassIsNotEnough`); which texts need another is exact
  (`ThemeSecondPass.OnePassIsEnoughIff`).
- The docstring's half-open renewal window is kept by no accepted window (`NoWindowIsHalfOpen`), and
  an empty window that starts inside a second shows an instant before the one acted on
  (`ShownIsActedOnIff`).
- Skipped domains count towards the backfill limit, so paging "until remaining is 0" ends only if
  there is no limit or it is no less than the listing (`PageThrough`, `PagingStalls`).
- A JSON infinity as the reissue limit, or a JSON body that is a list, a string or a number, fails the
  call instead of falling back to the default (`ReissueQueue.Limit`).
- The docstring of `_renewal_process_lock` says that any error acquiring the lock lets the job run;
  the code skips the job when `flock` itself fails, and the model follows the code.

## Model

| member | source | states |
|---|---|---|
| AuditRuns.HistoryIsConserved | modules/core/audit_prune.py:171-250 | Over every run of logged entries and prune attempts, each free to die between any two durable steps: the archived bundles in order followed by the live chain are every record ever appended, linked from the genesis and from seq 0; every completed prune is recorded by an `archive` entry behind everything it removed, the latest of them in the live chain; and with no prune pending the live chain links from the hash in the anchor |
| AuditTears.EachTearCosts | modules/core/audit_prune.py:171-250 | Over every run in which any write of the service or of a prune may be torn, the service restarted and an attempt die anywhere: the archived bundles followed by the live chain are exactly the records written in full, behind a finished write, and finished themselves or last; all of them if and only if no write was torn |
| AuditTears.DeletionKeptIff | modules/core/audit_prune.py:202-214 | In every such run a completed prune has written its `archive` record, and that record is kept if and only if the write before it was finished |
| AuditTears.RunKeepsInv | modules/core/audit_prune.py:171-250 | In every such run disk and writes agree: how the file ends, what it and the archive hold, in which order, and where each prune is recorded |
| AuditTears.PlanTakes | modules/core/audit_prune.py:103-158 | On a chain with gaps left by earlier tears a plan still takes exactly the records of the bundle, with a live record behind them |
| AuditTears.LosslessIff | modules/core/audit.py:278-313 | Every written record is kept if and only if no write is torn, the newline of the last one aside |
| AuditTears.PlainRunsAgree | modules/core/audit_prune.py:171-250 | Runs in which nothing is torn are those of AuditRuns, with the service continuing from what it remembers |
| AuditTears.RerunAfterTornWrite | modules/core/audit_prune.py:202-250 | After a death inside the write of the `archive` record the same prune is accepted again, keeps exactly the live records there were and verifies, and its deletion is recorded nowhere |
| AuditGaps.VerifiesIff | modules/core/audit_chain.py:210-392 | After every run with torn writes and restarts the chain verifies if and only if nothing was torn since the last cut, no live record behind the first continues a lost one, and the first record is where the anchor says |
| AuditGaps.UnprunedVerifiesIff | modules/core/audit_chain.py:210-255 | A chain under no anchor verifies after such a run if and only if nothing was torn, the newline of the last record aside |
| AuditGaps.CompletedPruneVerifiesIff | modules/core/audit_prune.py:223-250 | After such a run a completed prune leaves a chain that verifies if and only if something live is left and none of it, the first aside, continues a lost record: what was torn before is dropped |
| AuditGaps.LinkedIff | modules/core/audit_chain.py:93-207 | The live records are one linked run if and only if none behind the first continues a lost one |
| AuditGaps.RunKeepsGapInv | modules/core/audit.py:215-313 | Over every such run a record kept behind another one either continues it with the next seq, or continues a lost one and a seq is missing |
| AuditRuns.HistoryOnlyGrows | modules/core/audit.py:278-313 | Whatever a run does next, what was appended before stays in the history where it was |
| AuditRuns.RunKeepsInv | modules/core/audit_prune.py:171-250 | Every state reached without a torn write satisfies the invariant: the chain file parses, history = archive + live chain, the anchor names a real point of the history under the instance's signature, every deletion is recorded |
| AuditRuns.AttemptKeepsInv | modules/core/audit_prune.py:171-250 | Wherever between durable steps one attempt dies the invariant holds, and no record has left the live chain unless the prune completed under an anchor that says so |
| AuditRuns.AttemptStages | modules/core/audit_prune.py:171-250 | The disk an attempt leaves, whichever step it dies behind, is one of four: untouched, with the `archive` record, that under the new anchor, or the suffix from the anchor |
| AuditRuns.VerifiesIff | modules/core/audit_chain.py:300-392 | In any reachable state the chain verifies exactly when no prune is pending or the pending anchor names where the chain still starts |
| AuditRuns.CompletedPruneVerifies | modules/core/audit_prune.py:223-250 | A completed prune leaves a chain that verifies from its anchor, signed by the instance, with its bundle added to the archive |
| AuditRuns.InterruptedPruneVerifiesIff | modules/core/audit_prune.py:140-148 | A prune interrupted between its anchor and its cut keeps every record, and the chain verifies through `supersedes` exactly when no earlier prune was already waiting: a second interruption in a row is reported as tampering |
| AuditRuns.RerunCompletes | modules/core/audit_prune.py:171-250 | From any interruption between durable steps, planning and running the same prune again is accepted, verifies, and archives the bundle once |
| AuditFaults.DeletionRecordedIff | modules/core/audit_prune.py:202-214 | The deletion is recorded in the chain a prune leaves if and only if the chain file ended in a complete line |
| AuditFaults.LiveIsKeptIff | modules/core/audit_prune.py:202-249 | A completed prune of a linked chain keeps every live record if and only if the chain file did not end in a record without its newline |
| AuditFaults.UnfinishedTailPrunesSilently | modules/core/audit_prune.py:202-249 | On a file whose last line is not finished, whatever was pruned before, every prune that can be planned completes with no record of the deletion; behind a whole record without its newline that record is then in neither chain nor archive, and the chain verifies all the same unless it was the only live one |
| AuditFaults.UnfinishedIsPlanned | modules/core/audit_prune.py:68-158 | On such a file every prune the complete chain admits is planned, under any readable anchor |
| AuditFaults.UnseenWritesVerifyIff | modules/core/audit_prune.py:205-218 | A prune during which others write between the reading of the last record and the snapshot completes, and what it leaves verifies if and only if they wrote no record before the `archive` record and those after it continue from it |
| AuditFaults.EarlyWritesAreKept | modules/core/audit_prune.py:218-248 | Lines another process appends before the second look at the file stop the prune with all of them kept |
| AuditFaults.LateWritesSurviveIff | modules/core/audit_prune.py:243-249 | What others append after that look survives a completed prune exactly when it is nothing |
| AuditExecute.AuditDirectory.ExecutePrune | modules/core/audit_prune.py:171-250 | On the directory's files, step by step: the final chain, anchor and outcome for every crash point, every key or none and writes of others in each of the four gaps. On a file that ends in a newline every record of the old chain is still there, or the anchor on disk is this prune's, signed by the key, and what is missing lies below its seq; without a key the anchor file stays as it was |
| AuditExecute.AuditDirectory.WriteAnchorAtomic | modules/core/audit_prune.py:161-168 | The anchor file is the old text or the new one, never part of it, and the chain is untouched |
| AuditExecute.AuditDirectory.WriteChainAtomic | modules/core/audit_prune.py:161-168 | The chain file is the old text or the new one, never part of it, and the anchor is untouched |
| AuditExecute.AuditDirectory.RunCommand | modules/core/audit_prune.py:253-353 | The exit code in every case: 0 exactly for a dry run or a prune that completed and verifies, 2 for a bundle that cannot be read or a key that is missing or did not sign it, 1 for every other refusal; files change only if the manifest of the bundle is signed by the key at hand and describes its linked entries |
| AuditPrune.PlanPrune | modules/core/audit_prune.py:68-158 | The scan computes the plan or the first refusal, in the order the command checks |
| AuditPlanning.PlanIff | modules/core/audit_prune.py:68-158 | On any chain file, damaged or not, a prune is planned if and only if the bundle verifies, is signed and not empty, the chain starts at its first seq, every record up to its last seq is in it under the same seq and hash, there are as many of them as it holds, its last seq is in the chain, the next record behind it carries the next seq, and the anchor file can be read |
| AuditPlanning.PlanSays | modules/core/audit_prune.py:140-158 | The plan continues from the seq and hash of the last archived record and remembers the anchor it replaces |
| AuditPlanning.RefusalSays | modules/core/audit_prune.py:68-143 | Each of the twelve refusals tells the truth about bundle, chain and anchor |
| AuditPrune.PlanNeedsSignature | modules/core/audit_prune.py:74-83 | A prune is planned only from a bundle whose manifest describes its linked entries and is signed by the key it carries |
| AuditPrune.PlanExact | modules/core/audit_prune.py:89-158 | On an intact chain a plan is made if and only if the bundle verifies, is signed and holds exactly the chain's records from its start with a live record after them (and the old anchor is readable); the anchor is the next seq, its hash the last archived record's |
| AuditPrune.NothingUnarchivedIsDeleted | modules/core/audit_prune.py:103-124 | On any chain file, damaged or not, every record that is there at plan time and below the anchor of the plan is in the archive under the same seq and hash |
| AuditPrune.RepeatedRecordHidesAGap | modules/core/audit_prune.py:121-124 | The count check is passed by a chain with one record twice and one missing |
| AuditPrune.CoverageExactIffNoRepeats | modules/core/audit_prune.py:103-124 | Once a plan is made, every archived (seq, hash) is in the chain exactly when no seq is written twice in what the plan covers |
| AuditChain.ChainVerifier.Feed | modules/core/audit_chain.py:120-189 | A record is accepted if and only if it continues the run, and a refusal names the true fault (repeat, gap, broken link, wrong hash, wrong start) |
| AuditChain.ChainVerifier.Finish | modules/core/audit_chain.py:191-207 | The verdict is count, first and last seq and head of the run that was fed |
| AuditChain.VerifyRecords | modules/core/audit_chain.py:431-455 | A list verifies if and only if it is one linked run; a fault is the earliest: all before it verifies, and not with it |
| AuditChain.HeadCommitsToHistory | modules/core/audit_chain.py:65-81 | Two linked runs of one length with the same head hash are equal record by record |
| AuditAnchor.VerifyStream | modules/core/audit_chain.py:258-297 | Streaming lines gives the verdict of the whole list; a fault is that of the first line with which the lines are no linked run, and only an unparseable last line is called a torn write |
| AuditAnchor.VerifyChain | modules/core/audit_chain.py:210-255 | A chain and its anchor file verify if and only if they are an unpruned chain, a completed prune or an interrupted one; `pending` is told apart correctly; an anchor that is mangled, below seq 1 or without a hash is a failure and never read as none; any other failure names the first fault of the stream from the right start, or what the anchor and the chain disagree about |
| AuditAnchor.VerifyAnchoredChain | modules/core/audit_chain.py:300-392 | The anchored half of that equivalence, with the hash remembered before the anchor |
| AuditAnchor.ReadAnchorIff | modules/core/audit_chain.py:626-654 | Only an absent file reads as no anchor; one that is mangled, below seq 1 or without a hash is an error, and every other anchor is read as it stands |
| AuditAnchor.AgreeIff | modules/core/audit_chain.py:300-392 | A linked chain under a truthful anchor verifies exactly when the anchor is where it starts or names where it still starts |
| AuditBundle.FiltersCut | modules/core/audit_chain.py:473-515 | On a gap-free run the seq filters are a cut into a prefix and the rest |
| AuditBundle.ExportVerifies | modules/core/audit_chain.py:518-555 | Every prefix exported from an intact chain, pruned before or not, verifies as a bundle that holds exactly it, with the signer's fingerprint |
| AuditBundle.VerifiesIff | modules/core/audit_verify.py:41-152 | A bundle verifies if and only if its entries are the linked run its manifest describes from where the manifest says they start, and it is signed by the key it carries (with that key's fingerprint, if any) or carries neither key nor signature; the verdict says signed, and by whom, exactly in the first case |
| AuditBundle.RefusalMeans | modules/core/audit_verify.py:41-140 | Each refusal of a bundle says something true of it |
| AuditBundle.VerifiedBundleIsLinked | modules/core/audit_verify.py:41-152 | A verified bundle is one linked run with the first and last seq its verdict says |
| AuditBundle.ManifestCommitsToEntries | modules/core/audit_verify.py:41-152 | Two bundles that verify under one manifest hold the same records |
| AdvisoryGroups.GroupByAlias | scripts/check_resolved_advisories.py:144-163 | The incremental merge returns exactly the connected components of "shares an identifier", pairwise disjoint |
| AdvisoryGroups.SameGroupIff | scripts/check_resolved_advisories.py:144-163 | Two rows are in one group if and only if a chain of rows with overlapping identifier sets links them |
| AdvisoryGroups.MembersAreComponents | scripts/check_resolved_advisories.py:144-163 | A group holding one row holds that row's whole component and nothing else |
| AdvisoryGroups.OrderDoesNotMatter | scripts/check_resolved_advisories.py:144-163 | The groups depend on which rows there are, not on their order or on repetitions |
| AdvisoryGroups.FlawsConserve | scripts/check_resolved_advisories.py:144-163 | Identifiers and packages of the groups are exactly those of the rows |
| AdvisoryGroups.Undocumented | scripts/check_resolved_advisories.py:173-176 | One report for each group with no documented identifier, in the order of the groups, and none for any other |
| AdvisoryGroups.CanonicalIsLeast | scripts/check_resolved_advisories.py:166-170 | A group is named by one of its own identifiers: its least GHSA one if it has any, else its least |
| AdvisoryGroups.CoveredIff | scripts/check_resolved_advisories.py:166-176 | A row's flaw goes unreported exactly when some row connected to it has a documented identifier |
| AdvisoryGroups.CheckRows | scripts/check_resolved_advisories.py:179-233 | End to end, for rows in any order: each row none of whose connected rows is documented is in exactly one report, which lists the identifiers of all of them once and in order and their packages, and is named by the least GHSA identifier or else the least one; nothing else is reported |
| Lockfile.NormalizeIdempotent | scripts/lockfile.py:96-99 | Normalising a name twice is normalising it once, for every string |
| Lockfile.NormalizeIsNormal | scripts/lockfile.py:96-99 | A normalised name has no upper case and no separator but single hyphens |
| Lockfile.NormalizeByPieces | scripts/lockfile.py:96-99 | Piece by piece: a part without separators is put in lower case, and the whole run of separators behind it becomes one hyphen |
| Lockfile.ParsePinIff | scripts/lockfile.py:48-52 | A line is a pin of a name at a version if and only if it is the name, `==`, the version and white space, with the characters the pattern admits |
| Lockfile.ParseHashIff | scripts/lockfile.py:53 | A hash line is `--hash=sha256:` and 64 lower-case hexadecimal digits, and nothing else |
| Lockfile.CleanIs | scripts/lockfile.py:110-113 | Of a line the comment goes, the white space around what is left, and one backslash at its end with the white space before it |
| Lockfile.ReadEntries | scripts/lockfile.py:102-126 | The loop over lines refines the line-by-line reading: hashes go to the pin they follow, a later pin of a name replaces the earlier |
| Lockfile.ReadIsWellFormed | scripts/lockfile.py:102-126 | Whatever the text, names read are in normal form, versions non-empty and pin-shaped, hashes well formed |
| LockfilePrint.ReadPrint | scripts/lockfile.py:102-162 | Reading a printed lockfile gives each pin as it survives its own line, for every map of well-formed pins and hashes under any comment header |
| LockfilePrint.PrintIs | scripts/lockfile.py:138-162 | The printed text, to the character: the header, an empty line, and the pins in the order of their names, each `name==version` with its hashes joined by a backslash, a newline and four blanks |
| LockfilePrint.NormalPinsIff | scripts/lockfile.py:143-145 | Of names that normalise alike the last version given is printed |
| LockfilePrint.RoundTripIff | scripts/lockfile.py:102-156 | `read_entries(render(...))` is the normalised pins with hashes sorted and deduplicated if and only if no pin without a hash has a version ending in a backslash |
| LockfilePrint.RenderAgain | scripts/lockfile.py:138-156 | Rendering what was read back, its items in any order, gives the identical text |
| LockfileCheck.RequirementLines | scripts/lockfile.py:165-181 | Found are exactly the lines that are neither blank, an option nor an exact pin, with their line numbers |
| LockfileCheck.Check | scripts/lockfile.py:214-241 | The problems are exactly each direct pin that is absent or at another version, and each line that is neither blank, an option nor a pin and cannot be read, has a marker or a URL, names a package that is not locked, or a range the locked version is not in, under its number; none if and only if every pin and every such line is met |
| LockfileCheck.HashesCheckedIff | scripts/lockfile.py:244-252 | Named are exactly the locked pins without a hash, with their versions |
| LockfileCheck.ConstraintsCheckedIff | scripts/lockfile.py:255-270 | The constraints file passes if and only if it is there and pins exactly the names and versions the lock pins |
| LockfileCheck.WriteFailsClosed | scripts/lockfile.py:291-305 | The write mode writes if and only if every direct pin was resolved and every resolved pin has a hash; a refusal names exactly the missing ones, in order |
| LockfileCheck.CheckIsExact | scripts/lockfile.py:184-241 | Every line of the requirements is met if and only if the check passes and no package is pinned to two versions |
| LockfileCheck.LastPinWins | scripts/lockfile.py:102-131 | Of several pins of one name the reader keeps the last, for every file |
| LockfileCheck.LastPinDecides | scripts/lockfile.py:102-126 | The entry of a name is that of its last pin line: its version, and the hashes of the hash lines below it up to the first line that is neither blank nor a hash |
| LockfileCheck.EarlierPinIsNotCompared | scripts/lockfile.py:214-241 | For every file that pins a package to two versions and every lock it passes against, an earlier line of the two is not met |
| LockfileCheck.TwoVersionsPass | scripts/lockfile.py:214-241 | There are such files and locks, for any package and any two versions |
| LockfileCheck.WrittenIsAcceptedIff | scripts/lockfile.py:291-315 | The requirements pass the check of the written lock if and only if the resolution met them; every locked pin is hashed; the constraints file agrees with the lock exactly when no version ends in a backslash |
| LockfileCheck.WrittenKeepsHashes | scripts/lockfile.py:291-312 | The written lock holds every resolved pin at its version with all its hashes, once and in order, and no other pin |
| LockfileCheck.AnotherVersionIsWritten | scripts/lockfile.py:291-312 | Writing compares names only: for any package resolved at another version than its pin, the lock is written and then refused |
| TranslationSplit.Split | scripts/check_translation_freshness.py:119-162 | The one-pass loop with its six variables computes the three results of the state machine whose kinds of line KindsAreRight, fences FenceOfIff and ClosesIff, and markers IsMarkerIff fix |
| TranslationSplit.KindsAreRight | scripts/check_translation_freshness.py:119-162 | The kind of every line from the page alone: outside a block and not behind a notice a line that opens a fence starts a block, in a block every line belongs to it and the first that closes its fence ends it, a marker is dropped and the quoted lines directly behind a notice marker with it, and every other line is prose |
| TranslationSplit.FenceOfIff | scripts/check_translation_freshness.py:102 | A line opens a fence if and only if, white space in front aside, it starts with at least three backticks or three tildes; the fence is the whole run |
| TranslationSplit.ClosesIff | scripts/check_translation_freshness.py:146-151 | A line closes a fence if and only if, surrounding white space aside, it is made of the same character and at least as many of it |
| TranslationSplit.IsMarkerIff | scripts/check_translation_freshness.py:127-133 | A line is a marker if and only if, surrounding white space aside, it is one HTML comment that starts with one of the two marker words, whole |
| TranslationSplit.FencedBlock | scripts/check_translation_freshness.py:139-151 | An opening line outside a block, lines that do not close it and the first that does are one code block of the page |
| TranslationSplit.OpenBlock | scripts/check_translation_freshness.py:139-162 | A fence that is never closed takes the rest of the page into its block |
| TranslationSplit.SplitConserves | scripts/check_translation_freshness.py:119-162 | Prose, code blocks and paragraphs are exactly the lines of their kinds in order; every kept line is in exactly one of prose and blocks, and the paragraphs put end to end are all of them |
| TranslationSplit.DroppedForCause | scripts/check_translation_freshness.py:132-138 | A line that is left out is a marker, a blank line, or a quoted line with only quoted lines between it and a notice marker |
| TranslationSplit.PartsAreShaped | scripts/check_translation_freshness.py:139-161 | Each block runs from an opening fence to the first line closing that fence; only the last may stay open; no paragraph is empty |
| TranslationSplit.BlankCuts | scripts/check_translation_freshness.py:153-158 | A blank line outside a fence splits the page into two pages split on their own |
| TranslationSplit.OnlyBlankCuts | scripts/check_translation_freshness.py:153-158 | Without such a line everything kept is one paragraph |
| TranslationSplit.NoticeIsInvisibleIff | scripts/check_translation_freshness.py:120-138 | Inserting the notice marker with its quoted lines outside a fence changes none of the results if and only if the page does not go on with a quoted line of its own there (or stands behind a notice already) |
| ThemeTable.MappingsAreGood | scripts/theme_codemod.py:49-124 | In the whole expanded table every dark class is one, no light class or token is, no token is half of a pair, and each class is one run of the characters the guards look at |
| ThemeText.SplitJoin | scripts/theme_codemod.py:184-211 | Classes joined with a blank are split into the same classes |
| ThemeText.WordsOfSplit | scripts/theme_codemod.py:184 | The words of a class value are those of its classes in turn: no word goes across white space |
| ThemeLiteral.FoundIff | scripts/theme_codemod.py:140-151 | Substituting a guarded pattern through a text reports a hit if and only if the pattern matches somewhere in it, whatever quotes or punctuation stand around the pair or a colon right behind it, and without one the text stays |
| ThemeRewrites.SubTextIs | scripts/theme_codemod.py:147-179 | What a substitution writes: the text is cut at one guarded pair for each hit, each is replaced by the replacement, and every character between them stays |
| ThemeLiteral.SubWords | scripts/theme_codemod.py:172-179 | What the substitution leaves, cut into words, is the pair-for-replacement substitution on the words of the text, with the same hits |
| ThemeLiteral.LiteralPass | scripts/theme_codemod.py:172-179 | The loop over patterns computes the successive substitutions on the text and their hits |
| ThemeLiteral.LiteralLowers | scripts/theme_codemod.py:172-179 | Every literal hit removes at least one `dark:` class of the text; no hit changes nothing |
| ThemeLiteral.SubLeavesNone | scripts/theme_codemod.py:147-179 | A substitution leaves no match of its own pattern and brings back none of another |
| ThemeLiteral.CleanIff | scripts/theme_codemod.py:172-179 | A literal pass finds nothing if and only if no pattern matches anywhere, and then leaves the text to the character |
| ThemeLiteral.LiteralPassIdempotent | scripts/theme_codemod.py:147-179 | A second literal pass finds nothing and changes no character |
| ThemeCodemod.FindPairs | scripts/theme_codemod.py:189-199 | The loop over the table finds exactly the pairs present, their classes, tokens in order without repeats, and hits |
| ThemeCodemod.Rebuild | scripts/theme_codemod.py:200-211 | The rebuild loop splices the inserts once, where the first consumed class stood |
| ThemeCodemod.Transform | scripts/theme_codemod.py:182-211 | The whole class value, white space included, and the number of hits |
| ThemeCodemod.TransformClassSet | scripts/theme_codemod.py:182-211 | The class set is the input's less both halves of every pair found plus each token |
| ThemeCodemod.SpliceInOrder | scripts/theme_codemod.py:200-211 | Unconsumed classes keep their order and place around the inserts |
| ThemeRewrites.PairsAreReplaced | scripts/theme_codemod.py:182-211 | A class value in which a pair is found: its classes in order, joined by one blank, without the halves of the pairs, and with the inserts where the first half stood |
| ThemeRewrites.NoPairStays | scripts/theme_codemod.py:182-199 | A class value that holds no two halves of a mapping stays as it is written |
| ThemeRewrites.InsertsInOrder | scripts/theme_codemod.py:189-199 | The inserts stand in the order in which their tokens are first found in the table |
| ThemeRewrites.HitsCount | scripts/theme_codemod.py:189-199 | The hits are as many as mappings with both halves present |
| ThemeCodemod.TransformLowers | scripts/theme_codemod.py:182-211 | A hit strictly lowers the number of dark classes in the value; none leaves it as written |
| ThemeCodemod.TransformIdempotent | scripts/theme_codemod.py:182-211 | A second transform of a class value finds nothing and changes no character |
| ThemeCodemod.CutIs | scripts/theme_codemod.py:135 | The first class attribute of a text is found again in place whatever its value and the text behind it become |
| ThemeCodemod.TransformAttributes | scripts/theme_codemod.py:240-247 | Every class attribute of a text is found from left to right and its value transformed on its own |
| ThemeRewrites.AttrPassIs | scripts/theme_codemod.py:240-247 | The first class attribute of a text has its value transformed, all around the value stays, and so on behind it; hits add up |
| ThemeRewrites.NoAttributeStays | scripts/theme_codemod.py:135-247 | A text in which no quote closes a `class="` stays as it is |
| ThemeCodemod.AttrPassIdempotent | scripts/theme_codemod.py:240-247 | A second pass over the attributes of a text finds nothing and changes no character |
| ThemeCodemod.File.Process | scripts/theme_codemod.py:229-250 | The text of the file becomes the processed text only with `--apply`; the hits are both passes' hits |
| ThemeCodemod.ProcessLowers | scripts/theme_codemod.py:229-250 | A pass that reports a hit strictly lowers the number of dark classes in the file, one that reports none leaves it to the character |
| ThemeCodemod.File.ApplyUntilClean | scripts/theme_codemod.py:269-300 | Repeating `--apply` ends within one pass more than the file has dark classes, in a file `--check` accepts and leaves alone |
| ThemeSecondPass.OnePassIsEnoughIff | scripts/theme_codemod.py:135-250 | One pass is the last if and only if, in the text the literal pass leaves, no class value holds two classes that stay, one ending in the left half and one starting in the right half of a pattern, apart by nothing but classes that are taken out, with the tokens that come in before them or none |
| ThemeSecondPass.TextMatchIff | scripts/theme_codemod.py:240-247 | A pattern that matched nowhere matches after the set-based pass if and only if some class value of the text left something for it |
| ThemeSecondPass.ClassMatchIff | scripts/theme_codemod.py:147-151 | A pattern matches in the words of a class value if and only if one of its classes ends in the left half and the next starts in the right half |
| ThemeSecondPass.SpliceMatchIff | scripts/theme_codemod.py:200-211 | Splicing puts the halves of a pattern side by side exactly over a gap of consumed classes the inserts do not fall into |
| ThemeSecondPass.OnePassIsEnough | scripts/theme_codemod.py:229-250 | When the set-based pass found nothing, one pass reaches the end |
| ThemeExamples.CardTakesTwoPasses | scripts/theme_codemod.py:160-250 | Any class ending in `font-medium` and any starting in `dark:text-white`, glued to punctuation or not, around `dark:bg-gray-800` behind `bg-white`: what one pass leaves, and that the next finds it |
| ThemeExamples.OnePassIsNotEnough | scripts/theme_codemod.py:49-250 | With the real table, `bg-white font-medium dark:bg-gray-800 dark:text-white` and its form inside a JavaScript ternary need a second pass |
| AriIdentifier.OctetsAreMinimal | modules/core/ari.py:81-92 | The serial's octets are minimal non-negative DER content (section 8.3 of X.690) and decode to the serial, for every serial |
| AriIdentifier.MinimalIsUnique | modules/core/ari.py:81-92 | Every minimal non-negative content is what is written for its value |
| AriIdentifier.DecodeB64 | modules/core/ari.py:76-78 | Unpadded base64url decodes back to its bytes and uses only its alphabet (section 5 of RFC 4648) |
| AriBase64.B64Is | modules/core/ari.py:76-78 | Unpadded base64url bit by bit: as many symbols as hold every bit, each the symbol of the next six, zeros behind the last (sections 4 and 5 of RFC 4648) |
| AriIdentifier.IdReadsBack | modules/core/ari.py:81-113 | Key identifier and serial can both be read back from the certificate identifier (section 4.1 of RFC 9773); a certificate without one is refused for the first thing missing |
| AriIdentifier.IdIsInjective | modules/core/ari.py:95-113 | Different (key identifier, serial) pairs have different identifiers |
| AriIdentifier.UrlsAreDistinct | modules/core/ari.py:116-131 | Different certificates get different URLs of one CA, and an identifier is a single unescaped path segment |
| AriIdentifier.QuoteIsOneSegment | modules/core/ari.py:128-131 | Any identifier, malformed or not, is escaped into unreserved characters and percent signs, and can be read back |
| AriIdentifier.UrlIs | modules/core/ari.py:116-131 | There is a URL exactly for a non-empty base: the base without the slashes at its end, one slash and the escaped identifier |
| AriWindow.AcceptedIff | modules/core/ari.py:150-170 | A window is accepted if and only if both ends are there, in order and at most 365 days apart |
| AriWindow.PointIsNearest | modules/core/ari.py:173-201 | The point is the microsecond nearest to the exact fraction of the window, the even one of two |
| AriWindow.DueIsNextSecond | modules/core/ari.py:173-201 | Due is the first whole second at or after the point; an empty window is due at its one instant |
| AriWindow.ObservationIs | modules/core/ari.py:217-254 | A record shows both ends of the window and the renewal instant to the second, none of them later than it is, and nothing of the kind without a window |
| AriWindow.DueInWindow | modules/core/ari.py:173-201 | The due instant lies between the window's start and its end rounded up to a second, on a whole second unless the window is empty |
| AriWindow.DueSpreads | modules/core/ari.py:173-201 | Due instants follow the order of the digests, from the window's first second |
| AriWindow.HalfOpenIff | modules/core/ari.py:173-201 | The documented half-open window is kept for a digest exactly when its point is not behind the last whole second of a non-empty window |
| AriWindow.NoWindowIsHalfOpen | modules/core/ari.py:173-201 | For every accepted window some digest is due at the end or later |
| AriWindow.ShownIsActedOnIff | modules/core/ari.py:217-254 | The instant shown equals the instant acted on, unless and only unless the window is empty and starts inside a second |
| AriWindow.SweepAtShownInstantRenews | modules/core/ari.py:217-262 | A sweep at the shown instant renews under that condition; once due, due at every later sweep |
| AriWindow.DueBySweeps | modules/core/ari.py:257-262 | No sweep before the window finds the certificate due, every sweep after its last second does |
| AriClient.RenewalInfoClient.Directory | modules/core/ari.py:303-317 | Answer, cache afterwards and whether the CA was asked, failures cached like answers |
| AriClient.RenewalInfoClient.RenewalInfo | modules/core/ari.py:323-328 | The payload the CA gives for the certificate through the cached directory |
| AriClient.RenewalInfoClient.Lookup | modules/core/ari.py:330-347 | The status says which kind of answer there was; a window comes with its payload and nothing else does |
| AriClient.RenewalInfoClient.SaysRenewNow | modules/core/ari.py:349-354 | True exactly when there is a payload whose window makes the certificate due |
| AriClient.RenewalInfoClient.AskAll | modules/core/ari.py:323-354 | The three entry points agree on one state, and asking all of them costs at most one directory fetch |
| AriClient.CacheIsLatest | modules/core/ari.py:303-317 | After any calls the cache holds exactly the latest fetch of each URL |
| AriClient.FetchesAreSpaced | modules/core/ari.py:303-317 | Two fetches of one URL are at least 3600 s apart, answered or not, under a clock that does not run backwards |
| AriClient.ReturnedIsLatest | modules/core/ari.py:303-317 | Every document returned is the one of the latest fetch, made now or less than 3600 s ago |
| ProcessLock.NextKeepsInv | modules/factory.py:919-982 | Every step, deaths included, keeps the kernel's lock table and the activities' own view in agreement |
| ProcessLock.RunKeepsInv | modules/factory.py:919-982 | So does every interleaving of any number of activities |
| ProcessLock.AtMostOneRuns | modules/factory.py:919-1007 | Of the activities running one job at one time at most one opened the lock file; any other took a named fail-open branch |
| ProcessLock.FailsOpen | modules/factory.py:939-961 | An activity that finds no data directory, no fcntl or no way to open the file runs its job at once and leaves no lock touched; with the file open it has yet to ask; no step of another activity changes that |
| ProcessLock.SkippingLeaves | modules/factory.py:973-982 | A refused activity leaves by the same steps, and the lock it did not get stays where it is |
| ProcessLock.JobStarts | modules/factory.py:919-973 | With the lock free an activity that opens the file gets it, and nothing else changes |
| ProcessLock.JobEnds | modules/factory.py:974-982 | A job that is done gives its lock up, whether or not the unlock raises, and nothing else changes |
| ProcessLock.FreedOnEveryExit | modules/factory.py:974-982 | A lock is held only by an activity still there and still holding it: every exit, raised, failed or killed, frees it |
| ProcessLock.GrantedIff | modules/factory.py:962-973 | An activity gets its lock exactly when none of the same lock name holds it and flock does not fail: other names play no part |
| ProcessLock.HandedOn | modules/factory.py:962-982 | While a job runs the next is refused; after its normal, raising or deadly exit the next is granted |
| RequestWatchdog.RequestTracker.TrackStart | modules/factory.py:103-115 | Keeps the invariant of every run: the thread's entry is about its current request, no other entry is about that request, and the others are unchanged |
| RequestWatchdog.RequestTracker.LogSlow | modules/factory.py:117-141 | Keeps the invariant, and slow is said exactly when the thread's current request is tracked and started at least the threshold before the clock is read |
| RequestWatchdog.RequestTracker.Clear | modules/factory.py:143-147 | Keeps the invariant: the thread has no entry, its request has left, and no entry is about a request that has |
| RequestWatchdog.RequestTracker.Scan | modules/factory.py:149-163 | Keeps the invariant, reports included; the request of a tracked thread is reported if and only if it started at least `slow_after` before and was never reported or last at least `repeat_every` before |
| RequestWatchdog.RequestTracker.Stamp | modules/factory.py:152-163 | The loop stamps and returns exactly the selected entries |
| RequestWatchdog.RunKeepsInv | modules/factory.py:99-163 | Every interleaving of starts, ends, teardowns and scans, whenever a scan read the clock, keeps the table truthful and every request's reports spaced |
| RequestWatchdog.SlowIsReported | modules/factory.py:149-163 | Over every run: after a turn of the watchdog every tracked request at least `slow_after` old has a report later than `repeat_every` before that turn |
| RequestWatchdog.EntriesAreCurrent | modules/factory.py:99-147 | Each tracked entry is about its thread's current request, with its start time, and no request has two |
| RequestWatchdog.ReportsAreBounded | modules/factory.py:149-163 | A request that has lasted d so far, or lasted d before it left, is reported never before slow_after and at most 1 + floor((d - slow_after) / repeat_every) times |
| ReissueQueue.Limit | modules/api/resources_reissue_keyless.py:34-40 | 50 for a number above 50, 1 for one below 1, the number itself in between, 10 when there is none; the call fails exactly for an infinity and for a body that is not empty and no object |
| ReissueQueue.QueueKeylessReissues | modules/api/resources_reissue_keyless.py:43-74 | Queued and refused interleave to a prefix, remaining is the suffix, at most `limit` are queued, and something remains only because of the limit or the full queue |
| ReissueQueue.StopIsUnique | modules/api/resources_reissue_keyless.py:43-74 | That point is unique, so the three lists are determined |
| ReissueQueue.CallMakesProgress | modules/api/resources_reissue_keyless.py:43-74 | A call that can queue leaves fewer keyless domains, or none it could ever queue |
| ReissueQueue.RepeatUntilDone | modules/api/resources_reissue_keyless.py:43-74 | Repeated calls end within one call more than there are domains, with exactly the refused ones left in order |
| VaultBackfill.KeyVault.Backfill | modules/api/resources_storage.py:476-507 | One call walks the first domains up to the limit: objects, results and counts afterwards; processed + remaining = listed |
| VaultBackfill.CountsAddUpIff | modules/api/resources_storage.py:499-507 | imported + skipped + errors = processed exactly when no domain was walked twice |
| VaultBackfill.ResultsMean | modules/api/resources_storage.py:480-502 | With distinct domains each is imported exactly when it was importable and not there, skipped when it was there and could be asked for, and else its error is its own reason |
| VaultBackfill.AfterMembers | modules/api/resources_storage.py:480-502 | A walk adds exactly the importable domains it reaches and touches no other object |
| VaultBackfill.CallsTouchOnlyTheFirst | modules/api/resources_storage.py:480-484 | However many calls, only the first `limit` domains of a stable listing can gain an object |
| VaultBackfill.PagingCoversIff | modules/api/resources_storage.py:442-446 | The documented paging gives every domain an object exactly when those past the limit had one already |
| VaultBackfill.PageThrough | modules/api/resources_storage.py:442-446 | "Until remaining is 0" is reached if and only if there is no limit or it is no less than the listing |
| VaultBackfill.PagingStalls | modules/api/resources_storage.py:442-446 | A vault with one domain imported, one not and limit 1 never changes, whatever the calls |
| VaultBackfill.ShortPageImports | modules/api/resources_storage.py:442-446 | If skips did not count, a page that stops short has imported something as long as fewer than `limit` domains before the last fail |
| VaultBackfill.BackfillAll | modules/api/resources_storage.py:442-446 | Under that condition the variant, called until nothing remains, ends with every importable domain imported |
| VaultBackfill.BackfillPages | modules/api/resources_storage.py:442-446 | Without it the variant never ends: however often it is called, something remains |
| VaultBackfill.ManyFailuresStall | modules/api/resources_storage.py:442-446 | Without it no walk of the variant gets past the last domain within its limit |
| AcmeProfiles.ReadWritten | modules/core/acme_profiles.py:66 | A setting line written with its layout is read back as the same setting |
| AcmeProfiles.ReadIff | modules/core/acme_profiles.py:64-66 | A line is read as a setting of a key if and only if it is that setting written out with blanks or nothing behind it |
| AcmeProfiles.RequiredIff | modules/core/acme_profiles.py:64-89 | Required are exactly the lines that give `required_profile` one value with blanks only around it; softening writes `preferred_profile` there, keeps layout and value and drops the blanks at the end |
| AcmeProfiles.PreferredIff | modules/core/acme_profiles.py:85-88 | An old preferred line is one on which, blanks aside, `=` follows `preferred_profile` |
| AcmeProfiles.SoftenedIsPreferred | modules/core/acme_profiles.py:66-89 | The softened line is a preferred line with the required line's value and layout, and no required line |
| AcmeProfiles.SoftenInPlace | modules/core/acme_profiles.py:82-89 | The softened line stands where the first required line stood among the kept lines |
| AcmeProfiles.SoftenMoves | modules/core/acme_profiles.py:69-94 | A call that reports a profile leaves one preferred line with that value, one required line fewer and every other line in order; one that reports none was given no required line |
| AcmeProfiles.SoftenAll | modules/core/acme_profiles.py:69-94 | Repeated softening ends with no required line and the last required one preferred |
| AcmeProfiles.RenewalConf.SoftenRenewalConf | modules/core/acme_profiles.py:69-94 | The configuration is the old text or the softened text, whole, wherever the call dies |
| Timestamps.WithZChangesIff | modules/api/timestamps.py:31-39 | A string is rewritten if and only if it is a date-time with no offset or a zero one |
| Timestamps.WithZOf | modules/api/timestamps.py:31-39 | Six numbers with their separators, a fraction of one to six digits or none, a zero offset or none and perhaps a line break are rewritten to the date-time and a `Z` |
| Timestamps.OnlyThoseChange | modules/api/timestamps.py:31-39 | Every string that is rewritten is made of such parts |
| Timestamps.WithZKeepsTheInstant | modules/api/timestamps.py:31-39 | The new form is the same date-time to the digit, with a `Z` |
| Timestamps.WithZIsFinal | modules/api/timestamps.py:34-39 | No rewritten string is rewritten again |
| Timestamps.Normalizer.Visit | modules/api/timestamps.py:46-58 | The recursive visit rewrites what it should and `changed` is set exactly if something differs |
| Timestamps.Normalize | modules/api/timestamps.py:42-61 | `changed` is reported if and only if the payload differs |
| Timestamps.VisitedAt | modules/api/timestamps.py:46-58 | At every path of the payload: the same place under the same name; a string directly under a named key in the one form; every other string and leaf untouched, in lists too |
| Timestamps.NoneIsLeft | modules/api/timestamps.py:42-61 | No named string is left naive or with a zero offset, at any depth |
| Timestamps.NormalizeIsIdempotent | modules/api/timestamps.py:42-61 | A second pass changes nothing |
| Timestamps.ChangedIff | modules/api/timestamps.py:42-61 | The payload changes if and only if some named string lacked the form |

## Left out

- Cryptography: a hash is a symbolic term (equal only for equal inputs), a signature names its key and message, a fingerprint its key; no canonical JSON bytes, PEM or X.509.
- Checkpoints, their signatures and the cross-check against the latest one: separate from the prune, mostly field comparisons.
- AuditExecute.AuditDirectory.ExecutePrune: the branch that appends through a running `AuditLogger` and skips the changed-file error is not modelled; the command never takes it. A change of the file is any appended line (size and mtime).
- AuditRuns.HistoryIsConserved: runs have one writer at a time and no torn write; torn writes are those of AuditTears, and writers inside a prune are treated one prune at a time in AuditFaults. Lines end at line feeds only: the service's recovery uses `splitlines`, so it does not recover a record whose text holds a character such as U+2028 or U+0085, which is written raw, and gives its seq out again.
- AuditRuns.RunKeepsInv: as HistoryIsConserved; AuditTears.RunKeepsInv covers the runs with torn writes.
- AuditRuns.AttemptKeepsInv: deaths inside a write are those of AuditTears.AttemptKeepsInv.
- AuditRuns.RerunCompletes: the rerun after a death inside a write is AuditTears.RerunAfterTornWrite.
- AuditTears.EachTearCosts: one writer at a time; an attempt stops the service, which reads the file again afterwards; recovery reads the lines the readers do, as in AuditRuns.
- AuditChain.ChainVerifier.Feed: a record has all its fields; a JSON object that lacks some is refused by the code as malformed and has no counterpart here.
- A missing chain file is an empty one, and blank lines of it are dropped: the code treats them alike except in wording.
- AdvisoryGroups.CheckRows: the packages of a report are a set (the code lists them sorted), and the queries to OSV are its input.
- `parse_freeze`, the printing and the exit text of the advisory check: plumbing.
- Lockfile headers are arbitrary comment lines; white space, case and line ends are ASCII; what the `packaging` library says of a requirement line is an arbitrary function; file names and `--constraints` off are not modelled.
- `drift`, `_code_line_matches` and the heading, link and table comparisons behind it: consumers of the split that compare lists one by one.
- TranslationSplit.Split: lines are given; `splitlines` on anything but a line feed and non-ASCII white space are not modelled.
- ThemeLiteral.FoundIff: letters and digits outside ASCII, which `\w` takes for word characters, are none here; white space is that of Unicode.
- ThemeCodemod.File.Process: the hits are a number where the code counts them by token; the report of leftover dark classes, the choice of files and their encoding are not modelled.
- AriWindow.DueInWindow: the digest fraction is the exact k / 2^64 where the code uses a double, and instants are integer microseconds; RFC 3339 parsing and the calendar are inputs.
- AriClient: fetching is an arbitrary answer per call; the explanation URL filter is an input.
- ProcessLock: activities share one host; what the job itself does is not modelled, nor is an activity suspended for ever.
- `stop_background_work`, the log lines of the watchdog and the scheduler: ordered calls with no state between them.
- ReissueQueue.QueueKeylessReissues: what `prepare_reissue` and the queue answer are parameters; job ids and URLs are left out.
- ReissueQueue.RepeatUntilDone: assumes what the answer tells its caller to rely on: queued jobs complete between calls, a refused domain stays refused, and each call finds room for one.
- VaultBackfill.KeyVault.Backfill: an import that raises is taken to have imported nothing; the audit record and the answer's text are left out. BackfillPage and BackfillAll model a variant the repository does not contain.
- `validate_profile`, `profiles_offered`, `profile_offered`: one-branch functions.
- AcmeProfiles: lines end at line feeds only, and white space is ASCII.
- Timestamps.Normalizer.Visit: returns the rewritten payload as a value where the code assigns into the dictionaries it was given, so sharing between parts of a payload is not modelled; digits are ASCII; the response hook around it is plumbing.
- Flask resources, authorization, headers, storage SDKs, DNS, certbot and every network call: inputs or absent.
