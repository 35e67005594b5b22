/**
 Whole runs over one audit directory in which every write to the chain file may be torn: entries
 logged by a service that may be restarted, and prune attempts that may die anywhere, inside a
 write included. What each torn write costs is said exactly, from the writes alone.
 */
module AuditTears {
  import opened Wrappers
  import opened AuditChain
  import opened AuditAnchor
  import opened AuditBundle
  import opened AuditPrune
  import opened AuditExecute
  import opened AuditFaults
  import Runs = AuditRuns

  // ---------------------------------------------------------------- writes

  /** How much of a line reached the disk, if anything did: `Bare` is all of it but the newline. */
  datatype How = Whole | Bare | Part

  datatype Write = Write(rec: Record, how: How)

  /** A written record is still in the chain or in the archive: it was written in full, the write
      before it was finished, and it was finished itself or nothing has been written after it. */
  predicate Kept(tape: seq<Write>, i: nat)
    requires i < |tape|
  {
    && tape[i].how != Part
    && (i == 0 || tape[i - 1].how == Whole)
    && (tape[i].how == Whole || i == |tape| - 1)
  }

  function KeptUpTo(tape: seq<Write>, n: nat): seq<Record>
    requires n <= |tape|
  {
    if n == 0 then [] else KeptUpTo(tape, n - 1) + (if Kept(tape, n - 1) then [tape[n - 1].rec] else [])
  }

  function KeptOf(tape: seq<Write>): seq<Record> {
    KeptUpTo(tape, |tape|)
  }

  function AllWritten(tape: seq<Write>): seq<Record> {
    seq(|tape|, i requires 0 <= i < |tape| => tape[i].rec)
  }

  /** Nothing is torn, except that the last record may lack its newline. */
  predicate NothingTorn(tape: seq<Write>) {
    forall i | 0 <= i < |tape| :: tape[i].how == Whole || (i == |tape| - 1 && tape[i].how == Bare)
  }

  lemma {:induction false} KeptAtMost(tape: seq<Write>, n: nat)
    requires n <= |tape|
    ensures |KeptUpTo(tape, n)| <= n
    ensures |KeptUpTo(tape, n)| == n <==> forall i | 0 <= i < n :: Kept(tape, i)
    ensures (forall i | 0 <= i < n :: Kept(tape, i)) ==> KeptUpTo(tape, n) == AllWritten(tape)[..n]
  {
    if n > 0 {
      KeptAtMost(tape, n - 1);
      assert AllWritten(tape)[..n] == AllWritten(tape)[..n - 1] + [tape[n - 1].rec];
    }
  }

  /** Every written record is kept exactly when no write was torn. */
  lemma LosslessIff(tape: seq<Write>)
    ensures KeptOf(tape) == AllWritten(tape) <==> NothingTorn(tape)
  {
    KeptAtMost(tape, |tape|);
    assert AllWritten(tape)[..|tape|] == AllWritten(tape);
    if NothingTorn(tape) {
      forall i | 0 <= i < |tape| ensures Kept(tape, i) {
        assert i == 0 || tape[i - 1].how == Whole;
      }
    }
    if forall i | 0 <= i < |tape| :: Kept(tape, i) {
      forall i | 0 <= i < |tape| ensures tape[i].how == Whole || (i == |tape| - 1 && tape[i].how == Bare) {
        assert Kept(tape, i);
      }
    }
  }

  lemma {:induction false} KeptBefore(tape: seq<Write>, w: Write, n: nat)
    requires n + 1 <= |tape|
    ensures KeptUpTo(tape + [w], n) == KeptUpTo(tape, n)
  {
    if n > 0 {
      KeptBefore(tape, w, n - 1);
      assert (tape + [w])[n - 1] == tape[n - 1];
      assert n > 1 ==> (tape + [w])[n - 2] == tape[n - 2];
    }
  }

  predicate AtLineEnd(tape: seq<Write>) {
    tape == [] || tape[|tape| - 1].how == Whole
  }

  /** What one more write changes: behind a finished one it adds its record if that is whole; behind
      an unfinished one it adds nothing and takes away the record it is written into, if any. */
  lemma {:induction false} KeptOneMore(tape: seq<Write>, w: Write)
    ensures KeptOf(tape + [w]) ==
            if AtLineEnd(tape) then KeptOf(tape) + (if w.how == Part then [] else [w.rec])
            else KeptUpTo(tape, |tape| - 1)
  {
    var more, n := tape + [w], |tape|;
    assert more[n] == w;
    if n == 0 {
      assert KeptUpTo(more, 0) == [];
    } else {
      KeptBefore(tape, w, n - 1);
      assert more[n - 1] == tape[n - 1] && (n > 1 ==> more[n - 2] == tape[n - 2]);
      assert KeptUpTo(more, n) == KeptUpTo(tape, n - 1) + (if Kept(more, n - 1) then [tape[n - 1].rec] else []);
      assert KeptOf(more) == KeptUpTo(more, n) + (if Kept(more, n) then [w.rec] else []);
    }
  }

  // ------------------------------------------------------------- one write

  function Put(file: ChainFile, rec: Record, how: How): ChainFile {
    match how
    case Whole => AppendTo(file, Rec(rec), true)
    case Bare => AppendTo(file, Rec(rec), false)
    case Part => AppendTo(file, Garbage, false)
  }

  /** The file ends as the last write left it. */
  predicate TailFits(file: ChainFile, tape: seq<Write>) {
    if AtLineEnd(tape) then file.terminated && (tape == [] ==> file.lines == [])
    else
      && !file.terminated && file.lines != []
      && file.lines[|file.lines| - 1] ==
         if Kept(tape, |tape| - 1) then Rec(tape[|tape| - 1].rec) else Garbage
  }

  lemma PutRecords(file: ChainFile, rec: Record, how: How)
    ensures Records(Put(file, rec, how).lines) ==
            if file.terminated || file.lines == [] then Records(file.lines) + (if how == Part then [] else [rec])
            else if file.lines[|file.lines| - 1].Garbage? || Records(file.lines) == [] then Records(file.lines)
            else Records(file.lines)[..|Records(file.lines)| - 1]
  {
    AppendedRecords(file, rec);
    if how == Part && (file.terminated || file.lines == []) {
      RecordsConcat(file.lines, [Garbage]);
      assert Records([Garbage]) == [];
    } else {
      assert Put(file, rec, how).lines == AppendTo(file, Rec(rec), true).lines;
    }
  }

  lemma LastRecord(file: ChainFile, rec: Record)
    requires file.lines != [] && file.lines[|file.lines| - 1] == Rec(rec)
    ensures Records(file.lines) != [] && Records(file.lines)[|Records(file.lines)| - 1] == rec
  {
    var n := |file.lines| - 1;
    assert file.lines == file.lines[..n] + [Rec(rec)];
    RecordsConcat(file.lines[..n], [Rec(rec)]);
    assert Records([Rec(rec)]) == [rec];
  }

  lemma PutFits(file: ChainFile, tape: seq<Write>, rec: Record, how: How)
    requires TailFits(file, tape)
    ensures TailFits(Put(file, rec, how), tape + [Write(rec, how)])
  {
    var more := tape + [Write(rec, how)];
    assert more[|tape|] == Write(rec, how) && (tape != [] ==> more[|tape| - 1] == tape[|tape| - 1]);
  }

  lemma PutBehindFinished(archived: seq<Record>, file: ChainFile, tape: seq<Write>, rec: Record,
                          how: How)
    requires TailFits(file, tape) && AtLineEnd(tape) && archived + Records(file.lines) == KeptOf(tape)
    ensures archived + Records(Put(file, rec, how).lines) == KeptOf(tape + [Write(rec, how)])
  {
    var recs := Records(file.lines);
    PutRecords(file, rec, how);
    KeptOneMore(tape, Write(rec, how));
    assert archived + (recs + [rec]) == archived + recs + [rec];
    assert archived + (recs + []) == archived + recs + [];
  }

  lemma WithoutLast<T>(a: seq<T>, b: seq<T>, c: seq<T>, x: T)
    requires a + b == c + [x] && b != []
    ensures a + b[..|b| - 1] == c
  {
    assert a + b[..|b| - 1] == (a + b)[..|a + b| - 1];
    assert c == (c + [x])[..|c|];
  }

  lemma PutBehindTorn(archived: seq<Record>, file: ChainFile, tape: seq<Write>, rec: Record, how: How)
    requires TailFits(file, tape) && !AtLineEnd(tape) && archived + Records(file.lines) == KeptOf(tape)
    ensures archived + Records(Put(file, rec, how).lines) == KeptOf(tape + [Write(rec, how)])
  {
    var recs, n := Records(file.lines), |tape| - 1;
    PutRecords(file, rec, how);
    KeptOneMore(tape, Write(rec, how));
    if Kept(tape, n) {
      LastRecord(file, tape[n].rec);
      WithoutLast(archived, recs, KeptUpTo(tape, n), tape[n].rec);
    } else {
      assert KeptOf(tape) == KeptUpTo(tape, n) + [];
    }
  }

  /** On the disk and on the tape one write does the same. */
  lemma PutConserves(archived: seq<Record>, file: ChainFile, tape: seq<Write>, rec: Record, how: How)
    requires TailFits(file, tape) && archived + Records(file.lines) == KeptOf(tape)
    ensures archived + Records(Put(file, rec, how).lines) == KeptOf(tape + [Write(rec, how)])
  {
    if AtLineEnd(tape) {
      PutBehindFinished(archived, file, tape, rec, how);
    } else {
      PutBehindTorn(archived, file, tape, rec, how);
    }
  }

  // ------------------------------------------------- records of a torn chain

  /** The records are in order, with gaps perhaps, and each carries its own digest. */
  predicate Sound(recs: seq<Record>) {
    && (forall i, j | 0 <= i < j < |recs| :: recs[i].seqNo < recs[j].seqNo)
    && (forall i | 0 <= i < |recs| :: recs[i].hash == Digest(recs[i].seqNo, recs[i].entry, recs[i].prevHash))
  }

  predicate AllBelow(recs: seq<Record>, n: int) {
    forall i | 0 <= i < |recs| :: recs[i].seqNo < n
  }

  predicate AllFrom(recs: seq<Record>, n: int) {
    forall i | 0 <= i < |recs| :: recs[i].seqNo >= n
  }

  lemma {:induction false} UpToConcat(a: seq<Record>, b: seq<Record>, last: int)
    ensures UpTo(a + b, last) == UpTo(a, last) + UpTo(b, last)
  {
    if a == [] {
      assert a + b == b;
    } else {
      var whole, tail := a + b, a[1..] + b;
      var head := if a[0].seqNo <= last then [a[0]] else [];
      assert whole[0] == a[0] && whole[1..] == tail;
      UpToConcat(a[1..], b, last);
      assert UpTo(whole, last) == head + UpTo(tail, last) && UpTo(a, last) == head + UpTo(a[1..], last);
    }
  }

  lemma {:induction false} FiltersBelow(recs: seq<Record>, first: int)
    requires AllBelow(recs, first)
    ensures From(recs, first) == [] && UpTo(recs, first - 1) == recs
  {
    if recs != [] {
      FiltersBelow(recs[1..], first);
      assert recs == [recs[0]] + recs[1..];
    }
  }

  lemma {:induction false} FiltersAbove(recs: seq<Record>, first: int)
    requires AllFrom(recs, first)
    ensures From(recs, first) == recs && UpTo(recs, first - 1) == []
  {
    if recs != [] {
      FiltersAbove(recs[1..], first);
      assert recs == [recs[0]] + recs[1..];
    }
  }

  lemma FiltersSplit(below: seq<Record>, above: seq<Record>, first: int)
    requires AllBelow(below, first) && AllFrom(above, first)
    ensures From(below + above, first) == above && UpTo(below + above, first - 1) == below
  {
    FiltersBelow(below, first);
    FiltersAbove(above, first);
    FromConcat(below, above, first);
    UpToConcat(below, above, first - 1);
    assert [] + above == above && below + [] == below;
  }

  lemma SoundBelow(recs: seq<Record>, k: nat, first: int)
    requires Sound(recs) && k <= |recs| && (k > 0 ==> recs[k - 1].seqNo < first)
    ensures AllBelow(recs[..k], first)
  {
    forall i | 0 <= i < k ensures recs[i].seqNo < first {
      assert i == k - 1 || recs[i].seqNo < recs[k - 1].seqNo;
    }
  }

  lemma SoundAbove(recs: seq<Record>, k: nat, first: int)
    requires Sound(recs) && k <= |recs| && (k < |recs| ==> recs[k].seqNo >= first)
    ensures AllFrom(recs[k..], first)
  {
    forall i | k <= i < |recs| ensures recs[i].seqNo >= first {
      assert i == k || recs[k].seqNo < recs[i].seqNo;
    }
  }

  lemma SoundFrom(recs: seq<Record>, k: nat, first: int)
    requires Sound(recs) && k <= |recs|
    requires (k < |recs| ==> recs[k].seqNo >= first) && (k > 0 ==> recs[k - 1].seqNo < first)
    ensures From(recs, first) == recs[k..] && UpTo(recs, first - 1) == recs[..k]
  {
    SoundBelow(recs, k, first);
    SoundAbove(recs, k, first);
    FiltersSplit(recs[..k], recs[k..], first);
    assert recs == recs[..k] + recs[k..];
  }

  lemma SoundTail(recs: seq<Record>, k: nat)
    requires Sound(recs) && k <= |recs|
    ensures Sound(recs[k..])
  {
  }

  /** The records below a seq are a prefix. */
  lemma SoundCut(recs: seq<Record>, first: int) returns (k: nat)
    requires Sound(recs)
    ensures k <= |recs| && From(recs, first) == recs[k..] && UpTo(recs, first - 1) == recs[..k]
    ensures (k < |recs| ==> recs[k].seqNo >= first) && (k > 0 ==> recs[k - 1].seqNo < first)
  {
    k := 0;
    while k < |recs| && recs[k].seqNo < first
      invariant k <= |recs| && (k > 0 ==> recs[k - 1].seqNo < first)
    {
      k := k + 1;
    }
    SoundFrom(recs, k, first);
  }

  lemma {:induction false} SoundSpread(recs: seq<Record>, i: nat, j: nat)
    requires Sound(recs) && i <= j < |recs|
    ensures recs[j].seqNo - recs[i].seqNo >= j - i
  {
    if i < j {
      SoundSpread(recs, i, j - 1);
    }
  }

  /** As many sound records as a linked run has, each in it under its seq and hash, are that run. */
  lemma CoveredIsTheRun(covered: seq<Record>, entries: seq<Record>, q: Hash)
    requires Sound(covered) && Linked(entries, q, None) && |covered| == |entries|
    requires FirstDifference(covered, entries) == None
    ensures covered == entries
  {
    forall i | 0 <= i < |covered| ensures covered[i] == entries[i] {
      var n := |covered| - 1;
      InTheRun(covered, entries, q, 0);
      InTheRun(covered, entries, q, n);
      SoundSpread(covered, 0, i);
      SoundSpread(covered, i, n);
      NoDifference(covered, entries, i);
      HashAtLinked(entries, q, covered[i].seqNo);
      assert LinkedAt(entries, q, i);
    }
  }

  lemma InTheRun(covered: seq<Record>, entries: seq<Record>, q: Hash, i: nat)
    requires Linked(entries, q, None) && i < |covered| && entries != []
    requires FirstDifference(covered, entries) == None
    ensures entries[0].seqNo <= covered[i].seqNo < entries[0].seqNo + |entries|
  {
    NoDifference(covered, entries, i);
    HashAtIsAnEntry(entries, covered[i].seqNo);
    var j: nat :| j < |entries| && entries[j].seqNo == covered[i].seqNo;
    assert LinkedAt(entries, q, j);
  }

  /** What a plan says it has looked at. */
  lemma PlanScanned(lines: seq<Line>, anchor: AnchorFile, bundle: Bundle, sha: string)
    requires PlanOf(lines, anchor, bundle, sha).Ok?
    ensures var recs, entries, plan := Records(lines), bundle.entries, PlanOf(lines, anchor, bundle, sha).value;
            && VerifyBundle(bundle).Ok? && entries != []
            && plan.archivedFirst == entries[0].seqNo && plan.archivedCount == |entries| && plan.bundleSha == sha
            && plan.archivedLast == entries[0].seqNo + |entries| - 1 && plan.anchorSeq == plan.archivedLast + 1
            && var covered, rest := UpTo(recs, plan.archivedLast), From(recs, plan.anchorSeq);
               && |covered| == |entries| && FirstDifference(covered, entries) == None
               && HashAt(covered, Some(plan.archivedLast)) == Some(plan.prevHash)
               && rest != [] && rest[0].seqNo == plan.anchorSeq
  {
    VerifiedBundleIsLinked(bundle);
  }

  /** A plan takes exactly the records of the bundle, and at least one live record stands behind them. */
  lemma PlanTakes(lines: seq<Line>, anchor: AnchorFile, bundle: Bundle, sha: string)
    requires Sound(Records(lines)) && PlanOf(lines, anchor, bundle, sha).Ok?
    ensures Takes(Records(lines), PlanOf(lines, anchor, bundle, sha).value, Runs.Round(bundle, sha))
  {
    PlanScanned(lines, anchor, bundle, sha);
    VerifiedBundleIsLinked(bundle);
    var q :| Linked(bundle.entries, q, None);
    ScannedTakes(Records(lines), PlanOf(lines, anchor, bundle, sha).value, bundle, sha, q);
  }

  predicate Takes(recs: seq<Record>, plan: Plan, round: Runs.Round) {
    var k := |round.bundle.entries|;
    && 0 < k < |recs| && round.bundle.entries == recs[..k]
    && recs[k - 1].seqNo + 1 == plan.anchorSeq == recs[k].seqNo && recs[k - 1].hash == plan.prevHash
    && ArchiveEntry(plan) == Runs.RoundEntry(round)
  }

  lemma ScannedTakes(recs: seq<Record>, plan: Plan, bundle: Bundle, sha: string, q: Hash)
    requires Sound(recs) && bundle.entries != [] && Linked(bundle.entries, q, None)
    requires var entries := bundle.entries;
             && plan.archivedFirst == entries[0].seqNo && plan.archivedCount == |entries| && plan.bundleSha == sha
             && plan.archivedLast == entries[0].seqNo + |entries| - 1 && plan.anchorSeq == plan.archivedLast + 1
    requires |UpTo(recs, plan.archivedLast)| == |bundle.entries|
    requires FirstDifference(UpTo(recs, plan.archivedLast), bundle.entries) == None
    requires HashAt(UpTo(recs, plan.archivedLast), Some(plan.archivedLast)) == Some(plan.prevHash)
    requires From(recs, plan.anchorSeq) != [] && From(recs, plan.anchorSeq)[0].seqNo == plan.anchorSeq
    ensures Takes(recs, plan, Runs.Round(bundle, sha))
  {
    var entries := bundle.entries;
    var k := SoundCut(recs, plan.anchorSeq);
    CoveredIsTheRun(recs[..k], entries, q);
    assert LinkedAt(entries, q, k - 1);
    HashAtLinked(entries, q, plan.archivedLast);
  }

  // ------------------------------------------------------------------ runs

  /** `logger` is the last record the running service wrote, from which it continues; None when it
      has been started, or has seen the file change, since: then it reads the file. `cuts[j]` is the
      place on the tape of the `archive` record of round `j`. */
  datatype World = World(disk: Disk, logger: Option<Record>, rounds: seq<Runs.Round>, cuts: seq<nat>, tape: seq<Write>)

  function Live(w: World): seq<Record> {
    Records(w.disk.chain.lines)
  }

  function HowOf(torn: Torn): Option<How> {
    match torn
    case Nothing => None
    case Fragment => Some(Part)
    case NoNewline => Some(Bare)
  }

  function Wrote(w: World, rec: Record, how: Option<How>): World {
    if how == None then w
    else w.(disk := w.disk.(chain := Put(w.disk.chain, rec, how.value)), tape := w.tape + [Write(rec, how.value)])
  }

  function NextRecord(w: World, entry: Entry): Record {
    match w.logger
    case Some(last) => MakeLine(last.seqNo + 1, entry, last.hash)
    case None => Runs.NextRecord(w.disk.chain, entry)
  }

  datatype Step =
    | Logged(entry: Entry, torn: Option<Torn>)   // torn: the service died writing it
    | Restart
    | Attempt(bundle: Bundle, sha: string, prunedAt: string, death: Death)

  /** The death leaves the chain cut. */
  predicate Cuts(death: Death) {
    death == Survives || death == AfterReplace
  }

  function Attempted(w: World, key: string, bundle: Bundle, sha: string, prunedAt: string, death: Death): World {
    match PlanOf(w.disk.chain.lines, w.disk.anchor, bundle, sha)
    case Err(_) => w.(logger := None)
    case Ok(plan) =>
      if Live(w) == [] then w.(logger := None)
      else
        var rec := ArchiveRecord(w.disk.chain, plan);
        var w1 := Wrote(w, rec, if death.InAppend? then HowOf(death.torn) else Some(Whole));
        World(After(w.disk, plan, Some(key), prunedAt, death, Nobody).0, None,
              if Cuts(death) then w.rounds + [Runs.Round(bundle, sha)] else w.rounds,
              if Cuts(death) then w.cuts + [|w.tape|] else w.cuts,
              w1.tape)
  }

  function Next(w: World, key: string, step: Step): World {
    match step
    case Logged(entry, None) =>
      var rec := NextRecord(w, entry);
      Wrote(w, rec, Some(Whole)).(logger := Some(rec))
    case Logged(entry, Some(torn)) => Wrote(w, NextRecord(w, entry), HowOf(torn)).(logger := None)
    case Restart => w.(logger := None)
    case Attempt(bundle, sha, prunedAt, death) => Attempted(w, key, bundle, sha, prunedAt, death)
  }

  const Fresh := World(Disk(ChainFile([], true), NoAnchor), None, [], [], [])

  function Run(key: string, steps: seq<Step>): World {
    if steps == [] then Fresh else Next(Run(key, steps[..|steps| - 1]), key, steps[|steps| - 1])
  }

  /** Round `j` wrote its `archive` record, whole, at `cuts[j]`. */
  predicate CutFits(w: World, j: nat)
    requires j < |w.rounds| && j < |w.cuts|
  {
    && w.cuts[j] < |w.tape| && w.tape[w.cuts[j]].how == Whole
    && w.rounds[j].bundle.entries != []
    && w.tape[w.cuts[j]].rec.entry == Runs.RoundEntry(w.rounds[j])
  }

  predicate Inv(w: World) {
    && TailFits(w.disk.chain, w.tape)
    && Runs.Archived(w.rounds) + Live(w) == KeptOf(w.tape)
    && Sound(Live(w))
    && (w.logger.Some? ==> AllBelow(Live(w), w.logger.value.seqNo + 1))
    && |w.cuts| == |w.rounds|
    && (forall j | 0 <= j < |w.rounds| :: CutFits(w, j))
  }

  /** What the running service remembers, and the anchor, are no part of what is conserved. */
  lemma SameChain(w: World, w': World)
    requires Inv(w) && w'.disk.chain == w.disk.chain && w'.logger == None
    requires w'.rounds == w.rounds && w'.cuts == w.cuts && w'.tape == w.tape
    ensures Inv(w')
  {
    CutsStay(w, w');
  }

  lemma Forgets(w: World)
    requires Inv(w)
    ensures Inv(w.(logger := None))
  {
    SameChain(w, w.(logger := None));
  }

  lemma NextIsNew(w: World, entry: Entry)
    requires Inv(w)
    ensures AllBelow(Live(w), NextRecord(w, entry).seqNo)
  {
    var recs := Live(w);
    if w.logger == None && recs != [] {
      forall i | 0 <= i < |recs| ensures recs[i].seqNo <= recs[|recs| - 1].seqNo {
        assert i == |recs| - 1 || recs[i].seqNo < recs[|recs| - 1].seqNo;
      }
    }
  }

  lemma PutSound(file: ChainFile, rec: Record, how: How)
    requires Sound(Records(file.lines)) && AllBelow(Records(file.lines), rec.seqNo)
    requires rec.hash == Digest(rec.seqNo, rec.entry, rec.prevHash)
    ensures Sound(Records(Put(file, rec, how).lines))
    ensures AllBelow(Records(Put(file, rec, how).lines), rec.seqNo + 1)
  {
    PutRecords(file, rec, how);
  }

  lemma CutsStay(w: World, w': World)
    requires |w.cuts| == |w.rounds| && (forall j | 0 <= j < |w.rounds| :: CutFits(w, j))
    requires w'.rounds == w.rounds && w'.cuts == w.cuts && w.tape <= w'.tape
    ensures forall j | 0 <= j < |w'.rounds| :: CutFits(w', j)
  {
    forall j | 0 <= j < |w'.rounds| ensures CutFits(w', j) {
      assert CutFits(w, j);
    }
  }

  lemma WroteKeepsInv(w: World, rec: Record, how: Option<How>, logger: Option<Record>)
    requires Inv(w) && AllBelow(Live(w), rec.seqNo) && rec.hash == Digest(rec.seqNo, rec.entry, rec.prevHash)
    requires logger == None || logger == Some(rec)
    requires how == None ==> logger == None
    ensures Inv(Wrote(w, rec, how).(logger := logger))
  {
    var w' := Wrote(w, rec, how).(logger := logger);
    if how.Some? {
      PutFits(w.disk.chain, w.tape, rec, how.value);
      PutConserves(Runs.Archived(w.rounds), w.disk.chain, w.tape, rec, how.value);
      PutSound(w.disk.chain, rec, how.value);
    }
    CutsStay(w, w');
  }

  lemma StillStarts(before: seq<Record>, after: seq<Record>, rec: Record, k: nat)
    requires k < |before|
    requires after == before + [rec] || after == before || after == before[..|before| - 1]
    ensures k <= |after| && after[..k] == before[..k] && (k < |after| ==> after[k] == before[k])
  {
  }

  /** Cutting the chain moves the bundle's records from the chain to the archive, whatever the
      `archive` record was written into. */
  lemma CutMoves(before: seq<Record>, after: seq<Record>, rec: Record, plan: Plan, round: Runs.Round)
    requires Sound(after) && Takes(before, plan, round)
    requires after == before + [rec] || after == before || after == before[..|before| - 1]
    ensures round.bundle.entries + From(after, plan.anchorSeq) == after
    ensures Sound(From(after, plan.anchorSeq))
  {
    var k := |round.bundle.entries|;
    StillStarts(before, after, rec, k);
    assert round.bundle.entries[k - 1] == before[k - 1];
    CutAt(after, round.bundle.entries, plan.anchorSeq);
  }

  lemma CutAt(recs: seq<Record>, entries: seq<Record>, first: int)
    requires Sound(recs) && 0 < |entries| <= |recs| && recs[..|entries|] == entries
    requires entries[|entries| - 1].seqNo < first && (|entries| < |recs| ==> recs[|entries|].seqNo >= first)
    ensures entries + From(recs, first) == recs && Sound(From(recs, first))
  {
    var k := |entries|;
    assert recs[k - 1] == entries[k - 1];
    SoundFrom(recs, k, first);
    SoundTail(recs, k);
    assert recs == recs[..k] + recs[k..];
  }

  /** The world once the chain is cut. */
  function CutWorld(w: World, w1: World, kept: seq<Record>, a: AnchorFile, round: Runs.Round): World {
    World(Disk(ChainFile(AsLines(kept), true), a), None, w.rounds + [round], w.cuts + [|w.tape|], w1.tape)
  }

  lemma CutArchives(rounds: seq<Runs.Round>, round: Runs.Round, kept: seq<Record>, live: seq<Record>)
    requires round.bundle.entries + kept == live
    ensures Runs.Archived(rounds + [round]) + kept == Runs.Archived(rounds) + live
  {
    Runs.ArchivedSnoc(rounds, round);
    assert Runs.Archived(rounds) + round.bundle.entries + kept == Runs.Archived(rounds) + (round.bundle.entries + kept);
  }

  lemma CutKeepsInv(w: World, plan: Plan, round: Runs.Round, a: AnchorFile, rec: Record)
    requires Inv(w) && AllBelow(Live(w), rec.seqNo)
    requires rec.hash == Digest(rec.seqNo, rec.entry, rec.prevHash)
    requires rec.entry == ArchiveEntry(plan) && Takes(Live(w), plan, round)
    ensures var w1 := Wrote(w, rec, Some(Whole));
            Inv(CutWorld(w, w1, From(Live(w1), plan.anchorSeq), a, round))
  {
    var w1 := Wrote(w, rec, Some(Whole)).(logger := None);
    WroteKeepsInv(w, rec, Some(Whole), None);
    PutRecords(w.disk.chain, rec, Whole);
    CutMoves(Live(w), Live(w1), rec, plan, round);
    CutsAdded(w, CutWorld(w, w1, From(Live(w1), plan.anchorSeq), a, round), round, rec);
    CutInv(w, w1, round, From(Live(w1), plan.anchorSeq), a);
  }

  lemma CutInv(w: World, w1: World, round: Runs.Round, kept: seq<Record>, a: AnchorFile)
    requires Inv(w1) && w1.rounds == w.rounds && |w.cuts| == |w.rounds|
    requires w1.tape != [] && w1.tape[|w1.tape| - 1].how == Whole
    requires round.bundle.entries + kept == Live(w1) && Sound(kept)
    requires var w' := CutWorld(w, w1, kept, a, round);
             forall j | 0 <= j < |w'.rounds| :: j < |w'.cuts| && CutFits(w', j)
    ensures Inv(CutWorld(w, w1, kept, a, round))
  {
    RecordsOfAsLines(kept);
    CutArchives(w.rounds, round, kept, Live(w1));
  }

  lemma CutsAdded(w: World, w': World, round: Runs.Round, rec: Record)
    requires |w.cuts| == |w.rounds| && (forall j | 0 <= j < |w.rounds| :: CutFits(w, j))
    requires w'.rounds == w.rounds + [round] && w'.cuts == w.cuts + [|w.tape|]
    requires w'.tape == w.tape + [Write(rec, Whole)]
    requires round.bundle.entries != [] && rec.entry == Runs.RoundEntry(round)
    ensures forall j | 0 <= j < |w'.rounds| :: j < |w'.cuts| && CutFits(w', j)
  {
    forall j | 0 <= j < |w'.rounds| ensures CutFits(w', j) {
      if j < |w.rounds| { assert CutFits(w, j); }
    }
  }

  /** The disk of an attempt that does not cut is the disk of its write, under the old anchor or the
      new one; the disk of one that does is the cut. */
  lemma AttemptDisk(d: Disk, plan: Plan, key: string, prunedAt: string, death: Death)
    requires Records(d.chain.lines) != []
    ensures var rec := ArchiveRecord(d.chain, plan);
            var how := if death.InAppend? then HowOf(death.torn) else Some(Whole);
            var chain := if how == None then d.chain else Put(d.chain, rec, how.value);
            var d' := After(d, plan, Some(key), prunedAt, death, Nobody).0;
            if Cuts(death) then
              d' == Disk(ChainFile(AsLines(From(Records(chain.lines), plan.anchorSeq)), true),
                         Written(AnchorOf(plan, key, prunedAt)))
            else d'.chain == chain
  {
  }

  lemma CutAttempt(w: World, plan: Plan, key: string, bundle: Bundle, sha: string,
                   prunedAt: string, death: Death)
    requires PlanOf(w.disk.chain.lines, w.disk.anchor, bundle, sha) == Ok(plan) && Live(w) != [] && Cuts(death)
    ensures var w1 := Wrote(w, ArchiveRecord(w.disk.chain, plan), Some(Whole));
            Attempted(w, key, bundle, sha, prunedAt, death) ==
            CutWorld(w, w1, From(Live(w1), plan.anchorSeq), Written(AnchorOf(plan, key, prunedAt)),
                     Runs.Round(bundle, sha))
  {
    AttemptDisk(w.disk, plan, key, prunedAt, death);
  }

  lemma UncutAttempt(w: World, plan: Plan, key: string, bundle: Bundle, sha: string,
                     prunedAt: string, death: Death)
    requires PlanOf(w.disk.chain.lines, w.disk.anchor, bundle, sha) == Ok(plan) && Live(w) != [] && !Cuts(death)
    ensures var w1 := Wrote(w, ArchiveRecord(w.disk.chain, plan),
                            if death.InAppend? then HowOf(death.torn) else Some(Whole));
            var w' := Attempted(w, key, bundle, sha, prunedAt, death);
            && w'.disk.chain == w1.disk.chain && w'.logger == None
            && w'.rounds == w1.rounds && w'.cuts == w1.cuts && w'.tape == w1.tape
  {
    AttemptDisk(w.disk, plan, key, prunedAt, death);
  }

  lemma AttemptKeepsInv(w: World, key: string, bundle: Bundle, sha: string, prunedAt: string,
                        death: Death)
    requires Inv(w)
    ensures Inv(Attempted(w, key, bundle, sha, prunedAt, death))
  {
    var planned := PlanOf(w.disk.chain.lines, w.disk.anchor, bundle, sha);
    Forgets(w);
    if planned.Ok? && Live(w) != [] {
      var plan, rec := planned.value, ArchiveRecord(w.disk.chain, planned.value);
      NextIsNew(w.(logger := None), ArchiveEntry(plan));
      if Cuts(death) {
        PlanTakes(w.disk.chain.lines, w.disk.anchor, bundle, sha);
        CutAttempt(w, plan, key, bundle, sha, prunedAt, death);
        CutKeepsInv(w, plan, Runs.Round(bundle, sha), Written(AnchorOf(plan, key, prunedAt)), rec);
      } else {
        var how := if death.InAppend? then HowOf(death.torn) else Some(Whole);
        UncutAttempt(w, plan, key, bundle, sha, prunedAt, death);
        WroteKeepsInv(w, rec, how, None);
        SameChain(Wrote(w, rec, how).(logger := None), Attempted(w, key, bundle, sha, prunedAt, death));
      }
    }
  }

  lemma NextKeepsInv(w: World, key: string, step: Step)
    requires Inv(w)
    ensures Inv(Next(w, key, step))
  {
    match step
    case Logged(entry, None) =>
      NextIsNew(w, entry);
      WroteKeepsInv(w, NextRecord(w, entry), Some(Whole), Some(NextRecord(w, entry)));
    case Logged(entry, Some(torn)) =>
      NextIsNew(w, entry);
      WroteKeepsInv(w, NextRecord(w, entry), HowOf(torn), None);
    case Restart => Forgets(w);
    case Attempt(bundle, sha, prunedAt, death) => AttemptKeepsInv(w, key, bundle, sha, prunedAt, death);
  }

  lemma {:induction false} RunKeepsInv(key: string, steps: seq<Step>)
    ensures Inv(Run(key, steps))
  {
    if steps != [] {
      RunKeepsInv(key, steps[..|steps| - 1]);
      NextKeepsInv(Run(key, steps[..|steps| - 1]), key, steps[|steps| - 1]);
    }
  }

  /** Over every run, whatever is torn and wherever it dies: the archived bundles in order followed
      by the live chain are exactly the records that were written in full, behind a finished write,
      and finished themselves or last. A tear costs the record it tears and the next one written,
      and nothing else is ever lost, repeated or reordered. */
  lemma EachTearCosts(key: string, steps: seq<Step>)
    ensures var w := Run(key, steps);
            Runs.Archived(w.rounds) + Records(w.disk.chain.lines) == KeptOf(w.tape)
    ensures var w := Run(key, steps);
            Runs.Archived(w.rounds) + Records(w.disk.chain.lines) == AllWritten(w.tape) <==> NothingTorn(w.tape)
  {
    RunKeepsInv(key, steps);
    LosslessIff(Run(key, steps).tape);
  }

  /** A completed prune's own record is kept exactly when the write before it was finished; then
      nothing it is written into is lost either. */
  lemma DeletionKeptIff(key: string, steps: seq<Step>, j: nat)
    requires j < |Run(key, steps).rounds|
    ensures var w := Run(key, steps);
            && j < |w.cuts| && w.cuts[j] < |w.tape|
            && w.rounds[j].bundle.entries != []
            && w.tape[w.cuts[j]].rec.entry == Runs.RoundEntry(w.rounds[j])
            && (Kept(w.tape, w.cuts[j]) <==> w.cuts[j] == 0 || w.tape[w.cuts[j] - 1].how == Whole)
  {
    RunKeepsInv(key, steps);
    assert CutFits(Run(key, steps), j);
  }

  // ------------------------------------------------- runs that tear nothing

  /** A step of the runs in which every write that reaches the disk is finished. */
  function Plain(step: Runs.Step): Step {
    match step
    case Logged(entry) => Logged(entry, None)
    case Attempt(bundle, sha, prunedAt, at) => Attempt(bundle, sha, prunedAt, Runs.DeathAt(at))
  }

  function Plainly(steps: seq<Runs.Step>): seq<Step> {
    seq(|steps|, i requires 0 <= i < |steps| => Plain(steps[i]))
  }

  /** The same disk and rounds, and the tape holds the history, every write of it finished. */
  predicate Matches(w: World, v: Runs.World) {
    && w.disk == v.disk && w.rounds == v.rounds && AllWritten(w.tape) == v.history
    && (forall i | 0 <= i < |w.tape| :: w.tape[i].how == Whole)
    && (w.logger.Some? ==> Live(w) != [] && w.logger.value == Live(w)[|Live(w)| - 1])
  }

  lemma WrittenSnoc(tape: seq<Write>, w: Write)
    ensures AllWritten(tape + [w]) == AllWritten(tape) + [w.rec]
  {
  }

  lemma LoggedMatches(w: World, v: Runs.World, key: string, entry: Entry)
    requires Inv(w) && Matches(w, v)
    ensures Matches(Next(w, key, Logged(entry, None)), Runs.Log(v, entry))
  {
    var rec := NextRecord(w, entry);
    assert rec == Runs.NextRecord(v.disk.chain, entry);
    WrittenSnoc(w.tape, Write(rec, Whole));
    PutRecords(w.disk.chain, rec, Whole);
    assert AtLineEnd(w.tape);
  }

  lemma AttemptMatches(w: World, v: Runs.World, key: string, bundle: Bundle, sha: string,
                       prunedAt: string, at: Runs.Point)
    requires Matches(w, v)
    ensures Matches(Attempted(w, key, bundle, sha, prunedAt, Runs.DeathAt(at)),
                    Runs.Attempted(v, key, bundle, sha, prunedAt, at))
  {
    var planned := PlanOf(w.disk.chain.lines, w.disk.anchor, bundle, sha);
    if planned.Ok? && Live(w) != [] {
      WrittenSnoc(w.tape, Write(ArchiveRecord(w.disk.chain, planned.value), Whole));
    }
  }

  /** Without a torn write the runs are those of `AuditRuns`. */
  lemma {:induction false} PlainRunsAgree(key: string, steps: seq<Runs.Step>)
    ensures Matches(Run(key, Plainly(steps)), Runs.Run(Runs.Fresh, key, steps))
  {
    if steps != [] {
      var n := |steps| - 1;
      var w, v := Run(key, Plainly(steps[..n])), Runs.Run(Runs.Fresh, key, steps[..n]);
      PlainRunsAgree(key, steps[..n]);
      RunKeepsInv(key, Plainly(steps[..n]));
      assert Plainly(steps)[..n] == Plainly(steps[..n]);
      match steps[n]
      case Logged(entry) => LoggedMatches(w, v, key, entry);
      case Attempt(bundle, sha, prunedAt, at) => AttemptMatches(w, v, key, bundle, sha, prunedAt, at);
    }
  }

  // ------------------------------------------------------------ the rerun

  /** After a death inside the write of the `archive` record, running the same prune again is
      accepted, keeps exactly the live records there were before, and verifies; but the deletion is
      then recorded nowhere. */
  lemma RerunAfterTornWrite(w: Runs.World, key: string, bundle: Bundle, sha: string,
                            prunedAt: string, again: string, torn: Torn)
    requires Runs.Inv(w, key) && torn != Nothing
    requires PlanOf(w.disk.chain.lines, w.disk.anchor, bundle, sha).Ok?
    ensures var plan := PlanOf(w.disk.chain.lines, w.disk.anchor, bundle, sha).value;
            var (d1, outcome1) := After(w.disk, plan, Some(key), prunedAt, InAppend(torn), Nobody);
            && outcome1 == Died
            && PlanOf(d1.chain.lines, d1.anchor, bundle, sha).Ok?
            && var plan2 := PlanOf(d1.chain.lines, d1.anchor, bundle, sha).value;
               var (d2, outcome) := After(d1, plan2, Some(key), again, Survives, Nobody);
               && outcome.Pruned?
               && |bundle.entries| < |Runs.Live(w)|
               && Records(d2.chain.lines) == Runs.Live(w)[|bundle.entries|..]
               && ChainAndAnchorAgree(d2.chain.lines, d2.anchor)
               && ArchiveRecord(d1.chain, plan2) !in bundle.entries + Records(d2.chain.lines)
  {
    var plan := PlanOf(w.disk.chain.lines, w.disk.anchor, bundle, sha).value;
    var chain := AppendTorn(w.disk.chain, ArchiveRecord(w.disk.chain, plan), torn);
    var prev := Runs.LivePrev(w);
    Runs.LiveIsLinked(w, key);
    PlanCuts(w.disk, bundle, sha, prev);
    PlannedAgain(w.disk, plan, bundle, sha, prev, torn);
    UnfinishedTailPrunesSilently(Disk(chain, w.disk.anchor), bundle, sha, key, again, prev);
  }

  /** A torn `archive` record does not stand in the way of the same plan. */
  lemma PlannedAgain(d: Disk, plan: Plan, bundle: Bundle, sha: string, prev: Hash, torn: Torn)
    requires d.chain.terminated && torn != Nothing && Linked(Records(d.chain.lines), prev, None)
    requires PlanOf(d.chain.lines, d.anchor, bundle, sha) == Ok(plan) && Records(d.chain.lines) != []
    ensures var recs := Records(d.chain.lines);
            var chain := AppendTorn(d.chain, ArchiveRecord(d.chain, plan), torn);
            && PlanOf(chain.lines, d.anchor, bundle, sha).Ok?
            && !chain.terminated && chain.lines != [] && (SafeTail(chain) <==> torn == Fragment)
            && Records(chain.lines) == recs + (if torn == Fragment then [] else [ArchiveRecord(d.chain, plan)])
            && Linked(Records(chain.lines), prev, None)
  {
    var recs, rec := Records(d.chain.lines), ArchiveRecord(d.chain, plan);
    var chain := AppendTorn(d.chain, rec, torn);
    PlanExact(d.chain.lines, d.anchor, bundle, sha, prev);
    TornWriteRecords(d.chain, rec, torn);
    LinkedSnoc(recs, rec, prev, None);
    assert LinkedAt(recs, prev, |recs| - 1) && recs + [] == recs;
    assert Records(chain.lines)[..|bundle.entries|] == recs[..|bundle.entries|];
    PlanExact(chain.lines, d.anchor, bundle, sha, prev);
  }

  lemma TornWriteRecords(file: ChainFile, rec: Record, torn: Torn)
    requires file.terminated && torn != Nothing
    ensures var torn' := AppendTorn(file, rec, torn);
            && !torn'.terminated && torn'.lines != []
            && (SafeTail(torn') <==> torn == Fragment)
            && Records(torn'.lines) == Records(file.lines) + (if torn == Fragment then [] else [rec])
  {
    RecordsConcat(file.lines, [Garbage]);
    RecordsConcat(file.lines, [Rec(rec)]);
    assert Records([Garbage]) == [] && Records([Rec(rec)]) == [rec];
  }
}
