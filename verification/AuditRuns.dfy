/**
 Whole runs over one audit directory: any number of logged entries and prune attempts, each
 attempt free to die at any point between durable steps, no write torn. Nothing ever appended is
 lost, repeated or reordered, and the chain stays verifiable, with one exact exception.
 */
module AuditRuns {
  import opened Wrappers
  import opened AuditChain
  import opened AuditAnchor
  import opened AuditBundle
  import opened AuditPrune
  import opened AuditExecute

  /** A completed prune: the bundle that holds what it removed, and its digest. */
  datatype Round = Round(bundle: Bundle, sha: string)

  /** `rounds` and `history` are what an observer off the box would write down. */
  datatype World = World(disk: Disk, rounds: seq<Round>, history: seq<Record>)

  function Archived(rounds: seq<Round>): seq<Record> {
    if rounds == [] then []
    else Archived(rounds[..|rounds| - 1]) + rounds[|rounds| - 1].bundle.entries
  }

  function Live(w: World): seq<Record> {
    Records(w.disk.chain.lines)
  }

  function RoundEntry(r: Round): Entry
    requires r.bundle.entries != []
  {
    var e := r.bundle.entries;
    Archive(e[0].seqNo, e[|e| - 1].seqNo, |e|, e[|e| - 1].hash, r.sha)
  }

  /** Round `k` is recorded by an `archive` entry written after everything it removed. */
  predicate RecordedAt(w: World, k: nat, i: nat)
    requires k < |w.rounds|
  {
    && |Archived(w.rounds[..k + 1])| <= i < |w.history|
    && w.rounds[k].bundle.entries != []
    && w.history[i].entry == RoundEntry(w.rounds[k])
  }

  ghost predicate Recorded(w: World, k: nat)
    requires k < |w.rounds|
  {
    exists i: nat :: RecordedAt(w, k, i)
  }

  ghost predicate DeletionsRecorded(w: World) {
    forall k: nat | k < |w.rounds| :: Recorded(w, k)
  }

  /** The anchor on disk, if any, names a point of the history at or after the live chain's
      start and the hash before that point, under the instance's signature. */
  predicate AnchorFits(w: World, key: string) {
    var base := |Archived(w.rounds)|;
    match w.disk.anchor
    case NoAnchor => w.rounds == []
    case Mangled => false
    case Written(a) =>
      && 1 <= a.body.anchorSeq < |w.history|
      && base <= a.body.anchorSeq
      && a.body.prevHash == w.history[a.body.anchorSeq - 1].hash
      && a.signature == Some(Signature(key, a.body))
  }

  /** The hash the live chain continues from. */
  function LivePrev(w: World): Hash {
    var base := |Archived(w.rounds)|;
    if 0 < base <= |w.history| then w.history[base - 1].hash else Genesis
  }

  /** No prune is waiting to be completed. */
  predicate Settled(w: World) {
    match w.disk.anchor
    case NoAnchor => true
    case Mangled => false
    case Written(a) => a.body.anchorSeq == |Archived(w.rounds)|
  }

  /** The anchor records where the chain it has not yet cut really starts. */
  predicate StartNamed(w: World) {
    var base := |Archived(w.rounds)|;
    && w.disk.anchor.Written?
    && match w.disk.anchor.anchor.body.supersedes
       case None => base == 0
       case Some(s) => s.anchorSeq == base && s.prevHash == LivePrev(w)
  }

  ghost predicate Inv(w: World, key: string) {
    && AllParse(w.disk.chain.lines) && w.disk.chain.terminated
    && Linked(w.history, Genesis, Some(0))
    && w.history == Archived(w.rounds) + Live(w)
    && (w.history != [] ==> Live(w) != [])
    && AnchorFits(w, key)
    && DeletionsRecorded(w)
  }

  lemma LiveIsLinked(w: World, key: string)
    requires Inv(w, key)
    ensures Linked(Live(w), LivePrev(w), Some(|Archived(w.rounds)|))
  {
    if Archived(w.rounds) != [] {
      LinkedSplit(Archived(w.rounds), Live(w), Genesis, Some(0));
      var base := |Archived(w.rounds)|;
      assert w.history[base - 1] == Archived(w.rounds)[base - 1];
    } else {
      assert w.history == Live(w);
    }
  }

  /** The chain verifies exactly when no prune is pending, or the pending anchor names the
      place the chain still starts at. */
  lemma VerifiesIff(w: World, key: string)
    requires Inv(w, key)
    ensures ChainAndAnchorAgree(w.disk.chain.lines, w.disk.anchor) <==> Settled(w) || StartNamed(w)
  {
    LiveIsLinked(w, key);
    if w.disk.anchor.Written? {
      var a := w.disk.anchor.anchor;
      AnchorIsReadable(w, key);
      AgreeIff(w.disk.chain.lines, LivePrev(w), |Archived(w.rounds)|, a);
    }
  }

  lemma AnchorIsReadable(w: World, key: string)
    requires Inv(w, key) && w.disk.anchor.Written?
    ensures var a := w.disk.anchor.anchor;
            var base := |Archived(w.rounds)|;
            && ReadAnchor(w.disk.anchor) == Ok(Some(a))
            && Live(w) != []
            && base <= a.body.anchorSeq <= base + |Live(w)|
            && a.body.prevHash == Head(Live(w)[..a.body.anchorSeq - base], LivePrev(w))
  {
    var n := w.disk.anchor.anchor.body.anchorSeq;
    var base := |Archived(w.rounds)|;
    assert LinkedAt(w.history, Genesis, n - 1);
    if n > base {
      assert Live(w)[n - 1 - base] == w.history[n - 1];
    }
  }

  // ---------------------------------------------------------------- steps

  /** `AuditLogger` continues from the last record that parses. */
  function NextRecord(file: ChainFile, entry: Entry): Record {
    var recs := Records(file.lines);
    if recs == [] then MakeLine(0, entry, Genesis)
    else MakeLine(recs[|recs| - 1].seqNo + 1, entry, recs[|recs| - 1].hash)
  }

  function Log(w: World, entry: Entry): World {
    var rec := NextRecord(w.disk.chain, entry);
    World(w.disk.(chain := AppendTo(w.disk.chain, Rec(rec), true)), w.rounds, w.history + [rec])
  }

  lemma LogKeepsInv(w: World, key: string, entry: Entry)
    requires Inv(w, key)
    ensures Inv(Log(w, entry), key)
    ensures Live(Log(w, entry)) == Live(w) + [NextRecord(w.disk.chain, entry)]
    ensures Log(w, entry).history == w.history + [NextRecord(w.disk.chain, entry)]
  {
    var rec := NextRecord(w.disk.chain, entry);
    var w' := Log(w, entry);
    var lines := w.disk.chain.lines;
    RecordsConcat(lines, [Rec(rec)]);
    assert Records([Rec(rec)]) == [rec];
    assert w'.history == Archived(w.rounds) + Live(w');
    if Live(w) != [] {
      var n := |w.history| - 1;
      assert w.history[n] == Live(w)[|Live(w)| - 1];
      assert LinkedAt(w.history, Genesis, n);
    }
    LinkedSnoc(w.history, rec, Genesis, Some(0));
    forall k: nat | k < |w'.rounds| ensures Recorded(w', k) {
      assert Recorded(w, k);
      var i: nat :| RecordedAt(w, k, i);
      assert RecordedAt(w', k, i);
    }
  }

  /** A prune that writes its anchor. */
  function WriteAnchor(w: World, plan: Plan, key: string, prunedAt: string): World {
    w.(disk := Anchored(w.disk, plan, key, prunedAt))
  }

  /** A prune that replaces the chain: the bundle is now the only copy of what went. */
  function CutChain(w: World, plan: Plan, round: Round): World {
    World(Replaced(w.disk, plan), w.rounds + [round], w.history)
  }

  /** The facts about a plan that hold from the moment it is made until the chain is cut. */
  predicate PlanFits(w: World, plan: Plan, round: Round) {
    var base, k := |Archived(w.rounds)|, |round.bundle.entries|;
    && 0 < k < |Live(w)|
    && round.bundle.entries == Live(w)[..k]
    && plan.anchorSeq == base + k
    && plan.prevHash == Live(w)[k - 1].hash
    && ArchiveEntry(plan) == RoundEntry(round)
  }

  lemma PlanFitsWhenMade(w: World, key: string, bundle: Bundle, sha: string)
    requires Inv(w, key)
    requires PlanOf(w.disk.chain.lines, w.disk.anchor, bundle, sha).Ok?
    ensures PlanFits(w, PlanOf(w.disk.chain.lines, w.disk.anchor, bundle, sha).value, Round(bundle, sha))
  {
    LiveIsLinked(w, key);
    var base := |Archived(w.rounds)|;
    var prev := LivePrev(w);
    PlanExact(w.disk.chain.lines, w.disk.anchor, bundle, sha, prev);
    var k := |bundle.entries|;
    assert LinkedAt(Live(w), prev, k) && LinkedAt(Live(w), prev, k - 1) && LinkedAt(Live(w), prev, 0);
  }

  lemma WriteAnchorKeepsInv(w: World, key: string, plan: Plan, round: Round, prunedAt: string)
    requires Inv(w, key) && PlanFits(w, plan, round)
    ensures Inv(WriteAnchor(w, plan, key, prunedAt), key)
    ensures PlanFits(WriteAnchor(w, plan, key, prunedAt), plan, round)
  {
    var w' := WriteAnchor(w, plan, key, prunedAt);
    var base, k := |Archived(w.rounds)|, |round.bundle.entries|;
    assert w.history[base + k - 1] == Live(w)[k - 1];
    forall j: nat | j < |w'.rounds| ensures Recorded(w', j) {
      assert Recorded(w, j);
      var i: nat :| RecordedAt(w, j, i);
      assert RecordedAt(w', j, i);
    }
  }

  /** Cutting moves exactly the bundle's records from the live chain to the archive. */
  lemma CutChainMoves(w: World, key: string, plan: Plan, round: Round)
    requires Inv(w, key) && PlanFits(w, plan, round)
    ensures var w' := CutChain(w, plan, round);
            && Live(w') == Live(w)[|round.bundle.entries|..]
            && AllParse(w'.disk.chain.lines)
            && Archived(w'.rounds) == Archived(w.rounds) + round.bundle.entries
            && w.history == Archived(w'.rounds) + Live(w')
  {
    LiveIsLinked(w, key);
    var live, k := Live(w), |round.bundle.entries|;
    KeptIsTheRest(live, LivePrev(w), |Archived(w.rounds)|, k);
    ArchivedSnoc(w.rounds, round);
    assert w.history == Archived(w.rounds) + (live[..k] + live[k..]);
    Regrouped(Archived(w.rounds), live[..k], live[k..]);
  }

  lemma Regrouped(a: seq<Record>, b: seq<Record>, c: seq<Record>)
    ensures a + (b + c) == a + b + c
  {
  }

  lemma KeptIsTheRest(recs: seq<Record>, prev: Hash, base: int, k: nat)
    requires Linked(recs, prev, Some(base)) && k <= |recs| && recs != []
    ensures Records(AsLines(From(recs, base + k))) == recs[k..]
    ensures recs == recs[..k] + recs[k..]
  {
    FiltersCut(recs, prev, k);
    RecordsOfAsLines(recs[k..]);
  }

  lemma ArchivedSnoc(rounds: seq<Round>, round: Round)
    ensures Archived(rounds + [round]) == Archived(rounds) + round.bundle.entries
  {
    assert (rounds + [round])[..|rounds|] == rounds;
  }

  lemma CutChainRecorded(w: World, w': World, round: Round, i: nat)
    requires DeletionsRecorded(w) && w'.history == w.history && w'.rounds == w.rounds + [round]
    requires |Archived(w'.rounds)| <= i < |w.history|
    requires round.bundle.entries != [] && w.history[i].entry == RoundEntry(round)
    ensures DeletionsRecorded(w')
  {
    forall j: nat | j < |w'.rounds| ensures Recorded(w', j) {
      if j < |w.rounds| {
        assert Recorded(w, j);
        var n: nat :| RecordedAt(w, j, n);
        assert w'.rounds[..j + 1] == w.rounds[..j + 1];
        assert RecordedAt(w', j, n);
      } else {
        assert w'.rounds[..j + 1] == w'.rounds;
        assert RecordedAt(w', j, i);
      }
    }
  }

  lemma CutChainKeepsInv(w: World, key: string, plan: Plan, round: Round, i: nat)
    requires Inv(w, key) && PlanFits(w, plan, round)
    requires w.disk.anchor.Written? && w.disk.anchor.anchor.body.anchorSeq == plan.anchorSeq
    requires plan.anchorSeq <= i < |w.history| && w.history[i].entry == ArchiveEntry(plan)
    ensures Inv(CutChain(w, plan, round), key) && Settled(CutChain(w, plan, round))
    ensures Live(CutChain(w, plan, round)) == Live(w)[|round.bundle.entries|..]
  {
    CutChainMoves(w, key, plan, round);
    CutChainRecorded(w, CutChain(w, plan, round), round, i);
  }

  // ----------------------------------------------------------------- runs

  /** The points between durable steps at which an attempt can die. Runs in which a death tears a
      write, of an attempt or of the service, are those of `AuditTears`. */
  datatype Point = BeforeAppend | AtAppend | AtAnchorTemp | AtAnchor | AtChainTemp | Completed

  function DeathAt(at: Point): Death {
    match at
    case BeforeAppend => InAppend(Nothing)
    case AtAppend => AfterAppend
    case AtAnchorTemp => InAnchorTemp
    case AtAnchor => AfterAnchor
    case AtChainTemp => InChainTemp
    case Completed => Survives
  }

  datatype Step =
    | Logged(entry: Entry)
    | Attempt(bundle: Bundle, sha: string, prunedAt: string, at: Point)

  /** One attempt: refused plans touch nothing; the rest does what `execute_prune` does. */
  function Attempted(w: World, key: string, bundle: Bundle, sha: string, prunedAt: string, at: Point): World {
    match PlanOf(w.disk.chain.lines, w.disk.anchor, bundle, sha)
    case Err(_) => w
    case Ok(plan) =>
      if Live(w) == [] then w
      else
        World(After(w.disk, plan, Some(key), prunedAt, DeathAt(at), Nobody).0,
              if at == Completed then w.rounds + [Round(bundle, sha)] else w.rounds,
              if at == BeforeAppend then w.history
              else w.history + [ArchiveRecord(w.disk.chain, plan)])
  }

  function Next(w: World, key: string, step: Step): World {
    match step
    case Logged(entry) => Log(w, entry)
    case Attempt(bundle, sha, prunedAt, at) => Attempted(w, key, bundle, sha, prunedAt, at)
  }

  function Run(w: World, key: string, steps: seq<Step>): World {
    if steps == [] then w else Next(Run(w, key, steps[..|steps| - 1]), key, steps[|steps| - 1])
  }

  /** The disk an attempt leaves is one of four: as it was, with the `archive` record appended,
      that under the new anchor, or the suffix from the anchor. */
  lemma AttemptStages(w: World, key: string, bundle: Bundle, sha: string, prunedAt: string, at: Point)
    requires PlanOf(w.disk.chain.lines, w.disk.anchor, bundle, sha).Ok? && Live(w) != []
    ensures var plan := PlanOf(w.disk.chain.lines, w.disk.anchor, bundle, sha).value;
            var w1 := Log(w, ArchiveEntry(plan));
            var w2 := WriteAnchor(w1, plan, key, prunedAt);
            var w3 := CutChain(w2, plan, Round(bundle, sha));
            Attempted(w, key, bundle, sha, prunedAt, at) ==
            (match at case BeforeAppend => w case AtAppend => w1 case AtAnchorTemp => w1
             case AtAnchor => w2 case AtChainTemp => w2 case Completed => w3)
  {
  }

  lemma StagesKeepInv(w: World, key: string, plan: Plan, round: Round, prunedAt: string)
    requires Inv(w, key) && PlanFits(w, plan, round)
    ensures var w1 := Log(w, ArchiveEntry(plan));
            var w2 := WriteAnchor(w1, plan, key, prunedAt);
            var w3 := CutChain(w2, plan, round);
            && Inv(w1, key) && Inv(w2, key) && Inv(w3, key) && Settled(w3)
            && w1.history == w2.history == w3.history && w.history <= w1.history
            && Live(w) <= Live(w1) && Live(w2) == Live(w1)
            && Live(w3) == Live(w1)[|round.bundle.entries|..]
  {
    var entry := ArchiveEntry(plan);
    var w1 := Log(w, entry);
    LogKeepsInv(w, key, entry);
    var k := |round.bundle.entries|;
    assert Live(w1)[..k] == Live(w)[..k];
    assert PlanFits(w1, plan, round);
    var w2 := WriteAnchor(w1, plan, key, prunedAt);
    WriteAnchorKeepsInv(w1, key, plan, round, prunedAt);
    assert w2.history[|w.history|].entry == entry;
    CutChainKeepsInv(w2, key, plan, round, |w.history|);
  }

  /** Wherever an attempt dies the invariant holds, and nothing has left the live chain unless
      the prune completed, under an anchor that says so. */
  lemma AttemptKeepsInv(w: World, key: string, bundle: Bundle, sha: string, prunedAt: string, at: Point)
    requires Inv(w, key)
    ensures var w' := Attempted(w, key, bundle, sha, prunedAt, at);
            && Inv(w', key)
            && w.history <= w'.history
            && (w'.rounds == w.rounds ==> Live(w) <= Live(w'))
            && (w'.rounds != w.rounds ==> Settled(w') && w'.disk.anchor.Written?)
  {
    var planned := PlanOf(w.disk.chain.lines, w.disk.anchor, bundle, sha);
    if planned.Ok? && Live(w) != [] {
      PlanFitsWhenMade(w, key, bundle, sha);
      AttemptStages(w, key, bundle, sha, prunedAt, at);
      StagesKeepInv(w, key, planned.value, Round(bundle, sha), prunedAt);
    }
  }

  const Fresh := World(Disk(ChainFile([], true), NoAnchor), [], [])

  lemma {:induction false} RunKeepsInv(key: string, steps: seq<Step>)
    ensures Inv(Run(Fresh, key, steps), key)
  {
    if steps == [] {
      assert Archived([]) + [] == [];
    } else {
      var before := steps[..|steps| - 1];
      RunKeepsInv(key, before);
      match steps[|steps| - 1] {
        case Logged(entry) => LogKeepsInv(Run(Fresh, key, before), key, entry);
        case Attempt(bundle, sha, prunedAt, at) =>
          AttemptKeepsInv(Run(Fresh, key, before), key, bundle, sha, prunedAt, at);
      }
    }
  }

  /** The record is conserved over every run, wherever between its durable steps an attempt dies:
      the archived bundles in order followed by the live chain are every record ever appended, in
      the order and under the hashes they were appended with, from seq 0; every completed prune is
      recorded by an `archive` entry behind everything it removed, the latest of them in the live
      chain; and once no prune is pending the live chain continues from the anchor's own hash. */
  lemma HistoryIsConserved(key: string, steps: seq<Step>)
    ensures var w := Run(Fresh, key, steps);
            && Archived(w.rounds) + Records(w.disk.chain.lines) == w.history
            && Linked(w.history, Genesis, Some(0))
            && DeletionsRecorded(w)
            && (w.rounds != [] ==>
                  exists i: nat :: i < |Live(w)| && w.rounds[|w.rounds| - 1].bundle.entries != []
                                   && Live(w)[i].entry == RoundEntry(w.rounds[|w.rounds| - 1]))
            && (w.disk.anchor.Written? && Settled(w) ==>
                  Linked(Live(w), w.disk.anchor.anchor.body.prevHash, Some(w.disk.anchor.anchor.body.anchorSeq)))
  {
    var w := Run(Fresh, key, steps);
    RunKeepsInv(key, steps);
    LiveIsLinked(w, key);
    if w.rounds != [] {
      var k := |w.rounds| - 1;
      assert Recorded(w, k);
      var i: nat :| RecordedAt(w, k, i);
      assert w.rounds[..k + 1] == w.rounds;
      assert Live(w)[i - |Archived(w.rounds)|] == w.history[i];
    }
  }

  /** A run's history only grows: what was ever appended stays, where it was. */
  lemma {:induction false} HistoryOnlyGrows(key: string, steps: seq<Step>, more: seq<Step>)
    ensures Run(Fresh, key, steps).history <= Run(Fresh, key, steps + more).history
  {
    if more == [] {
      assert steps + more == steps;
    } else {
      var n := |more| - 1;
      HistoryOnlyGrows(key, steps, more[..n]);
      assert (steps + more)[..|steps + more| - 1] == steps + more[..n];
      assert (steps + more)[|steps + more| - 1] == more[n];
      var w := Run(Fresh, key, steps + more[..n]);
      RunKeepsInv(key, steps + more[..n]);
      match more[n] {
        case Logged(entry) =>
        case Attempt(bundle, sha, prunedAt, at) => AttemptKeepsInv(w, key, bundle, sha, prunedAt, at);
      }
    }
  }

  /** A completed prune verifies, from its anchor, under the instance's own signature. */
  lemma CompletedPruneVerifies(w: World, key: string, bundle: Bundle, sha: string, prunedAt: string)
    requires Inv(w, key)
    requires PlanOf(w.disk.chain.lines, w.disk.anchor, bundle, sha).Ok?
    ensures var w' := Attempted(w, key, bundle, sha, prunedAt, Completed);
            && ChainAndAnchorAgree(w'.disk.chain.lines, w'.disk.anchor)
            && w'.rounds == w.rounds + [Round(bundle, sha)]
            && w'.disk.anchor.Written?
            && w'.disk.anchor.anchor.signature == Some(Signature(key, w'.disk.anchor.anchor.body))
            && Live(w')[0].seqNo == w'.disk.anchor.anchor.body.anchorSeq
  {
    var w' := Attempted(w, key, bundle, sha, prunedAt, Completed);
    PlanFitsWhenMade(w, key, bundle, sha);
    AttemptKeepsInv(w, key, bundle, sha, prunedAt, Completed);
    assert |w'.rounds| == |w.rounds| + 1;
    VerifiesIff(w', key);
    LiveIsLinked(w', key);
  }

  /** What a plan says it replaces is the anchor it found. */
  lemma PlanSupersedes(w: World, key: string, bundle: Bundle, sha: string)
    requires Inv(w, key)
    requires PlanOf(w.disk.chain.lines, w.disk.anchor, bundle, sha).Ok?
    ensures PlanOf(w.disk.chain.lines, w.disk.anchor, bundle, sha).value.supersedes ==
            if w.disk.anchor.NoAnchor? then None
            else Some(Superseded(w.disk.anchor.anchor.body.anchorSeq, w.disk.anchor.anchor.body.prevHash))
  {
    if w.disk.anchor.Written? {
      AnchorIsReadable(w, key);
    }
  }

  /** A prune interrupted between its anchor and its cut leaves everything in place, and the
      chain still verifies exactly when no earlier prune was already waiting: an anchor records
      only the one anchor it replaced, so a second interruption in a row reads as tampering. */
  lemma InterruptedPruneVerifiesIff(w: World, key: string, bundle: Bundle, sha: string, prunedAt: string, at: Point)
    requires Inv(w, key) && at in {AtAnchor, AtChainTemp}
    requires PlanOf(w.disk.chain.lines, w.disk.anchor, bundle, sha).Ok?
    ensures var w' := Attempted(w, key, bundle, sha, prunedAt, at);
            && Live(w) <= Live(w')
            && (ChainAndAnchorAgree(w'.disk.chain.lines, w'.disk.anchor) <==>
                w.disk.anchor.NoAnchor? || w.disk.anchor.anchor.body.anchorSeq == Live(w)[0].seqNo)
  {
    var plan := PlanOf(w.disk.chain.lines, w.disk.anchor, bundle, sha).value;
    var round := Round(bundle, sha);
    PlanFitsWhenMade(w, key, bundle, sha);
    PlanSupersedes(w, key, bundle, sha);
    AttemptStages(w, key, bundle, sha, prunedAt, at);
    StagesKeepInv(w, key, plan, round, prunedAt);
    var w2 := WriteAnchor(Log(w, ArchiveEntry(plan)), plan, key, prunedAt);
    VerifiesIff(w2, key);
    PendingIff(w, w2, key, plan);
  }

  lemma PendingIff(w: World, w2: World, key: string, plan: Plan)
    requires Inv(w, key) && Inv(w2, key) && Live(w) != []
    requires w2.rounds == w.rounds && w.history <= w2.history
    requires w2.disk.anchor.Written? && w2.disk.anchor.anchor.body.anchorSeq > |Archived(w.rounds)|
    requires w2.disk.anchor.anchor.body.supersedes ==
             if w.disk.anchor.NoAnchor? then None
             else Some(Superseded(w.disk.anchor.anchor.body.anchorSeq, w.disk.anchor.anchor.body.prevHash))
    ensures Settled(w2) || StartNamed(w2) <==>
            w.disk.anchor.NoAnchor? || w.disk.anchor.anchor.body.anchorSeq == Live(w)[0].seqNo
  {
    LiveIsLinked(w, key);
    var base := |Archived(w.rounds)|;
    assert base < |w.history|;
    if base > 0 {
      assert w2.history[base - 1] == w.history[base - 1];
    }
  }

  /** Until the chain is cut, the plan can be made again. */
  lemma StillPlannable(w: World, w1: World, key: string, bundle: Bundle, sha: string)
    requires Inv(w, key) && Inv(w1, key) && Live(w) <= Live(w1)
    requires PlanOf(w.disk.chain.lines, w.disk.anchor, bundle, sha).Ok?
    ensures PlanOf(w1.disk.chain.lines, w1.disk.anchor, bundle, sha).Ok?
  {
    LiveIsLinked(w, key);
    LiveIsLinked(w1, key);
    PlanExact(w.disk.chain.lines, w.disk.anchor, bundle, sha, LivePrev(w));
    PlanExact(w1.disk.chain.lines, w1.disk.anchor, bundle, sha, LivePrev(w1));
    var k := |bundle.entries|;
    assert Live(w1)[..k] == Live(w)[..k];
    if w1.disk.anchor.Written? {
      AnchorIsReadable(w1, key);
    }
  }

  /** However often it was interrupted between durable steps, running the same prune again to the end is accepted and
      leaves a chain that verifies. */
  lemma RerunCompletes(w: World, key: string, bundle: Bundle, sha: string, prunedAt: string, at: Point, again: string)
    requires Inv(w, key) && at != Completed
    requires PlanOf(w.disk.chain.lines, w.disk.anchor, bundle, sha).Ok?
    ensures var w1 := Attempted(w, key, bundle, sha, prunedAt, at);
            && PlanOf(w1.disk.chain.lines, w1.disk.anchor, bundle, sha).Ok?
            && var w2 := Attempted(w1, key, bundle, sha, again, Completed);
               && ChainAndAnchorAgree(w2.disk.chain.lines, w2.disk.anchor)
               && Archived(w2.rounds) == Archived(w.rounds) + bundle.entries
  {
    var w1 := Attempted(w, key, bundle, sha, prunedAt, at);
    AttemptKeepsInv(w, key, bundle, sha, prunedAt, at);
    assert w1.rounds == w.rounds;
    StillPlannable(w, w1, key, bundle, sha);
    CompletedPruneVerifies(w1, key, bundle, sha, again);
    var w2 := Attempted(w1, key, bundle, sha, again, Completed);
    assert w2.rounds[..|w.rounds|] == w.rounds;
  }
}
