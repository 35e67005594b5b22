/**
 When the chain verifies over the runs of `AuditTears`, in which writes are torn and services are
 restarted: from the writes alone, but for the place the anchor names.
 */
module AuditGaps {
  import opened Wrappers
  import opened AuditChain
  import opened AuditAnchor
  import opened AuditBundle
  import opened AuditPrune
  import opened AuditExecute
  import opened AuditFaults
  import opened AuditTears
  import Runs = AuditRuns

  // ------------------------------------------------------- kept positions

  /** Where on the tape the kept records are, in order. */
  function Places(tape: seq<Write>, n: nat): (places: seq<nat>)
    requires n <= |tape|
    ensures forall i | 0 <= i < |places| :: places[i] < n
  {
    if n == 0 then [] else Places(tape, n - 1) + (if Kept(tape, n - 1) then [n - 1] else [])
  }

  function PlacesOf(tape: seq<Write>): (places: seq<nat>)
    ensures forall i | 0 <= i < |places| :: places[i] < |tape|
  {
    Places(tape, |tape|)
  }

  lemma {:induction false} PlacesAre(tape: seq<Write>, n: nat)
    requires n <= |tape|
    ensures |Places(tape, n)| == |KeptUpTo(tape, n)|
    ensures forall i | 0 <= i < |Places(tape, n)| :: tape[Places(tape, n)[i]].rec == KeptUpTo(tape, n)[i]
  {
    if n > 0 { PlacesAre(tape, n - 1); }
  }

  /** The write at `i` continues the record written before it, and that one is lost. */
  predicate ContinuesLost(tape: seq<Write>, i: nat)
    requires i < |tape|
  {
    i > 0 && !Kept(tape, i - 1) && tape[i].rec.prevHash == tape[i - 1].rec.hash
  }

  lemma {:induction false} PlacesBefore(tape: seq<Write>, w: Write, n: nat)
    requires n + 1 <= |tape|
    ensures Places(tape + [w], n) == Places(tape, n)
  {
    if n > 0 {
      PlacesBefore(tape, w, n - 1);
      assert (tape + [w])[n - 1] == tape[n - 1];
      assert n > 1 ==> (tape + [w])[n - 2] == tape[n - 2];
    }
  }

  /** What one more write changes, as `KeptOneMore` says it of the records. */
  lemma {:induction false} PlacesOneMore(tape: seq<Write>, w: Write)
    ensures PlacesOf(tape + [w]) ==
            if AtLineEnd(tape) then PlacesOf(tape) + (if w.how == Part then [] else [|tape|])
            else Places(tape, |tape| - 1)
  {
    var more, n := tape + [w], |tape|;
    assert more[n] == w;
    if n == 0 {
      assert Places(more, 0) == [];
    } else {
      PlacesBefore(tape, w, n - 1);
      LastPlaces(tape, w);
    }
  }

  lemma {:induction false} LastPlaces(tape: seq<Write>, w: Write)
    requires tape != [] && Places(tape + [w], |tape| - 1) == Places(tape, |tape| - 1)
    ensures PlacesOf(tape + [w]) ==
            if AtLineEnd(tape) then PlacesOf(tape) + (if w.how == Part then [] else [|tape|])
            else Places(tape, |tape| - 1)
  {
    var more, n := tape + [w], |tape|;
    assert more[n] == w && more[n - 1] == tape[n - 1] && (n > 1 ==> more[n - 2] == tape[n - 2]);
    assert Kept(more, n - 1) <==> AtLineEnd(tape) && Kept(tape, n - 1);
    assert Kept(more, n) <==> AtLineEnd(tape) && w.how != Part;
    assert Places(more, n) == Places(tape, n - 1) + (if Kept(more, n - 1) then [n - 1] else []);
    assert PlacesOf(more) == Places(more, n) + (if Kept(more, n) then [n] else []);
  }

  /** One more write changes nothing for the places before the last. */
  lemma LostBefore(tape: seq<Write>, w: Write, i: nat)
    requires i < |tape| && (AtLineEnd(tape) || i < |tape| - 1)
    ensures ContinuesLost(tape + [w], i) <==> ContinuesLost(tape, i)
  {
    var more := tape + [w];
    assert more[i] == tape[i] && (i > 0 ==> more[i - 1] == tape[i - 1]) && (i > 1 ==> more[i - 2] == tape[i - 2]);
  }

  // -------------------------------------------- what links a kept record

  /** `rec`, written at place `x`, continues the record before it in the chain and has the next seq; or
      it continues a lost one, and then a seq is missing. */
  predicate PairFits(tape: seq<Write>, x: nat, before: Record, rec: Record)
    requires x < |tape|
  {
    if ContinuesLost(tape, x) then rec.seqNo > before.seqNo + 1
    else rec.seqNo == before.seqNo + 1 && rec.prevHash == before.hash
  }

  predicate FirstFits(tape: seq<Write>, x: nat, rec: Record)
    requires x < |tape|
  {
    if ContinuesLost(tape, x) then rec.seqNo > 0 else rec.seqNo == 0 && rec.prevHash == Genesis
  }

  /** `recs` are the kept records behind the first `a`. */
  predicate Chained(tape: seq<Write>, a: nat, recs: seq<Record>) {
    var places := PlacesOf(tape);
    && |places| == a + |recs|
    && (forall i | 0 < i < |recs| :: PairFits(tape, places[a + i], recs[i - 1], recs[i]))
    && (a == 0 && recs != [] ==> FirstFits(tape, places[0], recs[0]))
  }

  predicate AllDigests(tape: seq<Write>) {
    forall i | 0 <= i < |tape| ::
      tape[i].rec.seqNo >= 0 && tape[i].rec.hash == Digest(tape[i].rec.seqNo, tape[i].rec.entry, tape[i].rec.prevHash)
  }

  /** The last record written ends the chain, or it is lost and later than all of it. */
  predicate TailAbove(tape: seq<Write>, recs: seq<Record>) {
    tape != [] ==>
      var last := tape[|tape| - 1].rec;
      if Kept(tape, |tape| - 1) then recs != [] && recs[|recs| - 1] == last else AllBelow(recs, last.seqNo)
  }

  /** A new record fits behind the chain. */
  predicate NewFits(tape: seq<Write>, a: nat, recs: seq<Record>, w: Write) {
    && (recs != [] ==> PairFits(tape + [w], |tape|, recs[|recs| - 1], w.rec))
    && (recs == [] && a == 0 ==> FirstFits(tape + [w], |tape|, w.rec))
  }

  /** What a write leaves of the chain's records. */
  function WrittenBehind(tape: seq<Write>, recs: seq<Record>, w: Write): seq<Record> {
    if AtLineEnd(tape) then recs + (if w.how == Part then [] else [w.rec])
    else if Kept(tape, |tape| - 1) && recs != [] then recs[..|recs| - 1]
    else recs
  }

  lemma PlacesStay(tape: seq<Write>, w: Write)
    ensures var places, places' := PlacesOf(tape), PlacesOf(tape + [w]);
            forall m | 0 <= m < |places'| && m < |places| ::
              places'[m] == places[m] && (ContinuesLost(tape + [w], places[m]) <==> ContinuesLost(tape, places[m]))
  {
    var places, places' := PlacesOf(tape), PlacesOf(tape + [w]);
    PlacesOneMore(tape, w);
    if tape != [] { PlacesShrink(tape); }
    forall m | 0 <= m < |places'| && m < |places|
      ensures places'[m] == places[m] && (ContinuesLost(tape + [w], places[m]) <==> ContinuesLost(tape, places[m]))
    {
      LostBefore(tape, w, places'[m]);
    }
  }

  lemma WriteKeepsChained(tape: seq<Write>, a: nat, recs: seq<Record>, w: Write)
    requires Chained(tape, a, recs) && TailAbove(tape, recs)
    requires AtLineEnd(tape) && w.how != Part ==> NewFits(tape, a, recs, w)
    ensures Chained(tape + [w], a, WrittenBehind(tape, recs, w))
  {
    var places, after, places' := PlacesOf(tape), WrittenBehind(tape, recs, w), PlacesOf(tape + [w]);
    PlacesOneMore(tape, w);
    if tape != [] { PlacesShrink(tape); }
    assert |places'| == a + |after|;
    PlacesStay(tape, w);
    forall i | 0 < i < |after| ensures PairFits(tape + [w], places'[a + i], after[i - 1], after[i]) {
      if i < |recs| {
        assert PairFits(tape, places[a + i], recs[i - 1], recs[i]);
      }
    }
  }

  /** Without the last write the places are those of the others. */
  lemma PlacesShrink(tape: seq<Write>)
    requires tape != []
    ensures PlacesOf(tape) == Places(tape, |tape| - 1) + (if Kept(tape, |tape| - 1) then [|tape| - 1] else [])
  {
  }

  // ------------------------------------------------------------ clean lines

  /** From place `c` on, where the file was whole lines, every write is in full and behind a finished
      one. */
  predicate CleanFrom(tape: seq<Write>, c: nat) {
    forall i | c <= i < |tape| :: CleanAt(tape, c, i)
  }

  predicate CleanAt(tape: seq<Write>, c: nat, i: nat)
    requires i < |tape|
  {
    tape[i].how != Part && (i <= c || tape[i - 1].how == Whole)
  }

  lemma PutClean(file: ChainFile, tape: seq<Write>, c: nat, rec: Record, how: How)
    requires TailFits(file, tape) && c <= |tape| && (c == |tape| ==> AtLineEnd(tape))
    requires AllParse(file.lines) <==> CleanFrom(tape, c)
    ensures AllParse(Put(file, rec, how).lines) <==> CleanFrom(tape + [Write(rec, how)], c)
  {
    var more, lines := tape + [Write(rec, how)], Put(file, rec, how).lines;
    assert more[|tape|] == Write(rec, how);
    forall i | c <= i < |tape| ensures CleanAt(more, c, i) <==> CleanAt(tape, c, i) {
      assert more[i] == tape[i] && (i > 0 ==> more[i - 1] == tape[i - 1]);
    }
    if AtLineEnd(tape) {
      assert forall i | 0 <= i < |file.lines| :: lines[i] == file.lines[i];
      assert lines[|file.lines|].Rec? <==> how != Part;
      assert CleanAt(more, c, |tape|) <==> how != Part;
    } else {
      assert lines[|lines| - 1] == Garbage;
      assert !CleanAt(more, c, |tape|);
    }
    if CleanFrom(more, c) {
      forall i | c <= i < |tape| ensures CleanAt(tape, c, i) {
        assert CleanAt(more, c, i);
      }
    }
  }

  // ------------------------------------------------------------------- runs

  function Count(w: World): nat {
    |Runs.Archived(w.rounds)|
  }

  /** The place behind the last cut: what the file holds from before it is whole lines. */
  function SinceCut(w: World): nat {
    if w.cuts == [] then 0 else w.cuts[|w.cuts| - 1] + 1
  }

  predicate Remembers(w: World) {
    w.logger.Some? ==> w.tape != [] && w.tape[|w.tape| - 1] == Write(w.logger.value, Whole)
  }

  /** What is true of links and lines besides `AuditTears.Inv`. */
  predicate Gaps(w: World) {
    && AllDigests(w.tape) && Remembers(w)
    && Chained(w.tape, Count(w), Live(w)) && TailAbove(w.tape, Live(w))
    && (AllParse(w.disk.chain.lines) <==> CleanFrom(w.tape, SinceCut(w)))
    && (w.rounds != [] ==> w.disk.anchor.Written?)
  }

  predicate GapInv(w: World) {
    Inv(w) && Gaps(w)
  }

  lemma SinceCutFits(w: World)
    requires Inv(w)
    ensures SinceCut(w) <= |w.tape| && (SinceCut(w) == |w.tape| ==> AtLineEnd(w.tape))
  {
    if w.cuts != [] { assert CutFits(w, |w.cuts| - 1); }
  }

  /** Every live record is on the tape. */
  lemma LiveDigests(w: World)
    requires Inv(w) && AllDigests(w.tape) && Chained(w.tape, Count(w), Live(w))
    ensures forall i | 0 <= i < |Live(w)| ::
              var r := Live(w)[i]; r.seqNo >= 0 && r.hash == Digest(r.seqNo, r.entry, r.prevHash)
  {
    var places := PlacesOf(w.tape);
    PlacesAre(w.tape, |w.tape|);
    forall i | 0 <= i < |Live(w)| ensures w.tape[places[Count(w) + i]].rec == Live(w)[i] {
      assert KeptOf(w.tape)[Count(w) + i] == Live(w)[i];
    }
  }

  lemma NextIsDigest(w: World, entry: Entry)
    requires GapInv(w)
    ensures var r := NextRecord(w, entry);
            r.seqNo >= 0 && r.hash == Digest(r.seqNo, r.entry, r.prevHash)
  {
    LiveDigests(w);
  }

  lemma NewLink(tape: seq<Write>, w: Write)
    requires tape != [] && AtLineEnd(tape)
    ensures ContinuesLost(tape + [w], |tape|) <==>
            !Kept(tape, |tape| - 1) && w.rec.prevHash == tape[|tape| - 1].rec.hash
  {
    var more, n := tape + [w], |tape|;
    assert more[n] == w && more[n - 1] == tape[n - 1] && (n > 1 ==> more[n - 2] == tape[n - 2]);
  }

  /** What continues the last record written. */
  lemma FitsBehindWritten(tape: seq<Write>, a: nat, recs: seq<Record>, w: Write)
    requires tape != [] && AtLineEnd(tape) && TailAbove(tape, recs) && AllDigests(tape)
    requires var last := tape[|tape| - 1].rec; w.rec.seqNo == last.seqNo + 1 && w.rec.prevHash == last.hash
    ensures NewFits(tape, a, recs, w)
  {
    NewLink(tape, w);
    if recs != [] && !Kept(tape, |tape| - 1) {
      assert recs[|recs| - 1].seqNo < tape[|tape| - 1].rec.seqNo;
    }
  }

  predicate ContinuesDisk(recs: seq<Record>, rec: Record) {
    if recs == [] then rec.seqNo == 0 && rec.prevHash == Genesis
    else rec.seqNo == recs[|recs| - 1].seqNo + 1 && rec.prevHash == recs[|recs| - 1].hash
  }

  /** What continues the last record of the chain. */
  lemma FitsBehindDisk(tape: seq<Write>, a: nat, recs: seq<Record>, w: Write)
    requires AtLineEnd(tape) && TailAbove(tape, recs) && AllDigests(tape) && Sound(recs) && ContinuesDisk(recs, w.rec)
    ensures NewFits(tape, a, recs, w)
  {
    if tape != [] {
      NewLink(tape, w);
      var lost := tape[|tape| - 1].rec;
      if recs != [] && !Kept(tape, |tape| - 1) {
        assert recs[|recs| - 1].seqNo < lost.seqNo;
        assert recs[|recs| - 1].hash != lost.hash;
      }
      assert lost.hash != Genesis;
    }
  }

  lemma NextContinues(w: World, entry: Entry)
    ensures var rec := NextRecord(w, entry);
            match w.logger
            case Some(last) => rec.seqNo == last.seqNo + 1 && rec.prevHash == last.hash
            case None => ContinuesDisk(Live(w), rec)
  {
  }

  /** What the service, or an attempt, writes next fits behind the chain. */
  lemma NextFits(w: World, entry: Entry, how: How)
    requires GapInv(w) && AtLineEnd(w.tape)
    ensures NewFits(w.tape, Count(w), Live(w), Write(NextRecord(w, entry), how))
  {
    var next := Write(NextRecord(w, entry), how);
    NextContinues(w, entry);
    if w.logger.Some? {
      assert w.tape[|w.tape| - 1].rec == w.logger.value;
      FitsBehindWritten(w.tape, Count(w), Live(w), next);
    } else {
      FitsBehindDisk(w.tape, Count(w), Live(w), next);
    }
  }

  lemma PutIsWritten(w: World, rec: Record, how: How)
    requires Inv(w) && TailAbove(w.tape, Live(w))
    ensures Records(Put(w.disk.chain, rec, how).lines) == WrittenBehind(w.tape, Live(w), Write(rec, how))
  {
    PutRecords(w.disk.chain, rec, how);
  }

  lemma WriteTail(tape: seq<Write>, recs: seq<Record>, w: Write)
    requires AllBelow(recs, w.rec.seqNo) && TailAbove(tape, recs)
    ensures TailAbove(tape + [w], WrittenBehind(tape, recs, w))
  {
    var more := tape + [w];
    assert more[|tape|] == w && (tape != [] ==> more[|tape| - 1] == tape[|tape| - 1]);
  }

  lemma WroteKeepsGapInv(w: World, entry: Entry, how: How, logger: Option<Record>)
    requires GapInv(w) && (logger == None || (logger == Some(NextRecord(w, entry)) && how == Whole))
    ensures GapInv(Wrote(w, NextRecord(w, entry), Some(how)).(logger := logger))
  {
    var rec := NextRecord(w, entry);
    NextIsNew(w, entry);
    NextIsDigest(w, entry);
    WroteKeepsInv(w, rec, Some(how), logger);
    WroteGaps(w, entry, how, logger);
  }

  lemma WroteGaps(w: World, entry: Entry, how: How, logger: Option<Record>)
    requires GapInv(w) && (logger == None || (logger == Some(NextRecord(w, entry)) && how == Whole))
    ensures Gaps(Wrote(w, NextRecord(w, entry), Some(how)).(logger := logger))
  {
    NextIsDigest(w, entry);
    WroteChains(w, entry, how);
    SinceCutFits(w);
    PutClean(w.disk.chain, w.tape, SinceCut(w), NextRecord(w, entry), how);
  }

  lemma WroteChains(w: World, entry: Entry, how: How)
    requires GapInv(w)
    ensures var w' := Wrote(w, NextRecord(w, entry), Some(how));
            Chained(w'.tape, Count(w'), Live(w')) && TailAbove(w'.tape, Live(w'))
  {
    var next := Write(NextRecord(w, entry), how);
    NextIsNew(w, entry);
    if AtLineEnd(w.tape) { NextFits(w, entry, how); }
    PutIsWritten(w, next.rec, how);
    WriteKeepsChained(w.tape, Count(w), Live(w), next);
    WriteTail(w.tape, Live(w), next);
  }

  /** What the running service remembers is no part of it, nor which anchor is written. */
  lemma SameGaps(w: World, w': World)
    requires GapInv(w) && w'.disk.chain == w.disk.chain && w'.logger == None
    requires w'.rounds == w.rounds && w'.cuts == w.cuts && w'.tape == w.tape
    requires w'.disk.anchor == w.disk.anchor || w'.disk.anchor.Written?
    ensures GapInv(w')
  {
    SameChain(w, w');
  }

  lemma BehindMore(tape: seq<Write>, a: nat, recs: seq<Record>, k: nat)
    requires Chained(tape, a, recs) && 0 < k <= |recs|
    ensures Chained(tape, a + k, recs[k..])
  {
    forall i | 0 < i < |recs[k..]|
      ensures PairFits(tape, PlacesOf(tape)[a + k + i], recs[k..][i - 1], recs[k..][i])
    {
      assert PairFits(tape, PlacesOf(tape)[a + (k + i)], recs[k + i - 1], recs[k + i]);
    }
  }

  lemma TailBehind(tape: seq<Write>, recs: seq<Record>, k: nat)
    requires TailAbove(tape, recs) && k <= |recs|
    requires tape != [] && Kept(tape, |tape| - 1) ==> k < |recs|
    ensures TailAbove(tape, recs[k..])
  {
  }

  lemma CutKeepsGapInv(w: World, plan: Plan, round: Runs.Round, a: AnchorFile)
    requires GapInv(w) && w.logger == None && Live(w) != [] && Takes(Live(w), plan, round) && a.Written?
    ensures var w1 := Wrote(w, ArchiveRecord(w.disk.chain, plan), Some(Whole));
            GapInv(CutWorld(w, w1, From(Live(w1), plan.anchorSeq), a, round))
  {
    var rec := ArchiveRecord(w.disk.chain, plan);
    var w1 := Wrote(w, rec, Some(Whole));
    assert rec == NextRecord(w, ArchiveEntry(plan));
    NextIsNew(w, ArchiveEntry(plan));
    NextIsDigest(w, ArchiveEntry(plan));
    WroteKeepsGapInv(w, ArchiveEntry(plan), Whole, None);
    CutKeepsInv(w, plan, round, a, rec);
    PutIsWritten(w, rec, Whole);
    CutChains(w, w1, rec, plan, round);
    CutGaps(w, w1, From(Live(w1), plan.anchorSeq), a, round);
  }

  lemma CutGaps(w: World, w1: World, kept: seq<Record>, a: AnchorFile, round: Runs.Round)
    requires |w1.tape| == |w.tape| + 1 && a.Written? && AllDigests(w1.tape) && TailAbove(w1.tape, kept)
    requires Chained(w1.tape, Count(w) + |round.bundle.entries|, kept)
    ensures Gaps(CutWorld(w, w1, kept, a, round))
  {
    CutCounts(w, w1, kept, a, round);
    HasGaps(CutWorld(w, w1, kept, a, round), Count(w) + |round.bundle.entries|, kept);
  }

  lemma HasGaps(w: World, a: nat, recs: seq<Record>)
    requires AllDigests(w.tape) && w.logger == None && w.disk.anchor.Written?
    requires Count(w) == a && Live(w) == recs && Chained(w.tape, a, recs) && TailAbove(w.tape, recs)
    requires AllParse(w.disk.chain.lines) && CleanFrom(w.tape, SinceCut(w))
    ensures Gaps(w)
  {
  }

  lemma CutChains(w: World, w1: World, rec: Record, plan: Plan, round: Runs.Round)
    requires Inv(w) && AllBelow(Live(w), rec.seqNo) && Takes(Live(w), plan, round) && Sound(Live(w1))
    requires w1.tape == w.tape + [Write(rec, Whole)]
    requires Live(w1) == WrittenBehind(w.tape, Live(w), Write(rec, Whole))
    requires Chained(w1.tape, Count(w), Live(w1)) && TailAbove(w1.tape, Live(w1))
    ensures var kept := From(Live(w1), plan.anchorSeq);
            Chained(w1.tape, Count(w) + |round.bundle.entries|, kept) && TailAbove(w1.tape, kept)
  {
    var k := |round.bundle.entries|;
    CutLeaves(w, w1, rec, plan, round);
    BehindMore(w1.tape, Count(w), Live(w1), k);
    TailBehind(w1.tape, Live(w1), k);
  }

  /** The cut leaves what stands behind the bundle's records. */
  lemma CutLeaves(w: World, w1: World, rec: Record, plan: Plan, round: Runs.Round)
    requires Inv(w) && AllBelow(Live(w), rec.seqNo) && Takes(Live(w), plan, round) && Sound(Live(w1))
    requires w1.tape == w.tape + [Write(rec, Whole)]
    requires Live(w1) == WrittenBehind(w.tape, Live(w), Write(rec, Whole))
    ensures var k := |round.bundle.entries|;
            && 0 < k <= |Live(w1)| && From(Live(w1), plan.anchorSeq) == Live(w1)[k..]
            && Live(w1)[..k] == Live(w)[..k] && (k < |Live(w1)| ==> Live(w1)[k] == Live(w)[k])
            && (Kept(w1.tape, |w1.tape| - 1) ==> k < |Live(w1)|)
  {
    var k := |round.bundle.entries|;
    StillStarts(Live(w), Live(w1), rec, k);
    CutMoves(Live(w), Live(w1), rec, plan, round);
    assert Live(w1) == Live(w1)[..k] + Live(w1)[k..];
    assert w1.tape[|w.tape|].how == Whole && (w.tape != [] ==> w1.tape[|w.tape| - 1] == w.tape[|w.tape| - 1]);
  }

  lemma CutCounts(w: World, w1: World, kept: seq<Record>, a: AnchorFile, round: Runs.Round)
    requires |w1.tape| == |w.tape| + 1
    ensures var w' := CutWorld(w, w1, kept, a, round);
            && Count(w') == Count(w) + |round.bundle.entries| && Live(w') == kept
            && SinceCut(w') == |w'.tape| && CleanFrom(w'.tape, SinceCut(w')) && AllParse(w'.disk.chain.lines)
  {
    RecordsOfAsLines(kept);
    Runs.ArchivedSnoc(w.rounds, round);
  }

  lemma AttemptKeepsGapInv(w: World, key: string, bundle: Bundle, sha: string, prunedAt: string, death: Death)
    requires GapInv(w)
    ensures GapInv(Attempted(w, key, bundle, sha, prunedAt, death))
  {
    var planned := PlanOf(w.disk.chain.lines, w.disk.anchor, bundle, sha);
    var w0, w' := w.(logger := None), Attempted(w, key, bundle, sha, prunedAt, death);
    SameGaps(w, w0);
    if planned.Ok? && Live(w) != [] {
      var plan := planned.value;
      if Cuts(death) {
        PlanTakes(w.disk.chain.lines, w.disk.anchor, bundle, sha);
        CutAttempt(w, plan, key, bundle, sha, prunedAt, death);
        CutKeepsGapInv(w0, plan, Runs.Round(bundle, sha), Written(AnchorOf(plan, key, prunedAt)));
      } else {
        UncutKeepsGapInv(w0, w', plan, key, bundle, sha, prunedAt, death);
      }
    }
  }

  lemma UncutKeepsGapInv(w: World, w': World, plan: Plan, key: string, bundle: Bundle, sha: string,
                         prunedAt: string, death: Death)
    requires GapInv(w) && w.logger == None && !Cuts(death) && Live(w) != []
    requires PlanOf(w.disk.chain.lines, w.disk.anchor, bundle, sha) == Ok(plan)
    requires w' == Attempted(w, key, bundle, sha, prunedAt, death)
    ensures GapInv(w')
  {
    var rec := ArchiveRecord(w.disk.chain, plan);
    var how := if death.InAppend? then HowOf(death.torn) else Some(Whole);
    UncutAttempt(w, plan, key, bundle, sha, prunedAt, death);
    assert rec == NextRecord(w, ArchiveEntry(plan));
    if how.Some? {
      WroteKeepsGapInv(w, ArchiveEntry(plan), how.value, None);
    }
    SameGaps(Wrote(w, rec, how), w');
  }

  lemma NextKeepsGapInv(w: World, key: string, step: Step)
    requires GapInv(w)
    ensures GapInv(Next(w, key, step))
  {
    match step
    case Logged(entry, None) => WroteKeepsGapInv(w, entry, Whole, Some(NextRecord(w, entry)));
    case Logged(entry, Some(torn)) =>
      if HowOf(torn).Some? {
        WroteKeepsGapInv(w, entry, HowOf(torn).value, None);
      } else {
        SameGaps(w, w.(logger := None));
      }
    case Restart => SameGaps(w, w.(logger := None));
    case Attempt(bundle, sha, prunedAt, death) => AttemptKeepsGapInv(w, key, bundle, sha, prunedAt, death);
  }

  lemma {:induction false} RunKeepsGapInv(key: string, steps: seq<Step>)
    ensures GapInv(Run(key, steps))
  {
    if steps != [] {
      RunKeepsGapInv(key, steps[..|steps| - 1]);
      NextKeepsGapInv(Run(key, steps[..|steps| - 1]), key, steps[|steps| - 1]);
    }
  }

  // ------------------------------------------------ when the chain verifies

  /** No live record behind the first continues a lost one. */
  predicate NoneContinuesLost(w: World) {
    forall i | 0 < i < |Live(w)| :: LinkAt(w, i)
  }

  predicate LinkAt(w: World, i: nat) {
    Count(w) + i < |PlacesOf(w.tape)| && !ContinuesLost(w.tape, PlacesOf(w.tape)[Count(w) + i])
  }

  predicate SelfLinked(recs: seq<Record>) {
    recs != [] ==> Linked(recs, recs[0].prevHash, None)
  }

  /** The first record is where the anchor, or its absence, says the chain starts; a pending anchor also
      names a record of the chain. */
  predicate StartFits(recs: seq<Record>, file: AnchorFile) {
    match ReadAnchor(file)
    case Err(_) => false
    case Ok(None) => recs != [] ==> recs[0].prevHash == Genesis
    case Ok(Some(a)) =>
      recs != [] &&
      if recs[0].seqNo == a.body.anchorSeq then recs[0].prevHash == a.body.prevHash
      else
        && (match a.body.supersedes
            case Some(s) => recs[0].seqNo == s.anchorSeq && recs[0].prevHash == s.prevHash
            case None => recs[0].seqNo == 0 && recs[0].prevHash == Genesis)
        && HashAt(recs, Some(a.body.anchorSeq - 1)) == Some(a.body.prevHash)
  }

  lemma LinkedFrom(recs: seq<Record>, prev: Hash, start: Option<int>)
    requires recs != [] && (start.Some? ==> recs[0].seqNo == start.value)
    ensures Linked(recs, prev, start) <==> SelfLinked(recs) && recs[0].prevHash == prev
  {
    if Linked(recs, prev, start) { assert LinkedAt(recs, prev, 0); }
  }

  lemma AgreeSplit(lines: seq<Line>, file: AnchorFile)
    ensures ChainAndAnchorAgree(lines, file) <==>
            AllParse(lines) && SelfLinked(Records(lines)) && StartFits(Records(lines), file)
  {
    var recs := Records(lines);
    match ReadAnchor(file)
    case Err(_) =>
    case Ok(None) =>
      if recs != [] { LinkedFrom(recs, Genesis, None); }
    case Ok(Some(a)) =>
      if recs != [] {
        LinkedFrom(recs, Genesis, None);
        if recs[0].seqNo == a.body.anchorSeq { LinkedFrom(recs, a.body.prevHash, Some(a.body.anchorSeq)); }
        if a.body.supersedes.Some? && recs[0].seqNo == a.body.supersedes.value.anchorSeq {
          LinkedFrom(recs, a.body.supersedes.value.prevHash, Some(a.body.supersedes.value.anchorSeq));
        }
      }
  }

  lemma LinkIsStep(w: World, i: nat)
    requires GapInv(w) && 0 < i < |Live(w)|
    ensures var recs := Live(w);
            LinkAt(w, i) <==> recs[i].seqNo == recs[i - 1].seqNo + 1 && recs[i].prevHash == recs[i - 1].hash
    ensures Live(w)[i].seqNo == Live(w)[i - 1].seqNo + 1 ==> LinkAt(w, i)
  {
    PairIsStep(w.tape, Count(w), Live(w), i);
  }

  lemma PairIsStep(tape: seq<Write>, a: nat, recs: seq<Record>, i: nat)
    requires Chained(tape, a, recs) && 0 < i < |recs|
    ensures a + i < |PlacesOf(tape)|
    ensures !ContinuesLost(tape, PlacesOf(tape)[a + i]) <==>
            recs[i].seqNo == recs[i - 1].seqNo + 1 && recs[i].prevHash == recs[i - 1].hash
    ensures recs[i].seqNo == recs[i - 1].seqNo + 1 ==> !ContinuesLost(tape, PlacesOf(tape)[a + i])
  {
    assert PairFits(tape, PlacesOf(tape)[a + i], recs[i - 1], recs[i]);
  }

  lemma StepsLink(recs: seq<Record>)
    requires Sound(recs) && recs != []
    requires forall i | 0 < i < |recs| :: recs[i].seqNo == recs[i - 1].seqNo + 1 && recs[i].prevHash == recs[i - 1].hash
    ensures SelfLinked(recs)
  {
    forall i: nat | i < |recs| ensures LinkedAt(recs, recs[0].prevHash, i) {
      StepsCount(recs, i);
    }
  }

  lemma {:induction false} StepsCount(recs: seq<Record>, i: nat)
    requires i < |recs| && forall j | 0 < j < |recs| :: recs[j].seqNo == recs[j - 1].seqNo + 1
    ensures recs[i].seqNo == recs[0].seqNo + i
  {
    if i > 0 { StepsCount(recs, i - 1); }
  }

  /** The live records are one linked run exactly when none of them continues a lost one. */
  lemma LinkedIff(w: World)
    requires GapInv(w)
    ensures SelfLinked(Live(w)) <==> NoneContinuesLost(w)
  {
    var recs := Live(w);
    forall i | 0 < i < |recs|
      ensures LinkAt(w, i) <==> recs[i].seqNo == recs[i - 1].seqNo + 1 && recs[i].prevHash == recs[i - 1].hash
    {
      LinkIsStep(w, i);
    }
    if NoneContinuesLost(w) && recs != [] { StepsLink(recs); }
    if SelfLinked(recs) {
      forall i | 0 < i < |recs| ensures LinkAt(w, i) {
        assert LinkedAt(recs, recs[0].prevHash, i) && LinkedAt(recs, recs[0].prevHash, i - 1);
      }
    }
  }

  /** After any run the chain verifies exactly when nothing has been torn since the last cut, no live
      record behind the first continues a lost one, and the chain starts where its anchor says. */
  lemma VerifiesIff(key: string, steps: seq<Step>)
    ensures var w := Run(key, steps);
            ChainAndAnchorAgree(w.disk.chain.lines, w.disk.anchor) <==>
            CleanFrom(w.tape, SinceCut(w)) && NoneContinuesLost(w) && StartFits(Live(w), w.disk.anchor)
  {
    var w := Run(key, steps);
    RunKeepsGapInv(key, steps);
    LinkedIff(w);
    AgreeSplit(w.disk.chain.lines, w.disk.anchor);
  }

  lemma AllKept(tape: seq<Write>)
    requires CleanFrom(tape, 0)
    ensures NothingTorn(tape) && forall i | 0 <= i < |tape| :: Kept(tape, i) && !ContinuesLost(tape, i)
  {
    forall i | 0 <= i < |tape|
      ensures Kept(tape, i) && (tape[i].how == Whole || (i == |tape| - 1 && tape[i].how == Bare))
    {
      assert CleanAt(tape, 0, i);
      if i + 1 < |tape| { assert CleanAt(tape, 0, i + 1); }
    }
  }

  /** A chain that no prune has anchored verifies exactly when nothing was torn at all, the newline of
      the last record aside. */
  lemma UnprunedVerifiesIff(key: string, steps: seq<Step>)
    requires Run(key, steps).disk.anchor == NoAnchor
    ensures var w := Run(key, steps);
            ChainAndAnchorAgree(w.disk.chain.lines, w.disk.anchor) <==> NothingTorn(w.tape)
  {
    var w := Run(key, steps);
    RunKeepsGapInv(key, steps);
    VerifiesIff(key, steps);
    NothingCut(w);
    CleanIsUntorn(w.tape);
    if CleanFrom(w.tape, 0) {
      UntornStarts(w);
    }
  }

  lemma NothingCut(w: World)
    requires GapInv(w) && w.disk.anchor == NoAnchor
    ensures w.rounds == [] && SinceCut(w) == 0 && Count(w) == 0
  {
  }

  lemma CleanIsUntorn(tape: seq<Write>)
    ensures CleanFrom(tape, 0) <==> NothingTorn(tape)
  {
    if CleanFrom(tape, 0) { AllKept(tape); }
  }

  lemma UntornStarts(w: World)
    requires GapInv(w) && w.disk.anchor == NoAnchor && CleanFrom(w.tape, 0)
    ensures NoneContinuesLost(w) && StartFits(Live(w), w.disk.anchor)
  {
    NothingCut(w);
    AllKept(w.tape);
    forall i | 0 < i < |Live(w)| ensures LinkAt(w, i) {
      PairIsStep(w.tape, 0, Live(w), i);
    }
  }

  /** A completed prune drops what was torn: what it leaves verifies exactly when something live is left
      and none of it, the first aside, continues a lost record. */
  lemma CompletedPruneVerifiesIff(key: string, steps: seq<Step>, bundle: Bundle, sha: string, prunedAt: string)
    requires PlanOf(Run(key, steps).disk.chain.lines, Run(key, steps).disk.anchor, bundle, sha).Ok?
    ensures var w := Run(key, steps + [Attempt(bundle, sha, prunedAt, Survives)]);
            ChainAndAnchorAgree(w.disk.chain.lines, w.disk.anchor) <==> Live(w) != [] && NoneContinuesLost(w)
  {
    var w, more := Run(key, steps), steps + [Attempt(bundle, sha, prunedAt, Survives)];
    assert more[..|more| - 1] == steps;
    RunKeepsGapInv(key, steps);
    RunKeepsGapInv(key, more);
    VerifiesIff(key, more);
    CutStarts(w, key, bundle, sha, prunedAt);
  }

  /** Where the chain starts after a cut. */
  lemma CutStarts(w: World, key: string, bundle: Bundle, sha: string, prunedAt: string)
    requires GapInv(w) && PlanOf(w.disk.chain.lines, w.disk.anchor, bundle, sha).Ok?
    ensures var w' := Attempted(w, key, bundle, sha, prunedAt, Survives);
            CleanFrom(w'.tape, SinceCut(w')) && (StartFits(Live(w'), w'.disk.anchor) <==> Live(w') != [])
  {
    var plan := PlanOf(w.disk.chain.lines, w.disk.anchor, bundle, sha).value;
    var w0, round := w.(logger := None), Runs.Round(bundle, sha);
    var w1 := Wrote(w0, ArchiveRecord(w.disk.chain, plan), Some(Whole));
    var kept := From(Live(w1), plan.anchorSeq);
    SameGaps(w, w0);
    PlanTakes(w.disk.chain.lines, w.disk.anchor, bundle, sha);
    CutAttempt(w, plan, key, bundle, sha, prunedAt, Survives);
    CutCounts(w0, w1, kept, Written(AnchorOf(plan, key, prunedAt)), round);
    LeftInPlace(w0, plan, round);
    LinkIsStep(w, |bundle.entries|);
    LiveDigests(w);
    AnchorStarts(Live(w), kept, plan, round, key, prunedAt);
  }

  lemma LeftInPlace(w: World, plan: Plan, round: Runs.Round)
    requires GapInv(w) && w.logger == None && Live(w) != [] && Takes(Live(w), plan, round)
    ensures var w1 := Wrote(w, ArchiveRecord(w.disk.chain, plan), Some(Whole));
            var kept := From(Live(w1), plan.anchorSeq);
            kept != [] ==> kept[0] == Live(w)[|round.bundle.entries|]
  {
    var rec := ArchiveRecord(w.disk.chain, plan);
    var w1 := Wrote(w, rec, Some(Whole));
    assert rec == NextRecord(w, ArchiveEntry(plan));
    NextIsNew(w, ArchiveEntry(plan));
    NextIsDigest(w, ArchiveEntry(plan));
    WroteKeepsInv(w, rec, Some(Whole), None);
    PutIsWritten(w, rec, Whole);
    CutLeaves(w, w1, rec, plan, round);
  }

  lemma AnchorStarts(recs: seq<Record>, kept: seq<Record>, plan: Plan, round: Runs.Round, key: string,
                     prunedAt: string)
    requires Takes(recs, plan, round) && (kept != [] ==> kept[0] == recs[|round.bundle.entries|])
    requires var k := |round.bundle.entries|;
             recs[k].prevHash == recs[k - 1].hash && recs[k - 1].hash != Genesis && recs[k - 1].seqNo >= 0
    ensures StartFits(kept, Written(AnchorOf(plan, key, prunedAt))) <==> kept != []
  {
  }
}
