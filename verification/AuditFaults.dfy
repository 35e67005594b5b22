/**
 What the prune does not survive: a chain file whose last line an earlier crash left unfinished,
 and another process writing where the command does not look. Each is given with the exact
 condition under which the prune is nonetheless sound.
 */
module AuditFaults {
  import opened Wrappers
  import opened AuditChain
  import opened AuditAnchor
  import opened AuditBundle
  import opened AuditPrune
  import opened AuditExecute

  lemma RecordsOfPrefix(lines: seq<Line>, rec: Record)
    requires lines != [] && rec in Records(lines[..|lines| - 1])
    ensures rec in Records(lines)
  {
    var n := |lines| - 1;
    assert lines == lines[..n] + [lines[n]];
    RecordsConcat(lines[..n], [lines[n]]);
  }

  lemma NewSeqIsNew(recs: seq<Record>, prev: Hash, rec: Record)
    requires recs != [] && Linked(recs, prev, None) && rec.seqNo == recs[|recs| - 1].seqNo + 1
    ensures rec !in recs
  {
    forall i | 0 <= i < |recs| ensures recs[i].seqNo < rec.seqNo {
      assert LinkedAt(recs, prev, i) && LinkedAt(recs, prev, |recs| - 1);
    }
  }

  /** The deletion is recorded in the chain it leaves exactly when the chain file ended in a
      complete line: after a torn one the `archive` record is written into the torn line. */
  lemma DeletionRecordedIff(d: Disk, plan: Plan, key: string, prunedAt: string, prev: Hash)
    requires Records(d.chain.lines) != [] && Linked(Records(d.chain.lines), prev, None)
    requires plan.anchorSeq <= Records(d.chain.lines)[|Records(d.chain.lines)| - 1].seqNo
    ensures ArchiveRecord(d.chain, plan)
              in Records(After(d, plan, Some(key), prunedAt, Survives, Nobody).0.chain.lines)
            <==> d.chain.terminated
  {
    var lines := d.chain.lines;
    var rec := ArchiveRecord(d.chain, plan);
    NewSeqIsNew(Records(lines), prev, rec);
    var appended := AppendTo(d.chain, Rec(rec), true);
    RecordsOfAsLines(From(Records(appended.lines), plan.anchorSeq));
    FromMembers(Records(appended.lines), plan.anchorSeq, rec);
    if d.chain.terminated {
      RecordsConcat(lines, [Rec(rec)]);
      assert Records([Rec(rec)]) == [rec];
    } else {
      var n := |lines| - 1;
      RecordsConcat(lines[..n], [Garbage]);
      assert Records([Garbage]) == [];
      if rec in Records(lines[..n]) {
        RecordsOfPrefix(lines, rec);
      }
    }
  }

  /** What a best-effort reader sees once a record has been appended to whatever the file ends in:
      behind a torn line the record is lost, and behind a complete line without its newline that
      line's own record is lost with it. */
  lemma AppendedRecords(file: ChainFile, rec: Record)
    ensures var recs := Records(file.lines);
            Records(AppendTo(file, Rec(rec), true).lines) ==
            if file.terminated || file.lines == [] then recs + [rec]
            else if file.lines[|file.lines| - 1].Garbage? then recs
            else if recs == [] then []
            else recs[..|recs| - 1]
  {
    var lines := file.lines;
    if file.terminated || lines == [] {
      RecordsConcat(lines, [Rec(rec)]);
      assert Records([Rec(rec)]) == [rec];
    } else {
      var n := |lines| - 1;
      RecordsConcat(lines[..n], [Garbage]);
      RecordsConcat(lines[..n], [lines[n]]);
      assert lines == lines[..n] + [lines[n]];
      assert Records([Garbage]) == [] && Records(lines[..n]) + [] == Records(lines[..n]);
      if lines[n].Rec? {
        assert Records([lines[n]]) == [lines[n].rec];
        assert Records(lines)[..|Records(lines)| - 1] == Records(lines[..n]);
      }
    }
  }

  /** The file ends in a complete line, or in a torn one: not in a record without its newline. */
  predicate SafeTail(file: ChainFile) {
    file.terminated || file.lines == [] || file.lines[|file.lines| - 1].Garbage?
  }

  /** What a prune that nothing interrupts leaves and answers. */
  function Finished(kept: seq<Record>, a: Anchor): (Disk, Outcome) {
    (Disk(ChainFile(AsLines(kept), true), Written(a)), Pruned(a))
  }

  /** A completed prune leaves the records from the anchor on under the new anchor. */
  lemma CompletedDisk(d: Disk, plan: Plan, key: string, prunedAt: string, kept: seq<Record>)
    requires Records(d.chain.lines) != []
    requires kept == From(Records(AppendTo(d.chain, Rec(ArchiveRecord(d.chain, plan)), true).lines), plan.anchorSeq)
    ensures After(d, plan, Some(key), prunedAt, Survives, Nobody) == Finished(kept, AnchorOf(plan, key, prunedAt))
    ensures Records(AsLines(kept)) == kept
  {
    RecordsOfAsLines(kept);
  }

  /** A completed prune keeps every live record of a linked chain exactly when the file did not end
      in a record without its newline: the `archive` record is written into that line. */
  lemma LiveIsKeptIff(d: Disk, plan: Plan, key: string, prunedAt: string, prev: Hash)
    requires Records(d.chain.lines) != [] && Linked(Records(d.chain.lines), prev, None)
    requires plan.anchorSeq <= Records(d.chain.lines)[|Records(d.chain.lines)| - 1].seqNo
    ensures (forall r | r in Records(d.chain.lines) && r.seqNo >= plan.anchorSeq ::
               r in Records(After(d, plan, Some(key), prunedAt, Survives, Nobody).0.chain.lines))
            <==> SafeTail(d.chain)
  {
    var recs := Records(d.chain.lines);
    var rec := ArchiveRecord(d.chain, plan);
    var appended := Records(AppendTo(d.chain, Rec(rec), true).lines);
    CompletedDisk(d, plan, key, prunedAt, From(appended, plan.anchorSeq));
    AppendedRecords(d.chain, rec);
    forall r ensures r in From(appended, plan.anchorSeq) <==> r in appended && r.seqNo >= plan.anchorSeq {
      FromMembers(appended, plan.anchorSeq, r);
    }
    if !SafeTail(d.chain) {
      LastIsGone(recs, prev);
    }
  }

  lemma LastIsGone(recs: seq<Record>, prev: Hash)
    requires recs != [] && Linked(recs, prev, None)
    ensures recs[|recs| - 1] in recs && recs[|recs| - 1] !in recs[..|recs| - 1]
  {
    var n := |recs| - 1;
    LinkedPrefix(recs, n, prev);
    if n > 0 {
      assert LinkedAt(recs, prev, n) && LinkedAt(recs, prev, n - 1);
      NewSeqIsNew(recs[..n], prev, recs[n]);
    }
  }

  /** The rest of a linked chain verifies under any anchor that names its first record. */
  lemma SuffixVerifies(recs: seq<Record>, prev: Hash, k: nat, a: Anchor)
    requires Linked(recs, prev, None) && 0 < k < |recs| && recs[0].seqNo >= 0
    requires a.body.anchorSeq == recs[k].seqNo && a.body.prevHash == recs[k].prevHash
    ensures ChainAndAnchorAgree(AsLines(recs[k..]), Written(a))
  {
    RecordsOfAsLines(recs[k..]);
    assert recs == recs[..k] + recs[k..];
    LinkedSplit(recs[..k], recs[k..], prev, None);
    assert LinkedAt(recs, prev, k) && LinkedAt(recs, prev, k - 1);
  }

  lemma EmptyDoesNotVerify(a: Anchor)
    ensures !ChainAndAnchorAgree(AsLines([]), Written(a))
  {
    RecordsOfAsLines([]);
  }

  /** What a completed prune leaves of `recs`, the first `k` archived, when the file's last line is
      not finished, `lost` of them with it. */
  lemma UnfinishedCut(recs: seq<Record>, prev: Hash, k: nat, lost: nat, a: Anchor)
    requires Linked(recs, prev, None) && 0 < k < |recs| && lost <= 1 && recs[0].seqNo >= 0
    requires a.body.anchorSeq == recs[k].seqNo && a.body.prevHash == recs[k].prevHash
    ensures var kept := From(recs[..|recs| - lost], a.body.anchorSeq);
            && kept == recs[k..|recs| - lost]
            && (ChainAndAnchorAgree(AsLines(kept), Written(a)) <==> k < |recs| - lost)
  {
    var n := |recs| - lost;
    LinkedPrefix(recs, n, prev);
    assert LinkedAt(recs, prev, k);
    FiltersCut(recs[..n], prev, k);
    assert recs[..n][k..] == recs[k..n];
    if k < n {
      assert LinkedAt(recs[..n], prev, k);
      SuffixVerifies(recs[..n], prev, k, a);
    } else {
      EmptyDoesNotVerify(a);
    }
  }

  /** A plan that continues from record `k` of the chain. */
  predicate CutsAt(plan: Plan, recs: seq<Record>, k: nat) {
    && 0 < k < |recs| && recs[0].seqNo >= 0
    && plan.anchorSeq == recs[k].seqNo && plan.prevHash == recs[k].prevHash
  }

  lemma {:induction false} UnfinishedDisk(d: Disk, plan: Plan, key: string, prunedAt: string, prev: Hash, k: nat)
    requires !d.chain.terminated && d.chain.lines != [] && Linked(Records(d.chain.lines), prev, None)
    requires CutsAt(plan, Records(d.chain.lines), k)
    ensures var recs, a := Records(d.chain.lines), AnchorOf(plan, key, prunedAt);
            var n := if SafeTail(d.chain) then |recs| else |recs| - 1;
            && After(d, plan, Some(key), prunedAt, Survives, Nobody) == Finished(recs[k..n], a)
            && Records(AsLines(recs[k..n])) == recs[k..n]
            && (ChainAndAnchorAgree(AsLines(recs[k..n]), Written(a)) <==> k < n)
  {
    var recs, a := Records(d.chain.lines), AnchorOf(plan, key, prunedAt);
    var lost := if SafeTail(d.chain) then 0 else 1;
    assert recs[..|recs|] == recs;
    AppendedRecords(d.chain, ArchiveRecord(d.chain, plan));
    UnfinishedCut(recs, prev, k, lost, a);
    CompletedDisk(d, plan, key, prunedAt, recs[k..|recs| - lost]);
  }

  /** The loss is silent. On a chain file whose last line is not finished, whatever was pruned
      before, every prune that can be planned completes, and leaves no record of the deletion.
      Behind a torn line it keeps every live record and verifies. Behind a whole record without its
      newline that record is gone, from the chain and from the archive, and the chain still
      verifies unless that record was the only live one. */
  lemma {:induction false} UnfinishedTailPrunesSilently(d: Disk, bundle: Bundle, sha: string, key: string,
                                                        prunedAt: string, prev: Hash)
    requires !d.chain.terminated && d.chain.lines != []
    requires Linked(Records(d.chain.lines), prev, None) && PlanOf(d.chain.lines, d.anchor, bundle, sha).Ok?
    requires Records(d.chain.lines)[0].seqNo >= 0
    ensures var recs, k := Records(d.chain.lines), |bundle.entries|;
            var kept := if SafeTail(d.chain) then |recs| else |recs| - 1;
            var plan := PlanOf(d.chain.lines, d.anchor, bundle, sha).value;
            var (d', outcome) := After(d, plan, Some(key), prunedAt, Survives, Nobody);
            && 0 < k < |recs| && bundle.entries == recs[..k]
            && outcome.Pruned?
            && Records(d'.chain.lines) == recs[k..kept]
            && (ChainAndAnchorAgree(d'.chain.lines, d'.anchor) <==> k < kept)
            && ArchiveRecord(d.chain, plan) !in bundle.entries + Records(d'.chain.lines)
            && (!SafeTail(d.chain) ==> recs[|recs| - 1] !in bundle.entries + Records(d'.chain.lines))
  {
    var recs, k := Records(d.chain.lines), |bundle.entries|;
    var plan := PlanOf(d.chain.lines, d.anchor, bundle, sha).value;
    PlanCuts(d, bundle, sha, prev);
    UnfinishedDisk(d, plan, key, prunedAt, prev, k);
    NewAndLastAreGone(recs, prev, k, ArchiveRecord(d.chain, plan));
  }

  /** On such a file every prune that the complete chain admits is planned, under any readable anchor. */
  lemma UnfinishedIsPlanned(recs: seq<Record>, prev: Hash, bundle: Bundle, sha: string,
                            anchor: AnchorFile, torn: bool)
    requires Linked(recs, prev, None) && ArchivesProperPrefix(recs, bundle) && ReadAnchor(anchor).Ok?
    ensures var d := Disk(ChainFile(AsLines(recs) + (if torn then [Garbage] else []), false), anchor);
            && Records(d.chain.lines) == recs && d.chain.lines != [] && (SafeTail(d.chain) <==> torn)
            && PlanOf(d.chain.lines, d.anchor, bundle, sha).Ok?
  {
    var lines := AsLines(recs) + (if torn then [Garbage] else []);
    RecordsConcat(AsLines(recs), if torn then [Garbage] else []);
    RecordsOfAsLines(recs);
    assert Records([Garbage]) == [] && recs + [] == recs;
    PlanExact(lines, anchor, bundle, sha, prev);
  }

  lemma PlanCuts(d: Disk, bundle: Bundle, sha: string, prev: Hash)
    requires Linked(Records(d.chain.lines), prev, None) && PlanOf(d.chain.lines, d.anchor, bundle, sha).Ok?
    requires Records(d.chain.lines)[0].seqNo >= 0
    ensures var recs, k := Records(d.chain.lines), |bundle.entries|;
            CutsAt(PlanOf(d.chain.lines, d.anchor, bundle, sha).value, recs, k) && bundle.entries == recs[..k]
  {
    PlanExact(d.chain.lines, d.anchor, bundle, sha, prev);
  }

  lemma NewAndLastAreGone(recs: seq<Record>, prev: Hash, k: nat, rec: Record)
    requires Linked(recs, prev, None) && 0 < k < |recs| && rec.seqNo == recs[|recs| - 1].seqNo + 1
    ensures rec !in recs[..k] + recs[k..]
    ensures rec !in recs[..k] + recs[k..|recs| - 1] && recs[|recs| - 1] !in recs[..k] + recs[k..|recs| - 1]
  {
    var n := |recs| - 1;
    NewSeqIsNew(recs, prev, rec);
    assert recs[..k] + recs[k..] == recs && recs[..k] + recs[k..n] == recs[..n];
    assert forall i | 0 <= i < n :: recs[..n][i] == recs[i] && recs[i] in recs;
    LinkedPrefix(recs, n, prev);
    assert LinkedAt(recs, prev, n) && LinkedAt(recs, prev, n - 1);
    NewSeqIsNew(recs[..n], prev, recs[n]);
  }

  // ------------------------------------------------------- other writers

  lemma {:induction false} FromConcat(a: seq<Record>, b: seq<Record>, first: int)
    ensures From(a + b, first) == From(a, first) + From(b, first)
  {
    if a == [] {
      assert a + b == b;
    } else {
      var whole, tail := a + b, a[1..] + b;
      var head := if a[0].seqNo >= first then [a[0]] else [];
      assert whole[0] == a[0] && whole[1..] == tail;
      FromConcat(a[1..], b, first);
      assert From(whole, first) == head + From(tail, first) && From(a, first) == head + From(a[1..], first);
    }
  }

  lemma {:induction false} FromAll(recs: seq<Record>, first: int)
    requires forall r | r in recs :: r.seqNo >= first
    ensures From(recs, first) == recs
  {
    if recs != [] {
      assert recs[0] in recs;
      FromAll(recs[1..], first);
    }
  }

  /** A run goes on through records that others wrote around the `archive` record exactly when they
      wrote none before it and those after it continue from it. */
  lemma RunGoesOnIff(recs: seq<Record>, prev: Hash, start: int, unread: seq<Record>, rec: Record,
                     unseen: seq<Record>)
    requires recs != [] && Linked(recs, prev, Some(start))
    requires rec.seqNo == recs[|recs| - 1].seqNo + 1 && rec.prevHash == recs[|recs| - 1].hash
    ensures Linked(recs + (unread + [rec] + unseen), prev, Some(start)) <==>
            unread == [] && Linked([rec] + unseen, rec.prevHash, None)
  {
    var more := unread + [rec] + unseen;
    var next := recs[|recs| - 1].seqNo + 1;
    assert LinkedAt(recs, prev, |recs| - 1);
    LinkedSplit(recs, more, prev, Some(start));
    if unread == [] {
      assert more == [rec] + unseen;
    } else {
      var i := |recs| + |unread|;
      assert (recs + more)[i] == rec && (recs + more)[0] == recs[0];
      assert !LinkedAt(recs + more, prev, i);
    }
  }

  lemma UnseenKept(recs: seq<Record>, prev: Hash, k: nat, more: seq<Record>, first: int)
    requires Linked(recs, prev, None) && k < |recs| && first == recs[k].seqNo
    requires forall r | r in more :: r.seqNo > recs[|recs| - 1].seqNo
    ensures From(recs + more, first) == recs[k..] + more
  {
    FiltersCut(recs, prev, k);
    assert LinkedAt(recs, prev, k) && LinkedAt(recs, prev, |recs| - 1);
    FromConcat(recs, more, first);
    FromAll(more, first);
  }

  lemma UnseenDisk(d: Disk, plan: Plan, key: string, prunedAt: string, kept: seq<Record>,
                   unread: seq<Line>, unseen: seq<Line>)
    requires d.chain.terminated && Records(d.chain.lines) != []
    requires kept == From(Records(d.chain.lines) + (Records(unread) + [ArchiveRecord(d.chain, plan)] + Records(unseen)),
                          plan.anchorSeq)
    ensures After(d, plan, Some(key), prunedAt, Survives, Others(unread, unseen, [], [])) ==
            Finished(kept, AnchorOf(plan, key, prunedAt))
    ensures Records(AsLines(kept)) == kept
  {
    AroundTheRecord(d.chain, unread, ArchiveRecord(d.chain, plan), unseen);
    RecordsOfAsLines(kept);
  }

  /** Nobody looks at the file between the reading of its last record and the snapshot: a prune of a
      complete, linked chain during which others write there completes, and what it leaves
      verifies exactly when they wrote no record before the `archive` record and those after it
      continue from it. */
  lemma UnseenWritesVerifyIff(d: Disk, bundle: Bundle, sha: string, key: string, prunedAt: string,
                              prev: Hash, unread: seq<Line>, unseen: seq<Line>)
    requires d.chain.terminated && Linked(Records(d.chain.lines), prev, None)
    requires PlanOf(d.chain.lines, d.anchor, bundle, sha).Ok? && Records(d.chain.lines)[0].seqNo >= 0
    requires forall r | r in Records(unread) + Records(unseen) ::
               r.seqNo > Records(d.chain.lines)[|Records(d.chain.lines)| - 1].seqNo
    ensures var plan := PlanOf(d.chain.lines, d.anchor, bundle, sha).value;
            var rec := ArchiveRecord(d.chain, plan);
            var (d', outcome) := After(d, plan, Some(key), prunedAt, Survives, Others(unread, unseen, [], []));
            && outcome.Pruned? && |bundle.entries| < |Records(d.chain.lines)|
            && Records(d'.chain.lines) == Records(d.chain.lines)[|bundle.entries|..]
                                          + (Records(unread) + [rec] + Records(unseen))
            && (ChainAndAnchorAgree(d'.chain.lines, d'.anchor) <==>
                Records(unread) == [] && Linked([rec] + Records(unseen), rec.prevHash, None))
  {
    var recs, k := Records(d.chain.lines), |bundle.entries|;
    var plan := PlanOf(d.chain.lines, d.anchor, bundle, sha).value;
    PlanCuts(d, bundle, sha, prev);
    var rec := ArchiveRecord(d.chain, plan);
    var more := Records(unread) + [rec] + Records(unseen);
    UnseenKept(recs, prev, k, more, plan.anchorSeq);
    UnseenDisk(d, plan, key, prunedAt, recs[k..] + more, unread, unseen);
    WithOthersVerifies(recs, prev, k, Records(unread), rec, Records(unseen), AnchorOf(plan, key, prunedAt));
  }

  lemma AroundTheRecord(file: ChainFile, unread: seq<Line>, rec: Record, unseen: seq<Line>)
    requires file.terminated
    ensures Records(Joined(AppendTo(Joined(file, unread), Rec(rec), true), unseen).lines) ==
            Records(file.lines) + (Records(unread) + [rec] + Records(unseen))
  {
    JoinedRecords(file, unread);
    AppendedRecords(Joined(file, unread), rec);
    JoinedRecords(AppendTo(Joined(file, unread), Rec(rec), true), unseen);
  }

  lemma WithOthersVerifies(recs: seq<Record>, prev: Hash, k: nat, unread: seq<Record>, rec: Record,
                           unseen: seq<Record>, a: Anchor)
    requires Linked(recs, prev, None) && 0 < k < |recs| && recs[0].seqNo >= 0
    requires a.body.anchorSeq == recs[k].seqNo && a.body.prevHash == recs[k].prevHash
    requires rec.seqNo == recs[|recs| - 1].seqNo + 1 && rec.prevHash == recs[|recs| - 1].hash
    ensures ChainAndAnchorAgree(AsLines(recs[k..] + (unread + [rec] + unseen)), Written(a)) <==>
            unread == [] && Linked([rec] + unseen, rec.prevHash, None)
  {
    var kept := recs[k..] + (unread + [rec] + unseen);
    RecordsOfAsLines(kept);
    assert recs == recs[..k] + recs[k..];
    LinkedSplit(recs[..k], recs[k..], prev, None);
    assert LinkedAt(recs, prev, k) && LinkedAt(recs, prev, k - 1);
    RunGoesOnIff(recs[k..], a.body.prevHash, a.body.anchorSeq, unread, rec, unseen);
  }

  /** A write seen between the two looks at the file stops the prune with everything kept. */
  lemma EarlyWritesAreKept(d: Disk, plan: Plan, key: string, prunedAt: string, early: seq<Line>, late: seq<Line>)
    requires Records(d.chain.lines) != [] && d.chain.terminated && early != []
    ensures var (d', outcome) := After(d, plan, Some(key), prunedAt, Survives, Others([], [], early, late));
            && outcome == ChainChanged
            && Records(d'.chain.lines) ==
               Records(d.chain.lines) + [ArchiveRecord(d.chain, plan)] + Records(early)
  {
    var rec := ArchiveRecord(d.chain, plan);
    AppendedRecords(d.chain, rec);
    JoinedRecords(AppendTo(d.chain, Rec(rec), true), early);
  }

  /** A write after the second look is overwritten: what others wrote survives a completed prune
      exactly when they wrote no record in that gap. */
  lemma LateWritesSurviveIff(d: Disk, plan: Plan, key: string, prunedAt: string, late: seq<Line>)
    requires Records(d.chain.lines) != [] && d.chain.terminated
    requires forall r | r in Records(late) ::
               r !in Records(d.chain.lines) && r.seqNo > ArchiveRecord(d.chain, plan).seqNo
    ensures (forall r | r in Records(late) ::
               r in Records(After(d, plan, Some(key), prunedAt, Survives, Others([], [], [], late)).0.chain.lines))
            <==> Records(late) == []
  {
    var rec := ArchiveRecord(d.chain, plan);
    var appended := d.chain.lines + [Rec(rec)];
    RecordsConcat(d.chain.lines, [Rec(rec)]);
    assert Records([Rec(rec)]) == [rec];
    RecordsOfAsLines(From(Records(appended), plan.anchorSeq));
    if Records(late) != [] {
      var r := Records(late)[0];
      FromMembers(Records(appended), plan.anchorSeq, r);
      assert r in Records(late) && r !in Records(appended);
    }
  }
}
