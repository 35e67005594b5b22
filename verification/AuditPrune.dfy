/**
 Planning a prune of the audit chain (modules/core/audit_prune.py, `plan_prune`): what a verified
 bundle must cover, the order in which a plan is refused, and what a plan guarantees.
 */
module AuditPrune {
  import opened Wrappers
  import opened AuditChain
  import opened AuditAnchor
  import opened AuditBundle
  import Sets

  datatype Plan = Plan(
    anchorSeq: int, prevHash: Hash,
    archivedFirst: int, archivedLast: int, archivedCount: int,
    bundleSha: string, supersedes: Option<Superseded>)

  datatype Refusal =
    | DoesNotVerify(fault: BundleFault)
    | Unsigned
    | EmptyBundle
    | NoChain
    | NotAPrefix(bundleFirst: int, chainFirst: int)
    | ArchiveIncomplete(at: int)
    | Disagree(at: int)
    | CountMismatch(bundleCount: int, chainCount: int)
    | LastMissing(last: int)
    | WouldEmptyChain(last: int)
    | ChainJumps(last: int, next: int)
    | AnchorNotReadable

  // ----------------------------------------------------------------- plan

  /** The first record the bundle does not hold, or holds with another hash. */
  function FirstDifference(recs: seq<Record>, entries: seq<Record>): Option<Refusal> {
    if recs == [] then None
    else
      var expected := HashAt(entries, Some(recs[0].seqNo));
      if expected == None then Some(ArchiveIncomplete(recs[0].seqNo))
      else if expected.value != recs[0].hash then Some(Disagree(recs[0].seqNo))
      else FirstDifference(recs[1..], entries)
  }

  function PlanOf(lines: seq<Line>, anchor: AnchorFile, bundle: Bundle, sha: string): Result<Plan, Refusal> {
    match VerifyBundle(bundle)
    case Err(fault) => Err(DoesNotVerify(fault))
    case Ok(verdict) =>
      var recs := Records(lines);
      if !verdict.signed then Err(Unsigned)
      else if verdict.count == 0 then Err(EmptyBundle)
      else if recs == [] then Err(NoChain)
      else if recs[0].seqNo != verdict.first.value then Err(NotAPrefix(verdict.first.value, recs[0].seqNo))
      else
        var last := verdict.last.value;
        var covered := UpTo(recs, last);
        var rest := From(recs, last + 1);
        var difference := FirstDifference(covered, bundle.entries);
        if difference.Some? then Err(difference.value)
        else if |covered| != verdict.count then Err(CountMismatch(verdict.count, |covered|))
        else if HashAt(covered, Some(last)) == None then Err(LastMissing(last))
        else if rest == [] then Err(WouldEmptyChain(last))
        else if rest[0].seqNo != last + 1 then Err(ChainJumps(last, rest[0].seqNo))
        else
          match ReadAnchor(anchor)
          case Err(_) => Err(AnchorNotReadable)
          case Ok(previous) =>
            Ok(Plan(last + 1, HashAt(covered, Some(last)).value, verdict.first.value, last, verdict.count, sha,
                    if previous == None then None
                    else Some(Superseded(previous.value.body.anchorSeq, previous.value.body.prevHash))))
  }

  /** Scans the chain once, as the command does, and never writes. */
  method PlanPrune(lines: seq<Line>, anchor: AnchorFile, bundle: Bundle, sha: string)
    returns (r: Result<Plan, Refusal>)
    ensures r == PlanOf(lines, anchor, bundle, sha)
  {
    var verdict;
    match VerifyBundle(bundle) {
      case Err(fault) => return Err(DoesNotVerify(fault));
      case Ok(v) => verdict := v;
    }
    if !verdict.signed { return Err(Unsigned); }
    if verdict.count == 0 { return Err(EmptyBundle); }
    var firstSeq, lastSeq := verdict.first.value, verdict.last.value;
    var recs := Records(lines);
    if recs == [] { return Err(NoChain); }
    if recs[0].seqNo != firstSeq { return Err(NotAPrefix(firstSeq, recs[0].seqNo)); }

    var headAtLast: Option<Hash> := None;
    var seen := 0;
    for i := 0 to |recs|
      invariant seen == |UpTo(recs[..i], lastSeq)|
      invariant headAtLast == HashAt(UpTo(recs[..i], lastSeq), Some(lastSeq))
      invariant FirstDifference(UpTo(recs, lastSeq), bundle.entries)
             == FirstDifference(UpTo(recs[i..], lastSeq), bundle.entries)
    {
      var rec := recs[i];
      UpToSnoc(recs[..i], rec, lastSeq);
      assert recs[..i] + [rec] == recs[..i + 1];
      assert recs[i..][0] == rec && recs[i..][1..] == recs[i + 1..];
      assert rec.seqNo > lastSeq ==> UpTo(recs[..i + 1], lastSeq) == UpTo(recs[..i], lastSeq);
      assert rec.seqNo > lastSeq ==> UpTo(recs[i..], lastSeq) == UpTo(recs[i + 1..], lastSeq);
      if rec.seqNo <= lastSeq {
        var expected := HashAt(bundle.entries, Some(rec.seqNo));
        assert UpTo(recs[i..], lastSeq) == [rec] + UpTo(recs[i + 1..], lastSeq);
        if expected == None { return Err(ArchiveIncomplete(rec.seqNo)); }
        if expected.value != rec.hash { return Err(Disagree(rec.seqNo)); }
        HashAtSnoc(UpTo(recs[..i], lastSeq), rec, Some(lastSeq));
        seen := seen + 1;
        if rec.seqNo == lastSeq { headAtLast := Some(rec.hash); }
      }
    }
    assert recs[..|recs|] == recs;
    if seen != verdict.count { return Err(CountMismatch(verdict.count, seen)); }
    if headAtLast == None { return Err(LastMissing(lastSeq)); }
    var rest := From(recs, lastSeq + 1);
    if rest == [] { return Err(WouldEmptyChain(lastSeq)); }
    if rest[0].seqNo != lastSeq + 1 { return Err(ChainJumps(lastSeq, rest[0].seqNo)); }
    match ReadAnchor(anchor) {
      case Err(_) => return Err(AnchorNotReadable);
      case Ok(previous) =>
        return Ok(Plan(lastSeq + 1, headAtLast.value, firstSeq, lastSeq, verdict.count, sha,
                       if previous == None then None
                       else Some(Superseded(previous.value.body.anchorSeq, previous.value.body.prevHash))));
    }
  }

  lemma {:induction false} UpToSnoc(recs: seq<Record>, rec: Record, last: int)
    ensures UpTo(recs + [rec], last) == UpTo(recs, last) + (if rec.seqNo <= last then [rec] else [])
  {
    if recs == [] {
      assert recs + [rec] == [rec] && [rec][1..] == [];
      assert UpTo([rec], last) == (if rec.seqNo <= last then [rec] else []) + UpTo([rec][1..], last);
    } else {
      var whole, tail := recs + [rec], recs[1..] + [rec];
      assert whole[0] == recs[0] && whole[1..] == tail;
      UpToSnoc(recs[1..], rec, last);
      assert UpTo(whole, last) == (if recs[0].seqNo <= last then [recs[0]] else []) + UpTo(tail, last);
    }
  }

  lemma {:induction false} NoDifference(recs: seq<Record>, entries: seq<Record>, i: nat)
    requires FirstDifference(recs, entries) == None && i < |recs|
    ensures HashAt(entries, Some(recs[i].seqNo)) == Some(recs[i].hash)
  {
    if i > 0 {
      NoDifference(recs[1..], entries, i - 1);
    }
  }

  lemma {:induction false} SameRecordsNoDifference(recs: seq<Record>, entries: seq<Record>)
    requires forall i | 0 <= i < |recs| :: HashAt(entries, Some(recs[i].seqNo)) == Some(recs[i].hash)
    ensures FirstDifference(recs, entries) == None
  {
    if recs != [] {
      SameRecordsNoDifference(recs[1..], entries);
    }
  }

  lemma {:induction false} HashAtIsAnEntry(entries: seq<Record>, at: int)
    requires HashAt(entries, Some(at)).Some?
    ensures exists j :: 0 <= j < |entries| && entries[j].seqNo == at
                        && entries[j].hash == HashAt(entries, Some(at)).value
  {
    var n := |entries| - 1;
    if entries[n].seqNo != at {
      HashAtIsAnEntry(entries[..n], at);
      var j :| 0 <= j < n && entries[..n][j].seqNo == at
               && entries[..n][j].hash == HashAt(entries[..n], Some(at)).value;
      assert entries[j] == entries[..n][j];
    } else {
      assert entries[n].seqNo == at && entries[n].hash == HashAt(entries, Some(at)).value;
    }
  }

  /** Whatever the state of the chain file, damaged or not: a plan is made only when every
      record it would delete is in the archive, under the same seq and the same hash. */
  lemma NothingUnarchivedIsDeleted(lines: seq<Line>, anchor: AnchorFile, bundle: Bundle, sha: string, i: nat)
    requires PlanOf(lines, anchor, bundle, sha).Ok?
    requires i < |Records(lines)|
    requires Records(lines)[i] !in From(Records(lines), PlanOf(lines, anchor, bundle, sha).value.anchorSeq)
    ensures exists j :: 0 <= j < |bundle.entries|
                        && bundle.entries[j].seqNo == Records(lines)[i].seqNo
                        && bundle.entries[j].hash == Records(lines)[i].hash
  {
    var recs := Records(lines);
    var last := VerifyBundle(bundle).value.last.value;
    KeptOrCovered(recs, last, i);
    var covered := UpTo(recs, last);
    var k :| 0 <= k < |covered| && covered[k] == recs[i];
    NoDifference(covered, bundle.entries, k);
    HashAtIsAnEntry(bundle.entries, recs[i].seqNo);
  }

  lemma {:induction false} KeptOrCovered(recs: seq<Record>, last: int, i: nat)
    requires i < |recs|
    ensures if recs[i].seqNo <= last then recs[i] in UpTo(recs, last) else recs[i] in From(recs, last + 1)
  {
    if i > 0 {
      KeptOrCovered(recs[1..], last, i - 1);
    }
  }

  /** No prune is planned from a bundle that nobody signed, or somebody else's signature stands under. */
  lemma PlanNeedsSignature(lines: seq<Line>, anchor: AnchorFile, bundle: Bundle, sha: string)
    requires PlanOf(lines, anchor, bundle, sha).Ok?
    ensures exists k :: SignedAs(bundle, Some(k))
    ensures exists prev, start :: Holds(bundle, prev, start)
  {
    VerifiesIff(bundle);
    var key :| SignedAs(bundle, key);
    assert SignedAs(bundle, Some(key.value));
  }

  /** The bundle a prune of an intact chain may be planned from. */
  predicate ArchivesProperPrefix(recs: seq<Record>, bundle: Bundle) {
    && VerifyBundle(bundle).Ok? && VerifyBundle(bundle).value.signed
    && 0 < |bundle.entries| < |recs|
    && bundle.entries == recs[..|bundle.entries|]
  }

  /** On an intact chain planning succeeds exactly when the bundle verifies, is signed, and its
      records (seq, entry and hash) are the chain's own from its start, with at least one live
      record after them; and the plan continues from the last archived record. */
  lemma PlanExact(lines: seq<Line>, anchor: AnchorFile, bundle: Bundle, sha: string, prev: Hash)
    requires Linked(Records(lines), prev, None)
    ensures PlanOf(lines, anchor, bundle, sha).Ok? <==>
            ArchivesProperPrefix(Records(lines), bundle) && ReadAnchor(anchor).Ok?
    ensures PlanOf(lines, anchor, bundle, sha).Ok? ==>
              var plan := PlanOf(lines, anchor, bundle, sha).value;
              var k := |bundle.entries|;
              && plan.anchorSeq == Records(lines)[k].seqNo == plan.archivedLast + 1
              && plan.prevHash == Records(lines)[k - 1].hash == Records(lines)[k].prevHash
              && plan.archivedFirst == Records(lines)[0].seqNo && plan.archivedCount == k
              && From(Records(lines), plan.anchorSeq) == Records(lines)[k..]
  {
    var recs := Records(lines);
    if PlanOf(lines, anchor, bundle, sha).Ok? {
      PlanImpliesPrefix(recs, lines, anchor, bundle, sha, prev);
    }
    if ArchivesProperPrefix(recs, bundle) && ReadAnchor(anchor).Ok? {
      PrefixImpliesPlan(recs, lines, anchor, bundle, sha, prev);
    }
  }

  lemma PlanImpliesPrefix(recs: seq<Record>, lines: seq<Line>, anchor: AnchorFile, bundle: Bundle, sha: string,
       prev: Hash)
    requires recs == Records(lines) && Linked(recs, prev, None)
    requires PlanOf(lines, anchor, bundle, sha).Ok?
    ensures ArchivesProperPrefix(recs, bundle) && ReadAnchor(anchor).Ok?
  {
    var entries, v := bundle.entries, VerifyBundle(bundle).value;
    VerifiedBundleIsLinked(bundle);
    var q :| Linked(entries, q, None);
    var k := |entries|;
    var n := if k <= |recs| then k else |recs|;
    assert v.last.value == recs[0].seqNo + k - 1;
    if k <= |recs| {
      FiltersCut(recs, prev, k);
    } else {
      UpToAll(recs, v.last.value, prev);
    }
    var covered := UpTo(recs, v.last.value);
    assert covered == recs[..n] && n == k;
    forall i | 0 <= i < k ensures entries[i] == recs[i] {
      assert LinkedAt(recs, prev, i) && LinkedAt(entries, q, i);
      NoDifference(covered, entries, i);
      HashAtLinked(entries, q, recs[i].seqNo);
    }
  }

  lemma {:induction false} UpToAll(recs: seq<Record>, last: int, prev: Hash)
    requires Linked(recs, prev, None) && (recs != [] ==> recs[0].seqNo + |recs| <= last + 1)
    ensures UpTo(recs, last) == recs
  {
    if recs != [] {
      LinkedTail(recs, prev);
      UpToAll(recs[1..], last, recs[0].hash);
    }
  }

  /** What the scan finds in a chain that starts with the archived records. */
  lemma ScanOfPrefix(recs: seq<Record>, k: nat, prev: Hash)
    requires Linked(recs, prev, None) && 0 < k < |recs|
    ensures var last := recs[0].seqNo + k - 1;
            && recs[k - 1].seqNo == last && recs[k].seqNo == last + 1 && recs[k].prevHash == recs[k - 1].hash
            && UpTo(recs, last) == recs[..k] && From(recs, last + 1) == recs[k..]
            && HashAt(recs[..k], Some(last)) == Some(recs[k - 1].hash)
            && FirstDifference(recs[..k], recs[..k]) == None
  {
    var covered := recs[..k];
    FiltersCut(recs, prev, k);
    LinkedPrefix(recs, k, prev);
    forall i | 0 <= i < k ensures HashAt(covered, Some(covered[i].seqNo)) == Some(covered[i].hash) {
      assert LinkedAt(recs, prev, i);
      HashAtLinked(covered, prev, recs[i].seqNo);
    }
    SameRecordsNoDifference(covered, covered);
    assert LinkedAt(recs, prev, k - 1) && LinkedAt(recs, prev, k);
    assert covered[k - 1] == recs[k - 1];
  }

  lemma {:induction false} PrefixImpliesPlan(recs: seq<Record>, lines: seq<Line>, anchor: AnchorFile,
                                             bundle: Bundle, sha: string,
                          prev: Hash)
    requires recs == Records(lines) && Linked(recs, prev, None)
    requires ArchivesProperPrefix(recs, bundle) && ReadAnchor(anchor).Ok?
    ensures PlanOf(lines, anchor, bundle, sha).Ok?
    ensures var plan := PlanOf(lines, anchor, bundle, sha).value;
            var k := |bundle.entries|;
            && plan.anchorSeq == recs[k].seqNo == plan.archivedLast + 1
            && plan.prevHash == recs[k - 1].hash == recs[k].prevHash
            && plan.archivedFirst == recs[0].seqNo && plan.archivedCount == k
            && From(recs, plan.anchorSeq) == recs[k..]
  {
    VerifiedBundleIsLinked(bundle);
    ScanOfPrefix(recs, |bundle.entries|, prev);
  }

  /** The count check alone does not rule a gap out: with a record written twice and one missing,
      a plan is still made. What it deletes is archived all the same. */
  lemma RepeatedRecordHidesAGap(key: string, sha: string)
    ensures exists lines: seq<Line>, bundle: Bundle ::
              PlanOf(lines, NoAnchor, bundle, sha).Ok? && !ArchivesProperPrefix(Records(lines), bundle)
  {
    var r0 := MakeLine(0, Event("a"), Genesis);
    var r1 := MakeLine(1, Event("b"), r0.hash);
    var r2 := MakeLine(2, Event("c"), r1.hash);
    var r3 := MakeLine(3, Event("d"), r2.hash);
    var whole := [r0, r1, r2, r3];
    assert LinkedAt(whole, Genesis, 0) && LinkedAt(whole, Genesis, 1) && LinkedAt(whole, Genesis, 2)
           && LinkedAt(whole, Genesis, 3);
    var bundle := ExportPrefix(whole, 2, Some(key));
    ExportVerifies(whole, Genesis, 3, Some(key));
    assert bundle.entries == [r0, r1, r2];
    var damaged := [r0, r0, r2, r3];
    RecordsOfAsLines(damaged);
    var lines := AsLines(damaged);
    LinkedPrefix(whole, 3, Genesis);
    assert bundle.entries == whole[..3];
    HashAtLinked(bundle.entries, Genesis, 0);
    HashAtLinked(bundle.entries, Genesis, 2);
    CutOfRepeated(r0, r2, r3);
    forall i | 0 <= i < 3
      ensures HashAt(bundle.entries, Some([r0, r0, r2][i].seqNo)) == Some([r0, r0, r2][i].hash)
    {
    }
    SameRecordsNoDifference([r0, r0, r2], bundle.entries);
    assert PlanOf(lines, NoAnchor, bundle, sha).Ok?;
    assert bundle.entries[1] != damaged[1];
  }

  lemma CutOfRepeated(r0: Record, r2: Record, r3: Record)
    requires r0.seqNo == 0 && r2.seqNo == 2 && r3.seqNo == 3
    ensures UpTo([r0, r0, r2, r3], 2) == [r0, r0, r2]
    ensures From([r0, r0, r2, r3], 3) == [r3]
  {
    assert [r3][1..] == [];
    assert UpTo([r3], 2) == [] && From([r3], 3) == [r3];
    assert [r2, r3][1..] == [r3];
    assert UpTo([r2, r3], 2) == [r2] && From([r2, r3], 3) == [r3];
    assert [r0, r2, r3][1..] == [r2, r3];
    assert UpTo([r0, r2, r3], 2) == [r0, r2] && From([r0, r2, r3], 3) == [r3];
    assert [r0, r0, r2, r3][1..] == [r0, r2, r3];
  }

  // ------------------------------------------------ what the count check is worth

  predicate SeqsDistinct(recs: seq<Record>) {
    forall i, j | 0 <= i < j < |recs| :: recs[i].seqNo != recs[j].seqNo
  }

  ghost function Seqs(recs: seq<Record>): set<int> {
    set i | 0 <= i < |recs| :: recs[i].seqNo
  }

  lemma SeqsSnoc(recs: seq<Record>)
    requires recs != []
    ensures var n := |recs| - 1;
            && Seqs(recs) == Seqs(recs[..n]) + {recs[n].seqNo}
            && (SeqsDistinct(recs) <==> SeqsDistinct(recs[..n]) && recs[n].seqNo !in Seqs(recs[..n]))
  {
    var n := |recs| - 1;
    if recs[n].seqNo in Seqs(recs[..n]) {
      var i :| 0 <= i < n && recs[..n][i].seqNo == recs[n].seqNo;
      assert recs[i].seqNo == recs[n].seqNo;
    } else {
      forall i | 0 <= i < n ensures recs[i].seqNo != recs[n].seqNo {
        assert recs[..n][i].seqNo in Seqs(recs[..n]);
      }
    }
    if SeqsDistinct(recs[..n]) {
      forall i, j | 0 <= i < j < n ensures recs[i].seqNo != recs[j].seqNo {
        assert recs[..n][i].seqNo != recs[..n][j].seqNo;
      }
    }
  }

  lemma {:induction false} SeqsSize(recs: seq<Record>)
    ensures |Seqs(recs)| <= |recs|
    ensures |Seqs(recs)| == |recs| <==> SeqsDistinct(recs)
  {
    if recs != [] {
      SeqsSize(recs[..|recs| - 1]);
      SeqsSnoc(recs);
    }
  }

  /** The records a plan of bundle `b` covers. */
  function Covered(lines: seq<Line>, bundle: Bundle): seq<Record>
    requires VerifyBundle(bundle).Ok? && VerifyBundle(bundle).value.last.Some?
  {
    UpTo(Records(lines), VerifyBundle(bundle).value.last.value)
  }

  /** Every record of the chain is in the archive, and there are as many of the one as of the other. */
  predicate ArchivedAll(covered: seq<Record>, entries: seq<Record>) {
    && |covered| == |entries|
    && FirstDifference(covered, entries) == None
  }

  predicate ChainHolds(covered: seq<Record>, entries: seq<Record>) {
    forall j | 0 <= j < |entries| :: HashAt(covered, Some(entries[j].seqNo)) == Some(entries[j].hash)
  }

  lemma LinkedSeqsDistinct(entries: seq<Record>, q: Hash)
    requires Linked(entries, q, None)
    ensures SeqsDistinct(entries)
  {
    forall i, j | 0 <= i < j < |entries| ensures entries[i].seqNo != entries[j].seqNo {
      assert LinkedAt(entries, q, i) && LinkedAt(entries, q, j);
    }
  }

  lemma CoveredSeqsArchived(covered: seq<Record>, entries: seq<Record>)
    requires ArchivedAll(covered, entries)
    ensures Seqs(covered) <= Seqs(entries)
  {
    forall s | s in Seqs(covered) ensures s in Seqs(entries) {
      var i :| 0 <= i < |covered| && covered[i].seqNo == s;
      NoDifference(covered, entries, i);
      HashAtIsAnEntry(entries, s);
    }
  }

  lemma HeldAt(covered: seq<Record>, entries: seq<Record>, q: Hash, j: nat)
    requires ArchivedAll(covered, entries) && Linked(entries, q, None) && j < |entries|
    requires entries[j].seqNo in Seqs(covered)
    ensures HashAt(covered, Some(entries[j].seqNo)) == Some(entries[j].hash)
  {
    var i :| 0 <= i < |covered| && covered[i].seqNo == entries[j].seqNo;
    HashAtExists(covered, i);
    HashAtIsAnEntry(covered, entries[j].seqNo);
    var m :| 0 <= m < |covered| && covered[m].seqNo == entries[j].seqNo
             && covered[m].hash == HashAt(covered, Some(entries[j].seqNo)).value;
    NoDifference(covered, entries, m);
    assert LinkedAt(entries, q, j);
    HashAtLinked(entries, q, entries[j].seqNo);
  }

  lemma CoverageIff(covered: seq<Record>, entries: seq<Record>, q: Hash)
    requires ArchivedAll(covered, entries) && Linked(entries, q, None)
    ensures SeqsDistinct(covered) <==> ChainHolds(covered, entries)
  {
    LinkedSeqsDistinct(entries, q);
    SeqsSize(covered);
    SeqsSize(entries);
    CoveredSeqsArchived(covered, entries);
    if SeqsDistinct(covered) {
      Sets.SubsetOfSameSize(Seqs(covered), Seqs(entries));
      forall j | 0 <= j < |entries| ensures HashAt(covered, Some(entries[j].seqNo)) == Some(entries[j].hash) {
        assert entries[j].seqNo in Seqs(entries);
        HeldAt(covered, entries, q, j);
      }
    }
    if ChainHolds(covered, entries) {
      forall s | s in Seqs(entries) ensures s in Seqs(covered) {
        var j :| 0 <= j < |entries| && entries[j].seqNo == s;
        HashAtIsAnEntry(covered, s);
      }
      assert Seqs(covered) == Seqs(entries);
    }
  }

  /** Once a plan is made, every archived (seq, hash) is in the chain exactly when no seq is
      written twice in what the plan covers. */
  lemma CoverageExactIffNoRepeats(lines: seq<Line>, anchor: AnchorFile, bundle: Bundle, sha: string)
    requires PlanOf(lines, anchor, bundle, sha).Ok?
    ensures SeqsDistinct(Covered(lines, bundle)) <==> ChainHolds(Covered(lines, bundle), bundle.entries)
  {
    VerifiedBundleIsLinked(bundle);
    var q :| Linked(bundle.entries, q, None);
    CoverageIff(Covered(lines, bundle), bundle.entries, q);
  }

  lemma {:induction false} HashAtExists(recs: seq<Record>, i: nat)
    requires i < |recs|
    ensures HashAt(recs, Some(recs[i].seqNo)).Some?
  {
    var n := |recs| - 1;
    if recs[n].seqNo != recs[i].seqNo {
      assert recs[..n][i] == recs[i];
      HashAtExists(recs[..n], i);
    }
  }
}
