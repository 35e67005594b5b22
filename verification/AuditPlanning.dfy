/**
 Exactly when a prune is planned and what each refusal says, for any chain file at all, damaged or not
 (modules/core/audit_prune.py, `plan_prune`).
 */
module AuditPlanning {
  import opened Wrappers
  import opened AuditChain
  import opened AuditAnchor
  import opened AuditBundle
  import opened AuditPrune

  /** The record is archived: under its seq the archive has its hash. */
  predicate InArchive(rec: Record, entries: seq<Record>) {
    exists j: nat :: j < |entries| && entries[j].seqNo == rec.seqNo && entries[j].hash == rec.hash
  }

  /** The places of the chain at or below `last`. */
  function Covered(recs: seq<Record>, last: int): set<nat> {
    set i: nat | i < |recs| && recs[i].seqNo <= last
  }

  /** Place `i` is the first one beyond `last`. */
  predicate FirstBeyond(recs: seq<Record>, last: int, i: nat) {
    i < |recs| && recs[i].seqNo > last && forall j | 0 <= j < i :: recs[j].seqNo <= last
  }

  ghost predicate Has(recs: seq<Record>, at: int) {
    exists i: nat :: i < |recs| && recs[i].seqNo == at
  }

  predicate AllArchived(recs: seq<Record>, last: int, entries: seq<Record>) {
    forall i: nat | i < |recs| && recs[i].seqNo <= last :: InArchive(recs[i], entries)
  }

  /** What stands behind `last` goes on with the next seq. */
  ghost predicate GoesOn(recs: seq<Record>, last: int) {
    exists i: nat :: FirstBeyond(recs, last, i) && recs[i].seqNo == last + 1
  }

  ghost predicate Signed(bundle: Bundle) {
    exists k :: SignedAs(bundle, Some(k))
  }

  /** The seq of the last archived record. */
  function LastOf(bundle: Bundle): int
    requires bundle.entries != []
  {
    bundle.entries[|bundle.entries| - 1].seqNo
  }

  /** What a prune needs: a verified bundle that somebody signed and that holds something, a chain that starts
      where it does, every covered record in it, as many of them as it holds, its last one still in the chain,
      a live record behind it that comes next, and no anchor that cannot be read. */
  ghost predicate Plannable(recs: seq<Record>, anchor: AnchorFile, bundle: Bundle) {
    && VerifyBundle(bundle).Ok? && Signed(bundle)
    && bundle.entries != [] && recs != [] && recs[0].seqNo == bundle.entries[0].seqNo
    && AllArchived(recs, LastOf(bundle), bundle.entries)
    && |Covered(recs, LastOf(bundle))| == |bundle.entries|
    && Has(recs, LastOf(bundle))
    && GoesOn(recs, LastOf(bundle))
    && ReadAnchor(anchor).Ok?
  }

  /** What each refusal says. */
  ghost predicate Says(refusal: Refusal, recs: seq<Record>, anchor: AnchorFile, bundle: Bundle) {
    var entries := bundle.entries;
    match refusal
    case DoesNotVerify(fault) => VerifyBundle(bundle) == Err(fault)
    case Unsigned => bundle.signature == None
    case EmptyBundle => entries == []
    case NoChain => recs == []
    case NotAPrefix(ours, theirs) =>
      recs != [] && entries != [] && ours == entries[0].seqNo && theirs == recs[0].seqNo && ours != theirs
    case ArchiveIncomplete(at) => entries != [] && at <= LastOf(bundle) && Has(recs, at) && !Has(entries, at)
    case Disagree(at) =>
      && entries != [] && at <= LastOf(bundle) && Has(entries, at)
      && exists i: nat :: i < |recs| && recs[i].seqNo == at && !InArchive(recs[i], entries)
    case CountMismatch(ours, theirs) =>
      entries != [] && ours == |entries| && theirs == |Covered(recs, LastOf(bundle))| && ours != theirs
    case LastMissing(last) => entries != [] && last == LastOf(bundle) && !Has(recs, last)
    case WouldEmptyChain(last) =>
      entries != [] && last == LastOf(bundle) && forall i: nat | i < |recs| :: recs[i].seqNo <= last
    case ChainJumps(last, next) =>
      && entries != [] && last == LastOf(bundle) && next != last + 1
      && exists i: nat :: FirstBeyond(recs, last, i) && recs[i].seqNo == next
    case AnchorNotReadable => ReadAnchor(anchor).Err?
  }

  // --------------------------------------------------------- the filters

  lemma {:induction false} UpToMembers(recs: seq<Record>, last: int, rec: Record)
    ensures rec in UpTo(recs, last) <==> rec in recs && rec.seqNo <= last
  {
    if recs != [] {
      UpToMembers(recs[1..], last, rec);
      assert recs == [recs[0]] + recs[1..];
    }
  }

  lemma {:induction false} UpToCount(recs: seq<Record>, last: int)
    ensures |UpTo(recs, last)| == |Covered(recs, last)|
  {
    if recs == [] {
      assert Covered(recs, last) == {};
    } else {
      var n := |recs| - 1;
      UpToCount(recs[..n], last);
      UpToSnoc(recs[..n], recs[n], last);
      assert recs[..n] + [recs[n]] == recs;
      CoveredSnoc(recs, n, last);
    }
  }

  lemma CoveredSnoc(recs: seq<Record>, n: nat, last: int)
    requires |recs| == n + 1
    ensures |Covered(recs, last)| == |Covered(recs[..n], last)| + (if recs[n].seqNo <= last then 1 else 0)
  {
    var before := Covered(recs[..n], last);
    assert Covered(recs, last) == if recs[n].seqNo <= last then before + {n} else before;
  }

  lemma {:induction false} FromNone(recs: seq<Record>, last: int)
    ensures From(recs, last + 1) == [] <==> forall i: nat | i < |recs| :: recs[i].seqNo <= last
  {
    if recs != [] {
      FromNone(recs[1..], last);
      assert forall i: nat | i < |recs| - 1 :: recs[1..][i] == recs[i + 1];
      assert recs[0].seqNo <= last ==> From(recs, last + 1) == From(recs[1..], last + 1);
    }
  }

  lemma {:induction false} FromFirst(recs: seq<Record>, last: int) returns (i: nat)
    requires From(recs, last + 1) != []
    ensures FirstBeyond(recs, last, i) && recs[i] == From(recs, last + 1)[0]
  {
    if recs[0].seqNo > last {
      i := 0;
    } else {
      i := FromFirst(recs[1..], last);
      assert forall j | 0 <= j < i :: recs[j + 1] == recs[1..][j];
      i := i + 1;
    }
  }

  lemma OneFirstBeyond(recs: seq<Record>, last: int, i: nat, j: nat)
    requires FirstBeyond(recs, last, i) && FirstBeyond(recs, last, j)
    ensures i == j
  {
  }

  lemma {:induction false} HashAtIff(recs: seq<Record>, at: int)
    ensures HashAt(recs, Some(at)).Some? <==> Has(recs, at)
    ensures HashAt(recs, Some(at)).Some? ==>
              exists i: nat :: i < |recs| && recs[i].seqNo == at && recs[i].hash == HashAt(recs, Some(at)).value
  {
    if recs != [] {
      var n := |recs| - 1;
      HashAtIff(recs[..n], at);
      if recs[n].seqNo != at {
        if i: nat :| i < |recs| && recs[i].seqNo == at {
          assert recs[..n][i] == recs[i];
        }
        if i: nat :| i < n && recs[..n][i].seqNo == at && recs[..n][i].hash == HashAt(recs, Some(at)).value {
          assert recs[i].seqNo == at && recs[i].hash == HashAt(recs, Some(at)).value;
        }
      }
    }
  }

  /** In a linked run one record carries a seq, and its hash is the one found there. */
  lemma ArchivedIff(entries: seq<Record>, prev: Hash, rec: Record)
    requires Linked(entries, prev, None)
    ensures InArchive(rec, entries) <==> HashAt(entries, Some(rec.seqNo)) == Some(rec.hash)
  {
    HashAtLinked(entries, prev, rec.seqNo);
    if InArchive(rec, entries) {
      var j: nat :| j < |entries| && entries[j].seqNo == rec.seqNo && entries[j].hash == rec.hash;
      assert LinkedAt(entries, prev, j);
    }
    if HashAt(entries, Some(rec.seqNo)) == Some(rec.hash) {
      var j := rec.seqNo - entries[0].seqNo;
      assert LinkedAt(entries, prev, j);
    }
  }

  lemma NoDifferenceIff(recs: seq<Record>, last: int, entries: seq<Record>, prev: Hash)
    requires Linked(entries, prev, None)
    ensures FirstDifference(UpTo(recs, last), entries) == None <==> AllArchived(recs, last, entries)
  {
    var covered := UpTo(recs, last);
    if FirstDifference(covered, entries) == None {
      forall i: nat | i < |recs| && recs[i].seqNo <= last ensures InArchive(recs[i], entries) {
        UpToMembers(recs, last, recs[i]);
        var k :| 0 <= k < |covered| && covered[k] == recs[i];
        NoDifference(covered, entries, k);
        ArchivedIff(entries, prev, recs[i]);
      }
    }
    if AllArchived(recs, last, entries) {
      forall k | 0 <= k < |covered| ensures HashAt(entries, Some(covered[k].seqNo)) == Some(covered[k].hash) {
        UpToMembers(recs, last, covered[k]);
        var i: nat :| i < |recs| && recs[i] == covered[k];
        ArchivedIff(entries, prev, recs[i]);
      }
      SameRecordsNoDifference(covered, entries);
    }
  }

  lemma {:induction false} DifferenceSays(covered: seq<Record>, entries: seq<Record>) returns (k: nat)
    requires FirstDifference(covered, entries).Some?
    ensures k < |covered|
    ensures var expected := HashAt(entries, Some(covered[k].seqNo));
            FirstDifference(covered, entries) ==
            if expected == None then Some(ArchiveIncomplete(covered[k].seqNo)) else Some(Disagree(covered[k].seqNo))
    ensures HashAt(entries, Some(covered[k].seqNo)) != Some(covered[k].hash)
  {
    if HashAt(entries, Some(covered[0].seqNo)) == Some(covered[0].hash) {
      k := DifferenceSays(covered[1..], entries);
      k := k + 1;
    } else {
      k := 0;
    }
  }

  lemma CoveredHas(recs: seq<Record>, last: int)
    ensures HashAt(UpTo(recs, last), Some(last)).Some? <==> Has(recs, last)
    ensures HashAt(UpTo(recs, last), Some(last)).Some? ==>
              exists i: nat :: i < |recs| && recs[i].seqNo == last
                               && recs[i].hash == HashAt(UpTo(recs, last), Some(last)).value
  {
    var covered := UpTo(recs, last);
    HashAtIff(covered, last);
    if k: nat :| k < |covered| && covered[k].seqNo == last && covered[k].hash == HashAt(covered, Some(last)).value {
      UpToMembers(recs, last, covered[k]);
    }
    if Has(recs, last) {
      var i: nat :| i < |recs| && recs[i].seqNo == last;
      UpToMembers(recs, last, recs[i]);
      var k: nat :| k < |covered| && covered[k] == recs[i];
      assert Has(covered, last);
    }
  }

  // ------------------------------------------------------------ the plan

  /** What a bundle that passes gives the plan. */
  lemma VerdictGives(bundle: Bundle) returns (prev: Hash)
    requires VerifyBundle(bundle).Ok?
    ensures Linked(bundle.entries, prev, None)
    ensures var v := VerifyBundle(bundle).value;
            && v.count == |bundle.entries| && (v.signed <==> bundle.signature.Some?)
            && (bundle.entries != [] ==> v.first == Some(bundle.entries[0].seqNo) && v.last == Some(LastOf(bundle)))
  {
    var m := bundle.manifest;
    prev := if m.formatVersion == ANCHORED_FORMAT then m.anchorPrevHash.value else Genesis;
    if bundle.entries != [] { assert LinkedAt(bundle.entries, prev, |bundle.entries| - 1); }
  }

  lemma SignedIff(bundle: Bundle)
    requires VerifyBundle(bundle).Ok?
    ensures VerifyBundle(bundle).value.signed <==> Signed(bundle)
  {
    VerifiesIff(bundle);
    var key :| SignedAs(bundle, key);
    if key.Some? { assert SignedAs(bundle, Some(key.value)); }
  }

  lemma NextMeans(recs: seq<Record>, last: int)
    ensures (From(recs, last + 1) != [] && From(recs, last + 1)[0].seqNo == last + 1) <==> GoesOn(recs, last)
  {
    FromNone(recs, last);
    if From(recs, last + 1) != [] {
      var i := FromFirst(recs, last);
      forall j: nat | FirstBeyond(recs, last, j) ensures j == i {
        OneFirstBeyond(recs, last, i, j);
      }
    }
  }

  /** The checks before the scan are passed. */
  predicate Starts(recs: seq<Record>, bundle: Bundle) {
    && VerifyBundle(bundle).Ok? && VerifyBundle(bundle).value.signed && bundle.entries != [] && recs != []
    && recs[0].seqNo == bundle.entries[0].seqNo
  }

  /** The checks of the scan and behind it. */
  predicate Scanned(recs: seq<Record>, anchor: AnchorFile, bundle: Bundle)
    requires bundle.entries != []
  {
    var covered, rest := UpTo(recs, LastOf(bundle)), From(recs, LastOf(bundle) + 1);
    && FirstDifference(covered, bundle.entries) == None && |covered| == |bundle.entries|
    && HashAt(covered, Some(LastOf(bundle))).Some?
    && rest != [] && rest[0].seqNo == LastOf(bundle) + 1 && ReadAnchor(anchor).Ok?
  }

  lemma PlannedIffScanned(lines: seq<Line>, anchor: AnchorFile, bundle: Bundle, sha: string)
    ensures PlanOf(lines, anchor, bundle, sha).Ok? <==>
            Starts(Records(lines), bundle) && Scanned(Records(lines), anchor, bundle)
  {
    if VerifyBundle(bundle).Ok? {
      var prev := VerdictGives(bundle);
    }
  }

  lemma ScannedIff(recs: seq<Record>, anchor: AnchorFile, bundle: Bundle)
    requires Starts(recs, bundle)
    ensures Scanned(recs, anchor, bundle) <==> Plannable(recs, anchor, bundle)
  {
    var prev := VerdictGives(bundle);
    var last := LastOf(bundle);
    SignedIff(bundle);
    NoDifferenceIff(recs, last, bundle.entries, prev);
    UpToCount(recs, last);
    CoveredHas(recs, last);
    NextMeans(recs, last);
  }

  /** A prune is planned exactly when everything it needs is there, whatever else the chain file holds. */
  lemma PlanIff(lines: seq<Line>, anchor: AnchorFile, bundle: Bundle, sha: string)
    ensures PlanOf(lines, anchor, bundle, sha).Ok? <==> Plannable(Records(lines), anchor, bundle)
  {
    PlannedIffScanned(lines, anchor, bundle, sha);
    if VerifyBundle(bundle).Ok? { SignedIff(bundle); }
    if Starts(Records(lines), bundle) {
      ScannedIff(Records(lines), anchor, bundle);
    }
  }

  lemma LastHashIsArchived(recs: seq<Record>, bundle: Bundle, prev: Hash)
    requires bundle.entries != [] && Linked(bundle.entries, prev, None)
    requires AllArchived(recs, LastOf(bundle), bundle.entries)
    requires HashAt(UpTo(recs, LastOf(bundle)), Some(LastOf(bundle))).Some?
    ensures HashAt(UpTo(recs, LastOf(bundle)), Some(LastOf(bundle)))
            == Some(bundle.entries[|bundle.entries| - 1].hash)
  {
    var last := LastOf(bundle);
    CoveredHas(recs, last);
    var i: nat :| i < |recs| && recs[i].seqNo == last && recs[i].hash == HashAt(UpTo(recs, last), Some(last)).value;
    ArchivedIff(bundle.entries, prev, recs[i]);
    HashAtLinked(bundle.entries, prev, last);
    assert LinkedAt(bundle.entries, prev, |bundle.entries| - 1);
  }

  /** The plan continues behind the last archived record, from its hash, and remembers what the anchor file
      held. */
  lemma PlanSays(lines: seq<Line>, anchor: AnchorFile, bundle: Bundle, sha: string)
    requires PlanOf(lines, anchor, bundle, sha).Ok?
    ensures bundle.entries != []
    ensures var plan := PlanOf(lines, anchor, bundle, sha).value;
            var first, last := bundle.entries[0], bundle.entries[|bundle.entries| - 1];
            && plan.anchorSeq == last.seqNo + 1 && plan.prevHash == last.hash
            && plan.archivedFirst == first.seqNo && plan.archivedLast == last.seqNo
            && plan.archivedCount == |bundle.entries| && plan.bundleSha == sha
            && match anchor
               case Written(a) => plan.supersedes == Some(Superseded(a.body.anchorSeq, a.body.prevHash))
               case _ => anchor == NoAnchor && plan.supersedes == None
  {
    var prev := VerdictGives(bundle);
    NoDifferenceIff(Records(lines), LastOf(bundle), bundle.entries, prev);
    LastHashIsArchived(Records(lines), bundle, prev);
  }

  lemma EarlyRefusalSays(lines: seq<Line>, anchor: AnchorFile, bundle: Bundle, sha: string)
    requires !Starts(Records(lines), bundle)
    ensures PlanOf(lines, anchor, bundle, sha).Err?
    ensures Says(PlanOf(lines, anchor, bundle, sha).error, Records(lines), anchor, bundle)
  {
    if VerifyBundle(bundle).Ok? {
      var prev := VerdictGives(bundle);
    }
  }

  /** The scan found no difference, and the plan is refused all the same. */
  predicate RefusedLate(lines: seq<Line>, anchor: AnchorFile, bundle: Bundle, sha: string) {
    && Starts(Records(lines), bundle) && PlanOf(lines, anchor, bundle, sha).Err?
    && FirstDifference(UpTo(Records(lines), LastOf(bundle)), bundle.entries) == None
  }

  lemma LateRefusals(lines: seq<Line>, anchor: AnchorFile, bundle: Bundle, sha: string)
    requires RefusedLate(lines, anchor, bundle, sha)
    ensures var recs, last, n := Records(lines), LastOf(bundle), |bundle.entries|;
            var covered, rest := UpTo(recs, last), From(recs, last + 1);
            match PlanOf(lines, anchor, bundle, sha).error
            case CountMismatch(ours, theirs) => ours == n && theirs == |covered| && ours != theirs
            case LastMissing(at) => at == last && HashAt(covered, Some(last)) == None
            case WouldEmptyChain(at) => at == last && rest == []
            case ChainJumps(at, next) => at == last && rest != [] && rest[0].seqNo == next && next != last + 1
            case AnchorNotReadable => ReadAnchor(anchor).Err?
            case _ => false
  {
    var prev := VerdictGives(bundle);
  }

  lemma LateRefusalSays(lines: seq<Line>, anchor: AnchorFile, bundle: Bundle, sha: string)
    requires RefusedLate(lines, anchor, bundle, sha)
    ensures Says(PlanOf(lines, anchor, bundle, sha).error, Records(lines), anchor, bundle)
  {
    var recs, last := Records(lines), LastOf(bundle);
    LateRefusals(lines, anchor, bundle, sha);
    match PlanOf(lines, anchor, bundle, sha).error
    case CountMismatch(_, _) => UpToCount(recs, last);
    case LastMissing(_) => CoveredHas(recs, last);
    case WouldEmptyChain(_) => FromNone(recs, last);
    case ChainJumps(_, _) => var i := FromFirst(recs, last);
    case AnchorNotReadable =>
  }

  /** And a refusal says what is the matter. */
  lemma RefusalSays(lines: seq<Line>, anchor: AnchorFile, bundle: Bundle, sha: string)
    requires PlanOf(lines, anchor, bundle, sha).Err?
    ensures Says(PlanOf(lines, anchor, bundle, sha).error, Records(lines), anchor, bundle)
  {
    if !Starts(Records(lines), bundle) {
      EarlyRefusalSays(lines, anchor, bundle, sha);
    } else {
      var prev := VerdictGives(bundle);
      if FirstDifference(UpTo(Records(lines), LastOf(bundle)), bundle.entries).Some? {
        DifferenceIsSaid(Records(lines), bundle, prev, anchor);
      } else {
        LateRefusalSays(lines, anchor, bundle, sha);
      }
    }
  }

  lemma DifferenceIsSaid(recs: seq<Record>, bundle: Bundle, prev: Hash, anchor: AnchorFile)
    requires bundle.entries != [] && Linked(bundle.entries, prev, None)
    requires FirstDifference(UpTo(recs, LastOf(bundle)), bundle.entries).Some?
    ensures Says(FirstDifference(UpTo(recs, LastOf(bundle)), bundle.entries).value, recs, anchor, bundle)
  {
    var last := LastOf(bundle);
    var covered := UpTo(recs, last);
    var k := DifferenceSays(covered, bundle.entries);
    UpToMembers(recs, last, covered[k]);
    var i: nat :| i < |recs| && recs[i] == covered[k];
    HashAtIff(bundle.entries, covered[k].seqNo);
    ArchivedIff(bundle.entries, prev, recs[i]);
    assert Has(recs, recs[i].seqNo);
  }
}
