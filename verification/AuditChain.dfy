/**
 The tamper-evident audit chain: records, hash links and the incremental verifier
 (modules/core/audit_chain.py, `ChainVerifier`).

 SHA-256 is modelled symbolically: a digest is a term naming exactly what was hashed, so
 two digests are equal only when they hash the same triple, and a string that is no digest
 of anything is `Foreign`.
 */
module AuditChain {
  import opened Wrappers

  datatype Hash =
    | Genesis                                      // the empty string
    | Digest(seqNo: int, entry: Entry, prev: Hash)
    | Foreign(text: string)

  datatype Entry =
    | Event(body: string)
    | Archive(first: int, last: int, count: int, head: Hash, bundleSha: string)

  datatype Record = Record(seqNo: int, entry: Entry, prevHash: Hash, hash: Hash)

  /** A line of the chain file: a record, or text that does not parse as one. */
  datatype Line = Rec(rec: Record) | Garbage

  /** The chain file, blank lines dropped. `terminated` says the last line ends in a newline. */
  datatype ChainFile = ChainFile(lines: seq<Line>, terminated: bool)

  function MakeLine(seqNo: int, entry: Entry, prev: Hash): Record {
    Record(seqNo, entry, prev, Digest(seqNo, entry, prev))
  }

  /** The records a best-effort reader sees: lines that do not parse are skipped. */
  function Records(lines: seq<Line>): seq<Record> {
    if lines == [] then []
    else if lines[0].Rec? then [lines[0].rec] + Records(lines[1..])
    else Records(lines[1..])
  }

  predicate AllParse(lines: seq<Line>) {
    forall i | 0 <= i < |lines| :: lines[i].Rec?
  }

  function AsLines(recs: seq<Record>): (lines: seq<Line>)
    ensures |lines| == |recs| && AllParse(lines)
    ensures forall i | 0 <= i < |recs| :: lines[i] == Rec(recs[i])
  {
    seq(|recs|, i requires 0 <= i < |recs| => Rec(recs[i]))
  }

  lemma {:induction false} RecordsConcat(a: seq<Line>, b: seq<Line>)
    ensures Records(a + b) == Records(a) + Records(b)
  {
    if a == [] {
      assert a + b == b;
    } else {
      assert (a + b)[1..] == a[1..] + b;
      RecordsConcat(a[1..], b);
    }
  }

  lemma {:induction false} RecordsOfAsLines(recs: seq<Record>)
    ensures Records(AsLines(recs)) == recs
  {
    if recs != [] {
      assert AsLines(recs)[1..] == AsLines(recs[1..]);
      RecordsOfAsLines(recs[1..]);
    }
  }

  lemma {:induction false} AllParseIsAsLines(lines: seq<Line>)
    requires AllParse(lines)
    ensures lines == AsLines(Records(lines)) && |Records(lines)| == |lines|
  {
    if lines != [] {
      AllParseIsAsLines(lines[1..]);
    }
  }

  // ---------------------------------------------------------------- links

  /** The hash the next record must continue from. */
  function Head(recs: seq<Record>, prev: Hash): Hash {
    if recs == [] then prev else recs[|recs| - 1].hash
  }

  /** Record `i` has the next seq, continues the hash before it and carries its own digest. */
  predicate LinkedAt(recs: seq<Record>, prev: Hash, i: nat)
    requires i < |recs|
  {
    && recs[i].seqNo == recs[0].seqNo + i
    && recs[i].prevHash == Head(recs[..i], prev)
    && recs[i].hash == Digest(recs[i].seqNo, recs[i].entry, recs[i].prevHash)
  }

  /** A gap-free, hash-linked run of records that continues from `prev`, and starts at
      `start` when a start is demanded. */
  predicate Linked(recs: seq<Record>, prev: Hash, start: Option<int>) {
    && (start.Some? && recs != [] ==> recs[0].seqNo == start.value)
    && forall i: nat | i < |recs| :: LinkedAt(recs, prev, i)
  }

  lemma LinkedSplit(a: seq<Record>, b: seq<Record>, prev: Hash, start: Option<int>)
    requires a != []
    ensures Linked(a + b, prev, start) <==>
            Linked(a, prev, start) && Linked(b, Head(a, prev), Some(a[0].seqNo + |a|))
  {
    var c := a + b;
    forall i: nat | i < |a| ensures LinkedAt(c, prev, i) <==> LinkedAt(a, prev, i) {
      assert c[..i] == a[..i];
    }
    forall i: nat | i < |b|
      ensures c[|a| + i].prevHash == Head(c[..|a| + i], prev) <==>
              b[i].prevHash == Head(b[..i], Head(a, prev))
    {
      assert c[..|a| + i] == a + b[..i];
    }
    if Linked(c, prev, start) {
      forall i: nat | i < |b| ensures LinkedAt(b, Head(a, prev), i) {
        assert LinkedAt(c, prev, |a| + i) && LinkedAt(c, prev, |a|);
      }
      if b != [] { assert LinkedAt(c, prev, |a|); }
      forall i: nat | i < |a| ensures LinkedAt(a, prev, i) { assert LinkedAt(c, prev, i); }
    }
    if Linked(a, prev, start) && Linked(b, Head(a, prev), Some(a[0].seqNo + |a|)) {
      forall i: nat | i < |c| ensures LinkedAt(c, prev, i) {
        if i < |a| {
          assert LinkedAt(a, prev, i);
        } else {
          assert LinkedAt(b, Head(a, prev), i - |a|);
        }
      }
    }
  }

  /** The chain hash commits to the whole prefix: two linked runs with the same head hash
      and the same length hold the same records, entry by entry. */
  lemma {:induction false} HeadCommitsToHistory(a: seq<Record>, b: seq<Record>, prevA: Hash, prevB: Hash)
    requires Linked(a, prevA, None) && Linked(b, prevB, None)
    requires |a| == |b| && Head(a, prevA) == Head(b, prevB)
    ensures a == b && (a != [] ==> prevA == prevB)
  {
    if a != [] {
      var n := |a| - 1;
      assert LinkedAt(a, prevA, n) && LinkedAt(b, prevB, n);
      assert a[n] == b[n];
      LinkedPrefix(a, n, prevA);
      LinkedPrefix(b, n, prevB);
      HeadCommitsToHistory(a[..n], b[..n], prevA, prevB);
      assert a == a[..n] + [a[n]] && b == b[..n] + [b[n]];
    }
  }

  lemma LinkedPrefix(recs: seq<Record>, n: nat, prev: Hash)
    requires n <= |recs| && Linked(recs, prev, None)
    ensures Linked(recs[..n], prev, None)
  {
    forall i: nat | i < n ensures LinkedAt(recs[..n], prev, i) {
      assert LinkedAt(recs, prev, i);
      assert recs[..n][..i] == recs[..i];
    }
  }

  // ------------------------------------------------------------- verifier

  datatype Fault =
    | AnchorMismatch(expected: int, found: int)
    | RepeatedSeq(expected: int, found: int)
    | MissingEntries(expected: int, found: int)
    | BrokenLink(at: int)
    | HashMismatch(at: int)
    | Unparseable(position: nat)
    | TornTail
    | AnchorUnreadable
    | EmptyUnderAnchor
    | ForeignStart(at: int)
    | AnchorDisagrees(at: int)

  datatype Verdict =
    | Intact(count: nat, first: Option<int>, last: Option<int>, head: Hash)
    | Broken(fault: Fault)

  /** What a fault found at `rec`, after the accepted `fed`, says about the file. */
  predicate FaultExplained(fault: Fault, fed: seq<Record>, rec: Record, prev: Hash, start: Option<int>) {
    var expected := if fed != [] then Some(fed[0].seqNo + |fed|) else start;
    match fault
    case AnchorMismatch(e, f) => fed == [] && expected == Some(e) && rec.seqNo == f && f != e
    case RepeatedSeq(e, f) => fed != [] && expected == Some(e) && rec.seqNo == f && f < e
    case MissingEntries(e, f) => fed != [] && expected == Some(e) && rec.seqNo == f && f > e
    case BrokenLink(at) => rec.seqNo == at && rec.prevHash != Head(fed, prev)
    case HashMismatch(at) =>
      rec.seqNo == at && rec.prevHash == Head(fed, prev) &&
      rec.hash != Digest(rec.seqNo, rec.entry, rec.prevHash)
    case _ => false
  }

  /** The running state of a verification: one record at a time, whatever the file's size. */
  class ChainVerifier {
    const anchorPrevHash: Hash
    const anchorSeq: Option<int>
    const rememberHashAt: Option<int>
    var prevHash: Hash
    var expectedSeq: Option<int>
    var firstSeq: Option<int>
    var count: nat
    var seen: bool
    var rememberedHash: Option<Hash>
    ghost var fed: seq<Record>   // every record accepted so far

    ghost predicate Valid()
      reads this
    {
      && Linked(fed, anchorPrevHash, anchorSeq)
      && count == |fed|
      && prevHash == Head(fed, anchorPrevHash)
      && (fed == [] ==> !seen && expectedSeq == anchorSeq && firstSeq == None)
      && (fed != [] ==> seen && expectedSeq == Some(fed[0].seqNo + |fed|) && firstSeq == Some(fed[0].seqNo))
      && rememberedHash == HashAt(fed, rememberHashAt)
    }

    constructor (anchorPrevHash: Hash, anchorSeq: Option<int>, rememberHashAt: Option<int>)
      ensures Valid() && fed == []
      ensures this.anchorPrevHash == anchorPrevHash && this.anchorSeq == anchorSeq
      ensures this.rememberHashAt == rememberHashAt
    {
      this.anchorPrevHash := anchorPrevHash;
      this.anchorSeq := anchorSeq;
      this.rememberHashAt := rememberHashAt;
      prevHash, expectedSeq, firstSeq := anchorPrevHash, anchorSeq, None;
      count, seen, rememberedHash := 0, false, None;
      fed := [];
    }

    /** Accepts `rec` exactly when it continues the run, and otherwise names the fault. */
    method Feed(rec: Record) returns (fault: Option<Fault>)
      requires Valid()
      modifies this
      ensures fault == None <==> Linked(old(fed) + [rec], anchorPrevHash, anchorSeq)
      ensures fault == None ==> Valid() && fed == old(fed) + [rec]
      ensures fault.Some? ==> FaultExplained(fault.value, old(fed), rec, anchorPrevHash, anchorSeq)
    {
      LinkedSnoc(fed, rec, anchorPrevHash, anchorSeq);
      var firstRecord := !seen;
      if firstRecord {
        seen := true;
        firstSeq := Some(rec.seqNo);
      }
      if expectedSeq == None {
        expectedSeq := Some(rec.seqNo);
      } else if rec.seqNo != expectedSeq.value {
        if firstRecord {
          return Some(AnchorMismatch(expectedSeq.value, rec.seqNo));
        }
        if rec.seqNo < expectedSeq.value {
          return Some(RepeatedSeq(expectedSeq.value, rec.seqNo));
        }
        return Some(MissingEntries(expectedSeq.value, rec.seqNo));
      }
      if rec.prevHash != prevHash {
        return Some(BrokenLink(rec.seqNo));
      }
      if Digest(rec.seqNo, rec.entry, rec.prevHash) != rec.hash {
        return Some(HashMismatch(rec.seqNo));
      }
      HashAtSnoc(fed, rec, rememberHashAt);
      if rememberHashAt == Some(rec.seqNo) {
        rememberedHash := Some(rec.hash);
      }
      prevHash := rec.hash;
      expectedSeq := Some(expectedSeq.value + 1);
      count := count + 1;
      fed := fed + [rec];
      return None;
    }

    method Finish() returns (verdict: Verdict)
      requires Valid()
      ensures verdict == VerdictOf(fed, anchorPrevHash)
    {
      if !seen {
        return Intact(0, None, None, anchorPrevHash);
      }
      return Intact(count, firstSeq, Some(expectedSeq.value - 1), prevHash);
    }
  }

  /** The hash of the last record carrying seq `at`. */
  function HashAt(recs: seq<Record>, at: Option<int>): Option<Hash> {
    if recs == [] || at == None then None
    else if recs[|recs| - 1].seqNo == at.value then Some(recs[|recs| - 1].hash)
    else HashAt(recs[..|recs| - 1], at)
  }

  lemma HashAtSnoc(recs: seq<Record>, rec: Record, at: Option<int>)
    ensures HashAt(recs + [rec], at) == if at == Some(rec.seqNo) then Some(rec.hash) else HashAt(recs, at)
  {
    assert (recs + [rec])[..|recs|] == recs;
  }

  /** In a gap-free run the record at a seq is found by position. */
  lemma {:induction false} HashAtLinked(recs: seq<Record>, prev: Hash, at: int)
    requires Linked(recs, prev, None)
    ensures recs != [] && recs[0].seqNo <= at < recs[0].seqNo + |recs| ==>
              HashAt(recs, Some(at)) == Some(recs[at - recs[0].seqNo].hash)
    ensures recs == [] || at < recs[0].seqNo || recs[0].seqNo + |recs| <= at ==>
              HashAt(recs, Some(at)) == None
  {
    if recs != [] {
      var n := |recs| - 1;
      assert LinkedAt(recs, prev, n);
      LinkedPrefix(recs, n, prev);
      HashAtLinked(recs[..n], prev, at);
    }
  }

  lemma LinkedSnoc(recs: seq<Record>, rec: Record, prev: Hash, start: Option<int>)
    ensures Linked(recs + [rec], prev, start) <==>
            && Linked(recs, prev, start)
            && (recs != [] ==> rec.seqNo == recs[0].seqNo + |recs|)
            && (recs == [] && start.Some? ==> rec.seqNo == start.value)
            && rec.prevHash == Head(recs, prev)
            && rec.hash == Digest(rec.seqNo, rec.entry, rec.prevHash)
  {
    if recs != [] {
      LinkedSplit(recs, [rec], prev, start);
      assert LinkedAt([rec], Head(recs, prev), 0) <==>
             rec.prevHash == Head(recs, prev) && rec.hash == Digest(rec.seqNo, rec.entry, rec.prevHash);
    } else {
      assert recs + [rec] == [rec];
      assert LinkedAt([rec], prev, 0) <==>
             rec.prevHash == prev && rec.hash == Digest(rec.seqNo, rec.entry, rec.prevHash);
    }
  }

  function VerdictOf(recs: seq<Record>, prev: Hash): Verdict {
    if recs == [] then Intact(0, None, None, prev)
    else Intact(|recs|, Some(recs[0].seqNo), Some(recs[0].seqNo + |recs| - 1), Head(recs, prev))
  }

  /** The whole list verifies exactly when it is one linked run, and the reported fault is the
      earliest: everything before it verifies and the record it names does not. */
  method VerifyRecords(recs: seq<Record>, prev: Hash, start: Option<int>) returns (verdict: Verdict)
    ensures verdict.Intact? <==> Linked(recs, prev, start)
    ensures verdict.Intact? ==> verdict == VerdictOf(recs, prev)
    ensures verdict.Broken? ==>
              exists k: nat :: k < |recs| && Linked(recs[..k], prev, start)
                               && !Linked(recs[..k + 1], prev, start)
                               && FaultExplained(verdict.fault, recs[..k], recs[k], prev, start)
  {
    var verifier := new ChainVerifier(prev, start, None);
    for i := 0 to |recs|
      invariant verifier.Valid() && verifier.fed == recs[..i]
      invariant verifier.anchorPrevHash == prev && verifier.anchorSeq == start
      invariant fresh(verifier)
    {
      var fault := verifier.Feed(recs[i]);
      assert recs[..i] + [recs[i]] == recs[..i + 1];
      if fault.Some? {
        LinkedMonotone(recs, i + 1, prev, start);
        return Broken(fault.value);
      }
    }
    assert recs[..|recs|] == recs;
    verdict := verifier.Finish();
  }

  lemma LinkedMonotone(recs: seq<Record>, n: nat, prev: Hash, start: Option<int>)
    requires n <= |recs|
    ensures Linked(recs, prev, start) ==> Linked(recs[..n], prev, start)
  {
    if Linked(recs, prev, start) {
      LinkedPrefix(recs, n, prev);
    }
  }
}
