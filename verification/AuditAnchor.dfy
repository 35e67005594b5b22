/**
 The signed prune anchor and the verification of a chain that starts at one: the completed
 prune, and the interrupted one whose chain still holds the archived prefix
 (modules/core/audit_chain.py, `verify_chain` and `_verify_anchored_chain`).
 */
module AuditAnchor {
  import opened Wrappers
  import opened AuditChain

  datatype Superseded = Superseded(anchorSeq: int, prevHash: Hash)

  /** Everything an anchor's signature covers. */
  datatype AnchorBody = AnchorBody(
    anchorSeq: int, prevHash: Hash,
    archivedFirst: int, archivedLast: int, archivedCount: int,
    bundleSha: string, prunedAt: string, supersedes: Option<Superseded>)

  /** A signature names the key that made it and the message it covers. */
  datatype Signature<M> = Signature(key: string, message: M)

  datatype Anchor = Anchor(body: AnchorBody, signature: Option<Signature<AnchorBody>>)

  /** The anchor file: absent, not parseable as an anchor object, or holding one. */
  datatype AnchorFile = NoAnchor | Mangled | Written(anchor: Anchor)

  datatype AnchorError = AnchorReadError

  function ReadAnchor(file: AnchorFile): Result<Option<Anchor>, AnchorError> {
    match file
    case NoAnchor => Ok(None)
    case Mangled => Err(AnchorReadError)
    case Written(a) =>
      if a.body.anchorSeq < 1 || a.body.prevHash == Genesis then Err(AnchorReadError) else Ok(Some(a))
  }

  /** Only an absent file reads as no anchor, and only a usable anchor reads as one: one that is mangled,
      below seq 1 or without a hash is an error. */
  lemma ReadAnchorIff(file: AnchorFile)
    ensures ReadAnchor(file) == Ok(None) <==> file == NoAnchor
    ensures forall a :: ReadAnchor(file) == Ok(Some(a)) <==>
                        file == Written(a) && a.body.anchorSeq >= 1 && a.body.prevHash != Genesis
    ensures ReadAnchor(file).Err? <==>
            || file == Mangled
            || (file.Written? && (file.anchor.body.anchorSeq < 1 || file.anchor.body.prevHash == Genesis))
  {
  }

  /** Every line parses and the records are one linked run. */
  predicate LinesLinked(lines: seq<Line>, prev: Hash, start: Option<int>) {
    AllParse(lines) && Linked(Records(lines), prev, start)
  }

  /** The two states a prune may leave on disk, and the plain unpruned chain. */
  predicate ChainAndAnchorAgree(lines: seq<Line>, file: AnchorFile) {
    var recs := Records(lines);
    match ReadAnchor(file)
    case Err(_) => false
    case Ok(None) => LinesLinked(lines, Genesis, None)
    case Ok(Some(a)) =>
      recs != [] &&
      if recs[0].seqNo == a.body.anchorSeq then
        LinesLinked(lines, a.body.prevHash, Some(a.body.anchorSeq))
      else
        && (match a.body.supersedes
            case Some(s) =>
              recs[0].seqNo == s.anchorSeq && LinesLinked(lines, s.prevHash, Some(s.anchorSeq))
            case None =>
              recs[0].seqNo == 0 && LinesLinked(lines, Genesis, None))
        && HashAt(recs, Some(a.body.anchorSeq - 1)) == Some(a.body.prevHash)
  }

  /** Line `k` is the first one with which the lines are no linked run, and `fault` says why: a last
      line that does not parse is a torn write. */
  predicate FirstFault(fault: Fault, lines: seq<Line>, k: nat, prev: Hash, start: Option<int>)
    requires k < |lines|
  {
    && LinesLinked(lines[..k], prev, start) && !LinesLinked(lines[..k + 1], prev, start)
    && match lines[k]
       case Garbage => fault == if k == |lines| - 1 then TornTail else Unparseable(k)
       case Rec(rec) => FaultExplained(fault, Records(lines[..k]), rec, prev, start)
  }

  /** One line more. */
  lemma {:induction false} LinesSnoc(lines: seq<Line>, i: nat)
    requires i < |lines|
    ensures Records(lines[..i + 1]) == Records(lines[..i]) + (if lines[i].Rec? then [lines[i].rec] else [])
    ensures Records(lines[..i + 1]) <= Records(lines)
    ensures AllParse(lines[..i + 1]) <==> AllParse(lines[..i]) && lines[i].Rec?
  {
    assert lines[..i] + [lines[i]] == lines[..i + 1];
    RecordsConcat(lines[..i], [lines[i]]);
    RecordsConcat(lines[..i + 1], lines[i + 1..]);
    assert lines[..i + 1] + lines[i + 1..] == lines;
    assert Records([lines[i]]) == if lines[i].Rec? then [lines[i].rec] else [];
    if AllParse(lines[..i + 1]) {
      assert lines[..i + 1][i] == lines[i];
      forall j | 0 <= j < i ensures lines[..i][j].Rec? {
        assert lines[..i + 1][j] == lines[..i][j];
      }
    }
  }

  lemma FaultStays(lines: seq<Line>, k: nat, prev: Hash, start: Option<int>)
    requires k < |lines| && !LinesLinked(lines[..k + 1], prev, start)
    ensures !LinesLinked(lines, prev, start)
  {
    LinesSnoc(lines, k);
    var n := |Records(lines[..k + 1])|;
    assert Records(lines)[..n] == Records(lines[..k + 1]);
    LinkedMonotone(Records(lines), n, prev, start);
    if AllParse(lines) {
      assert AllParse(lines[..k + 1]);
    }
  }

  /** Feeds every line to `verifier`. The verdict is that of the whole, and a fault is that of the
      first line that does not continue the run. */
  method VerifyStream(lines: seq<Line>, verifier: ChainVerifier) returns (verdict: Verdict)
    requires verifier.Valid() && verifier.fed == []
    modifies verifier
    ensures verdict.Intact? <==> LinesLinked(lines, verifier.anchorPrevHash, verifier.anchorSeq)
    ensures verdict.Intact? ==>
              && verdict == VerdictOf(Records(lines), verifier.anchorPrevHash)
              && verifier.rememberedHash == HashAt(Records(lines), verifier.rememberHashAt)
    ensures verdict.Broken? ==>
              exists k: nat :: k < |lines|
                               && FirstFault(verdict.fault, lines, k, verifier.anchorPrevHash, verifier.anchorSeq)
  {
    for i := 0 to |lines|
      invariant verifier.Valid() && AllParse(lines[..i]) && verifier.fed == Records(lines[..i])
    {
      LinesSnoc(lines, i);
      match lines[i] {
        case Garbage =>
          verdict := Broken(if i == |lines| - 1 then TornTail else Unparseable(i));
          assert FirstFault(verdict.fault, lines, i, verifier.anchorPrevHash, verifier.anchorSeq);
          FaultStays(lines, i, verifier.anchorPrevHash, verifier.anchorSeq);
          return;
        case Rec(rec) =>
          var fault := verifier.Feed(rec);
          if fault.Some? {
            verdict := Broken(fault.value);
            assert FirstFault(verdict.fault, lines, i, verifier.anchorPrevHash, verifier.anchorSeq);
            FaultStays(lines, i, verifier.anchorPrevHash, verifier.anchorSeq);
            return;
          }
      }
    }
    assert lines[..|lines|] == lines;
    verdict := verifier.Finish();
  }

  /** A fault of the stream read from such a start. */
  predicate StreamFault(fault: Fault, lines: seq<Line>, prev: Hash, start: Option<int>) {
    exists k: nat :: k < |lines| && FirstFault(fault, lines, k, prev, start)
  }

  /** What a fault says under a usable anchor. The chain starts at the anchor, where the anchor says it still
      starts, or at neither; and from an earlier start it may hold another record before the anchor. */
  predicate AnchorFault(fault: Fault, lines: seq<Line>, a: AnchorBody) {
    var recs := Records(lines);
    if recs == [] then
      if AllParse(lines) then fault == EmptyUnderAnchor else StreamFault(fault, lines, a.prevHash, Some(a.anchorSeq))
    else if recs[0].seqNo == a.anchorSeq then StreamFault(fault, lines, a.prevHash, Some(a.anchorSeq))
    else if recs[0].seqNo != (if a.supersedes.Some? then a.supersedes.value.anchorSeq else 0) then
      fault == ForeignStart(recs[0].seqNo)
    else
      var prev := if a.supersedes.Some? then a.supersedes.value.prevHash else Genesis;
      var start := if a.supersedes.Some? then Some(a.supersedes.value.anchorSeq) else None;
      if LinesLinked(lines, prev, start) then
        fault == AnchorDisagrees(a.anchorSeq - 1) && HashAt(recs, Some(a.anchorSeq - 1)) != Some(a.prevHash)
      else StreamFault(fault, lines, prev, start)
  }

  datatype ChainResult = ChainResult(verdict: Verdict, anchored: Option<int>, pending: bool)

  method VerifyChain(lines: seq<Line>, file: AnchorFile) returns (r: ChainResult)
    ensures r.verdict.Intact? <==> ChainAndAnchorAgree(lines, file)
    ensures (file == Mangled
             || (file.Written? && (file.anchor.body.anchorSeq < 1 || file.anchor.body.prevHash == Genesis)))
            ==> r.verdict == Broken(AnchorUnreadable)
    ensures file == NoAnchor && r.verdict.Broken? ==> StreamFault(r.verdict.fault, lines, Genesis, None)
    ensures file.Written? && r.anchored.Some? && r.verdict.Broken? ==>
              AnchorFault(r.verdict.fault, lines, file.anchor.body)
    ensures r.anchored.Some? <==> ReadAnchor(file).Ok? && ReadAnchor(file).value.Some?
    ensures r.anchored.Some? ==> r.anchored.value == ReadAnchor(file).value.value.body.anchorSeq
    ensures r.verdict.Intact? ==>
              && r.verdict.first == (if Records(lines) == [] then None else Some(Records(lines)[0].seqNo))
              && r.verdict.count == |Records(lines)|
              && r.verdict.head == Head(Records(lines), Genesis)
              && (r.pending <==> r.anchored.Some? && r.verdict.first != r.anchored)
  {
    match ReadAnchor(file) {
      case Err(_) =>
        return ChainResult(Broken(AnchorUnreadable), None, false);
      case Ok(None) =>
        var verifier := new ChainVerifier(Genesis, None, None);
        var verdict := VerifyStream(lines, verifier);
        return ChainResult(verdict, None, false);
      case Ok(Some(a)) =>
        r := VerifyAnchoredChain(lines, a);
    }
  }

  method VerifyAnchoredChain(lines: seq<Line>, a: Anchor) returns (r: ChainResult)
    requires ReadAnchor(Written(a)) == Ok(Some(a))
    ensures r.verdict.Intact? <==> ChainAndAnchorAgree(lines, Written(a))
    ensures r.anchored == Some(a.body.anchorSeq)
    ensures r.verdict.Broken? ==> AnchorFault(r.verdict.fault, lines, a.body)
    ensures r.verdict.Intact? ==>
              && Records(lines) != [] && r.verdict.head == Head(Records(lines), Genesis)
              && r.verdict.first == Some(Records(lines)[0].seqNo)
              && r.verdict.count == |Records(lines)|
              && (r.pending <==> Records(lines)[0].seqNo != a.body.anchorSeq)
  {
    var anchored := Some(a.body.anchorSeq);
    var recs := Records(lines);
    if recs == [] {
      var verifier := new ChainVerifier(a.body.prevHash, anchored, None);
      var verdict := VerifyStream(lines, verifier);
      return ChainResult(if verdict.Intact? then Broken(EmptyUnderAnchor) else verdict, anchored, false);
    }
    var firstSeq := recs[0].seqNo;
    if firstSeq == a.body.anchorSeq {
      var verifier := new ChainVerifier(a.body.prevHash, anchored, None);
      var verdict := VerifyStream(lines, verifier);
      return ChainResult(verdict, anchored, false);
    }
    var startPrev, startSeq := Genesis, None;
    match a.body.supersedes {
      case Some(s) =>
        if firstSeq != s.anchorSeq {
          return ChainResult(Broken(ForeignStart(firstSeq)), anchored, false);
        }
        startPrev, startSeq := s.prevHash, Some(s.anchorSeq);
      case None =>
        if firstSeq != 0 {
          return ChainResult(Broken(ForeignStart(firstSeq)), anchored, false);
        }
    }
    var verifier := new ChainVerifier(startPrev, startSeq, Some(a.body.anchorSeq - 1));
    var verdict := VerifyStream(lines, verifier);
    if verdict.Intact? && verifier.rememberedHash != Some(a.body.prevHash) {
      verdict := Broken(AnchorDisagrees(a.body.anchorSeq - 1));
    }
    return ChainResult(verdict, anchored, true);
  }

  /** A run of records has one start: it links from no other hash and at no other seq. */
  lemma OneStart(recs: seq<Record>, prev: Hash, base: int, otherPrev: Hash, otherBase: int)
    requires recs != [] && Linked(recs, prev, Some(base))
    ensures Linked(recs, otherPrev, Some(otherBase)) <==> otherPrev == prev && otherBase == base
  {
    assert LinkedAt(recs, prev, 0);
    if Linked(recs, otherPrev, Some(otherBase)) {
      assert LinkedAt(recs, otherPrev, 0);
    }
  }

  /** A linked chain under a readable anchor that tells the truth about it verifies exactly when
      the anchor is where the chain starts, or names where it still starts. */
  lemma AgreeIff(lines: seq<Line>, prev: Hash, base: int, a: Anchor)
    requires AllParse(lines) && Records(lines) != [] && Linked(Records(lines), prev, Some(base))
    requires base == 0 ==> prev == Genesis
    requires ReadAnchor(Written(a)) == Ok(Some(a))
    requires base <= a.body.anchorSeq <= base + |Records(lines)|
    requires a.body.prevHash == Head(Records(lines)[..a.body.anchorSeq - base], prev)
    ensures ChainAndAnchorAgree(lines, Written(a)) <==>
            || a.body.anchorSeq == base
            || (match a.body.supersedes
                case None => base == 0
                case Some(s) => s.anchorSeq == base && s.prevHash == prev)
  {
    var recs, n := Records(lines), a.body.anchorSeq - base;
    assert LinkedAt(recs, prev, 0);
    if n > 0 {
      HashAtLinked(recs, prev, a.body.anchorSeq - 1);
    }
    match a.body.supersedes {
      case None =>
      case Some(s) => OneStart(recs, prev, base, s.prevHash, s.anchorSeq);
    }
  }
}
