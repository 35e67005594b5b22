/**
 Executing a prune on the data directory, one durable step at a time: append the `archive`
 record, write the signed anchor, replace the chain (modules/core/audit_prune.py,
 `execute_prune`, `_write_atomic` and `main`). The process may die between any two steps, and
 another process may write to the chain while it runs.
 */
module AuditExecute {
  import opened Wrappers
  import opened AuditChain
  import opened AuditAnchor
  import opened AuditBundle
  import opened AuditPrune

  /** What another process could read: the chain file and the anchor file. */
  datatype Disk = Disk(chain: ChainFile, anchor: AnchorFile)

  /** How much of an interrupted append reached the disk. */
  datatype Torn = Nothing | Fragment | NoNewline

  datatype Death =
    | Survives
    | InAppend(torn: Torn)
    | AfterAppend
    | InAnchorTemp     // while writing the anchor's temporary file
    | AfterAnchor
    | InChainTemp      // while writing the chain's temporary file
    | AfterReplace

  datatype Outcome = Pruned(anchor: Anchor) | NotSigned | ChainChanged | Died

  function ArchiveEntry(plan: Plan): Entry {
    Archive(plan.archivedFirst, plan.archivedLast, plan.archivedCount, plan.prevHash, plan.bundleSha)
  }

  /** Appending text to a file: a line that does not end in a newline swallows what follows it,
      and two records run together are not a record. */
  function AppendTo(file: ChainFile, line: Line, newline: bool): ChainFile {
    if file.terminated || file.lines == [] then ChainFile(file.lines + [line], newline)
    else ChainFile(file.lines[..|file.lines| - 1] + [Garbage], newline)
  }

  function AppendTorn(file: ChainFile, rec: Record, torn: Torn): ChainFile {
    match torn
    case Nothing => file
    case Fragment => AppendTo(file, Garbage, false)
    case NoNewline => AppendTo(file, Rec(rec), false)
  }

  function ArchiveRecord(file: ChainFile, plan: Plan): Record
    requires Records(file.lines) != []
  {
    var recs := Records(file.lines);
    var last := recs[|recs| - 1];
    MakeLine(last.seqNo + 1, ArchiveEntry(plan), last.hash)
  }

  function AnchorBodyOf(plan: Plan, prunedAt: string): AnchorBody {
    AnchorBody(plan.anchorSeq, plan.prevHash, plan.archivedFirst, plan.archivedLast, plan.archivedCount,
               plan.bundleSha, prunedAt, plan.supersedes)
  }

  function AnchorOf(plan: Plan, key: string, prunedAt: string): Anchor {
    var body := AnchorBodyOf(plan, prunedAt);
    Anchor(body, Some(Signature(key, body)))
  }

  // The durable steps after the append.

  function Anchored(d: Disk, plan: Plan, key: string, prunedAt: string): Disk {
    d.(anchor := Written(AnchorOf(plan, key, prunedAt)))
  }

  function Replaced(d: Disk, plan: Plan): Disk {
    d.(chain := ChainFile(AsLines(From(Records(d.chain.lines), plan.anchorSeq)), true))
  }

  /** Lines another process appends: after the last record is read and before the `archive` record
      is written (`unread`), after that and before the snapshot (`unseen`), between the snapshot
      and the second look at the file (`early`), and after that look and before the replacement
      (`late`). */
  datatype Others = Others(unread: seq<Line>, unseen: seq<Line>, early: seq<Line>, late: seq<Line>)

  const Nobody := Others([], [], [], [])

  /** Whole lines appended one after the other, the first of them to whatever the file ends in. */
  function Joined(file: ChainFile, lines: seq<Line>): ChainFile {
    if lines == [] then file else ChainFile(AppendTo(file, lines[0], true).lines + lines[1..], true)
  }

  /** The disk and the outcome of a prune that dies at `death` among `others`. */
  function After(d: Disk, plan: Plan, key: Option<string>, prunedAt: string, death: Death, others: Others)
    : (Disk, Outcome)
    requires Records(d.chain.lines) != []
  {
    var rec := ArchiveRecord(d.chain, plan);
    var found := Joined(d.chain, others.unread);
    if death.InAppend? then (d.(chain := AppendTorn(found, rec, death.torn)), Died)
    else
      var d1 := d.(chain := AppendTo(found, Rec(rec), true));
      if death.AfterAppend? then (d1, Died)
      else
        var d1' := d1.(chain := Joined(Joined(d1.chain, others.unseen), others.early));
        if key == None then (d1', NotSigned)
        else if death.InAnchorTemp? then (d1', Died)
        else
          var d2 := Anchored(d1', plan, key.value, prunedAt);
          if death.AfterAnchor? then (d2, Died)
          else if others.early != [] then (d2, ChainChanged)
          else if death.InChainTemp? then (d2.(chain := Joined(d2.chain, others.late)), Died)
          else
            (Replaced(d2, plan), if death.AfterReplace? then Died else Pruned(AnchorOf(plan, key.value, prunedAt)))
  }

  /** The anchor of this prune: what the plan says, when, and signed by the key. */
  predicate SignedAnchor(file: AnchorFile, plan: Plan, key: string, prunedAt: string) {
    var body := AnchorBody(plan.anchorSeq, plan.prevHash, plan.archivedFirst, plan.archivedLast, plan.archivedCount,
                           plan.bundleSha, prunedAt, plan.supersedes);
    file == Written(Anchor(body, Some(Signature(key, body))))
  }

  lemma AppendKeeps(file: ChainFile, line: Line, newline: bool)
    requires file.terminated
    ensures Records(AppendTo(file, line, newline).lines) == Records(file.lines) + Records([line])
  {
    RecordsConcat(file.lines, [line]);
  }

  /** The records of a complete file to which others have added theirs around the `archive` record. */
  lemma JoinedRecords(file: ChainFile, lines: seq<Line>)
    requires file.terminated
    ensures Records(Joined(file, lines).lines) == Records(file.lines) + Records(lines)
    ensures Joined(file, lines).terminated
  {
    RecordsConcat(file.lines, lines);
    if lines != [] {
      assert file.lines + [lines[0]] + lines[1..] == file.lines + lines;
    } else {
      assert Records([]) == [];
    }
  }

  /** The chain a prune is about to cut holds all there was, and the `archive` record. */
  lemma AppendedKeeps(d: Disk, plan: Plan, others: Others)
    requires d.chain.terminated && Records(d.chain.lines) != []
    ensures var rec := ArchiveRecord(d.chain, plan);
            var chain := AppendTo(Joined(d.chain, others.unread), Rec(rec), true);
            && chain.terminated && Records(d.chain.lines) <= Records(chain.lines) && rec in Records(chain.lines)
  {
    var rec := ArchiveRecord(d.chain, plan);
    JoinedRecords(d.chain, others.unread);
    AppendKeeps(Joined(d.chain, others.unread), Rec(rec), true);
    assert Records([Rec(rec)]) == [rec];
    var recs := Records(Joined(d.chain, others.unread).lines);
    assert (recs + [rec])[|recs|] == rec;
  }

  /** On a file of whole lines a prune keeps every record there was in the chain, or it has written its
      signed anchor and takes away only records below the anchor. */
  lemma AfterKeeps(d: Disk, plan: Plan, key: Option<string>, prunedAt: string, death: Death, others: Others)
    requires d.chain.terminated && Records(d.chain.lines) != []
    ensures var (d', outcome) := After(d, plan, key, prunedAt, death, others);
            && (Records(d.chain.lines) <= Records(d'.chain.lines)
                || (key.Some? && SignedAnchor(d'.anchor, plan, key.value, prunedAt)
                    && forall r | r in Records(d.chain.lines) && r.seqNo >= plan.anchorSeq ::
                         r in Records(d'.chain.lines)))
            && (outcome.NotSigned? || outcome.ChainChanged? ==>
                  Records(d.chain.lines) <= Records(d'.chain.lines)
                  && ArchiveRecord(d.chain, plan) in Records(d'.chain.lines))
  {
    var found := Joined(d.chain, others.unread);
    var rec := ArchiveRecord(d.chain, plan);
    JoinedRecords(d.chain, others.unread);
    AppendKeeps(found, Garbage, false);
    AppendKeeps(found, Rec(rec), false);
    AppendedKeeps(d, plan, others);
    var c1 := AppendTo(found, Rec(rec), true);
    JoinedRecords(c1, others.unseen);
    var c2 := Joined(c1, others.unseen);
    JoinedRecords(c2, others.early);
    var c3 := Joined(c2, others.early);
    JoinedRecords(c3, others.late);
    RecordsOfAsLines(From(Records(c3.lines), plan.anchorSeq));
    forall r | r in Records(d.chain.lines) && r.seqNo >= plan.anchorSeq
      ensures r in From(Records(c3.lines), plan.anchorSeq)
    {
      FromMembers(Records(c3.lines), plan.anchorSeq, r);
    }
  }

  /** The data directory as the command works on it. The temporary files are the ones
      `_write_atomic` fills before it renames them over their target. */
  class AuditDirectory {
    var chain: ChainFile
    var anchor: AnchorFile
    var chainTmp: Option<ChainFile>
    var anchorTmp: Option<AnchorFile>

    constructor (chain: ChainFile, anchor: AnchorFile)
      ensures this.chain == chain && this.anchor == anchor
    {
      this.chain, this.anchor := chain, anchor;
      chainTmp, anchorTmp := None, None;
    }

    function State(): Disk
      reads this
    {
      Disk(chain, anchor)
    }

    /** All of `text` or nothing: a death while the temporary is written leaves the anchor alone. */
    method WriteAnchorAtomic(text: AnchorFile, dies: bool) returns (done: bool)
      modifies this
      ensures done == !dies
      ensures anchor == if dies then old(anchor) else text
      ensures chain == old(chain) && chainTmp == old(chainTmp)
    {
      if dies {
        anchorTmp := Some(Mangled);
        return false;
      }
      anchorTmp := Some(text);
      anchor, anchorTmp := anchorTmp.value, None;
      return true;
    }

    method WriteChainAtomic(text: ChainFile, dies: bool) returns (done: bool)
      modifies this
      ensures done == !dies
      ensures chain == if dies then old(chain) else text
      ensures anchor == old(anchor) && anchorTmp == old(anchorTmp)
    {
      if dies {
        chainTmp := Some(ChainFile([Garbage], false));
        return false;
      }
      chainTmp := Some(text);
      chain, chainTmp := chainTmp.value, None;
      return true;
    }

    method ExecutePrune(plan: Plan, key: Option<string>, prunedAt: string, death: Death, others: Others)
      returns (outcome: Outcome)
      requires Records(chain.lines) != []
      modifies this
      ensures State() == After(old(State()), plan, key, prunedAt, death, others).0
      ensures outcome == After(old(State()), plan, key, prunedAt, death, others).1
      ensures anchor == old(anchor) || (key.Some? && SignedAnchor(anchor, plan, key.value, prunedAt))
      ensures old(chain.terminated) ==>
              || Records(old(chain.lines)) <= Records(chain.lines)
              || (key.Some? && SignedAnchor(anchor, plan, key.value, prunedAt)
                  && forall r | r in Records(old(chain.lines)) && r !in Records(chain.lines) ::
                       r.seqNo < plan.anchorSeq)
      ensures old(chain.terminated) && (outcome.NotSigned? || outcome.ChainChanged?) ==>
              && Records(old(chain.lines)) <= Records(chain.lines)
              && ArchiveRecord(old(chain), plan) in Records(chain.lines)
      ensures outcome.NotSigned? ==> key == None
      ensures outcome.Pruned? ==> death == Survives && key.Some? && anchor == Written(outcome.anchor)
                                  && SignedAnchor(anchor, plan, key.value, prunedAt)
      ensures outcome.Died? ==> death != Survives
      ensures outcome.ChainChanged? <==>
                key.Some? && others.early != [] && death in {InChainTemp, AfterReplace, Survives}
    {
      if chain.terminated { AfterKeeps(State(), plan, key, prunedAt, death, others); }
      // 1. the prune is itself an audited event, in the chain that continues
      var line := ArchiveRecord(chain, plan);
      chain := Joined(chain, others.unread);
      if death.InAppend? {
        chain := AppendTorn(chain, line, death.torn);
        return Died;
      }
      chain := AppendTo(chain, Rec(line), true);
      if death.AfterAppend? { return Died; }
      chain := Joined(chain, others.unseen);
      var before := chain;

      // 2. the signed anchor, written before the chain is replaced
      chain := Joined(chain, others.early);
      if key == None { return NotSigned; }
      var signed := AnchorOf(plan, key.value, prunedAt);
      var done := WriteAnchorAtomic(Written(signed), death.InAnchorTemp?);
      if !done || death.AfterAnchor? { return Died; }

      // 3. the chain without the archived records
      var kept := AsLines(From(Records(chain.lines), plan.anchorSeq));
      if others.early != [] {
        assert chain != before by { assert |chain.lines| > |before.lines|; }
        return ChainChanged;
      }
      chain := Joined(chain, others.late);
      done := WriteChainAtomic(ChainFile(kept, true), death.InChainTemp?);
      if !done || death.AfterReplace? { return Died; }
      return Pruned(signed);
    }

    /** The whole command: its exit code, or None when the process dies. It is 0 only for a dry run
        or once the pruned chain verifies; whatever it refuses before the prune changes nothing.
        `bundleFile` is None when the bundle cannot be read, and `signs` says whether a key that was
        loaded also signs. */
    method RunCommand(bundleFile: Option<Bundle>, sha: string, yes: bool, signer: Option<string>, signs: bool,
                      prunedAt: string, death: Death, others: Others)
      returns (exit: Option<int>)
      modifies this
      ensures bundleFile == None ==> exit == Some(2) && State() == old(State())
      ensures bundleFile.Some? ==>
              var bundle := bundleFile.value;
              var planned := PlanOf(old(chain.lines), old(anchor), bundle, sha);
              if planned.Err? then exit == Some(1) && State() == old(State())
              else if !yes then exit == Some(0) && State() == old(State())
              else if !SignedBy(bundle, signer) then exit == Some(2) && State() == old(State())
              else
                var key := if signs then signer else None;
                var (d, outcome) := After(old(State()), planned.value, key, prunedAt, death, others);
                && State() == d
                && (exit == None <==> outcome == Died)
                && (exit == Some(0) <==> outcome.Pruned? && ChainAndAnchorAgree(d.chain.lines, d.anchor))
                && (exit.Some? ==> exit.value == 0 || exit.value == 1)
      ensures State() != old(State()) ==>
                && yes && bundleFile.Some? && signer.Some? && SignedAs(bundleFile.value, signer)
                && exists prev, start :: Holds(bundleFile.value, prev, start)
    {
      if bundleFile.Some? { VerifiesIff(bundleFile.value); }
      if bundleFile == None { return Some(2); }
      var bundle := bundleFile.value;
      var planned := PlanPrune(chain.lines, anchor, bundle, sha);
      if planned.Err? { return Some(1); }
      var plan := planned.value;
      if !yes { return Some(0); }
      if signer == None { return Some(2); }
      var exportedBy := VerifyBundle(bundle).value.fingerprint;
      if exportedBy == None { return Some(2); }
      if exportedBy != Some(Fingerprint(signer.value)) { return Some(2); }
      var outcome := ExecutePrune(plan, if signs then signer else None, prunedAt, death, others);
      if outcome.Died? { return None; }
      if outcome.NotSigned? || outcome.ChainChanged? { return Some(1); }
      var result := VerifyChain(chain.lines, anchor);
      return Some(if result.verdict.Intact? then 0 else 1);
    }
  }

  /** The key at hand is the one whose signature the bundle carries. */
  predicate SignedBy(bundle: Bundle, signer: Option<string>) {
    && signer.Some? && VerifyBundle(bundle).Ok?
    && VerifyBundle(bundle).value.fingerprint == Some(Fingerprint(signer.value))
  }
}
