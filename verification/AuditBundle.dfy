/**
 Signed export bundles: building one from the chain and verifying one off the box
 (modules/core/audit_chain.py `build_manifest`, modules/core/audit_verify.py `verify_bundle`,
 modules/core/audit.py `export_bundle`).
 */
module AuditBundle {
  import opened Wrappers
  import opened AuditChain
  import opened AuditAnchor

  const FULL_FORMAT := 1
  const ANCHORED_FORMAT := 2
  const ALGORITHM := "ed25519"

  /** The instance identity an auditor pins: derived from the public key alone. */
  datatype Fingerprint = Fingerprint(key: string)

  datatype Manifest = Manifest(
    formatVersion: int, algorithm: Option<string>,
    fingerprint: Option<Fingerprint>, publicKey: Option<string>,
    first: Option<int>, last: Option<int>, count: int, head: Hash,
    anchorPrevHash: Option<Hash>, anchorSeq: Option<int>)

  datatype Bundle = Bundle(manifest: Manifest, entries: seq<Record>, signature: Option<Signature<Manifest>>)

  datatype BundleFault =
    | UnsupportedFormat | UnsupportedAlgorithm | UnusableAnchor | UndeclaredAnchor | HalfSigned
    | ChainInvalid | HeadMismatch | RangeMismatch | BadSignature | ForeignFingerprint

  datatype BundleVerdict = BundleVerdict(
    signed: bool, fingerprint: Option<Fingerprint>,
    count: nat, first: Option<int>, last: Option<int>, head: Hash)

  function FirstSeq(recs: seq<Record>): Option<int> {
    if recs == [] then None else Some(recs[0].seqNo)
  }

  /** Of a linked run this is the seq of the last record. */
  function LastSeq(recs: seq<Record>): Option<int> {
    if recs == [] then None else Some(recs[0].seqNo + |recs| - 1)
  }

  function VerifyBundle(b: Bundle): Result<BundleVerdict, BundleFault> {
    var m := b.manifest;
    var anchored := m.formatVersion == ANCHORED_FORMAT;
    if m.formatVersion != FULL_FORMAT && m.formatVersion != ANCHORED_FORMAT then Err(UnsupportedFormat)
    else if m.algorithm != None && m.algorithm != Some(ALGORITHM) then Err(UnsupportedAlgorithm)
    else if anchored && (m.anchorPrevHash == None || m.anchorPrevHash == Some(Genesis) || m.anchorSeq == None) then
      Err(UnusableAnchor)
    else if !anchored && (m.anchorPrevHash != None || m.anchorSeq != None) then Err(UndeclaredAnchor)
    else if b.signature.Some? != m.publicKey.Some? then Err(HalfSigned)
    else
      var prev := if anchored then m.anchorPrevHash.value else Genesis;
      if !Linked(b.entries, prev, m.anchorSeq) then Err(ChainInvalid)
      else if m.head != Head(b.entries, prev) then Err(HeadMismatch)
      else if m.first != FirstSeq(b.entries) || m.last != LastSeq(b.entries) || m.count != |b.entries| then
        Err(RangeMismatch)
      else
        var verdict := BundleVerdict(false, None, |b.entries|, m.first, m.last, m.head);
        if b.signature == None then Ok(verdict)
        else if b.signature.value != Signature(m.publicKey.value, m) then Err(BadSignature)
        else
          var fp := Fingerprint(m.publicKey.value);
          if m.fingerprint != None && m.fingerprint != Some(fp) then Err(ForeignFingerprint)
          else Ok(verdict.(signed := true, fingerprint := Some(fp)))
  }

  /** `load_records(path, to_seq=...)`: filters rather than stops, whatever the order. */
  function UpTo(recs: seq<Record>, last: int): seq<Record> {
    if recs == [] then []
    else (if recs[0].seqNo <= last then [recs[0]] else []) + UpTo(recs[1..], last)
  }

  /** `iter_records(path, from_seq=...)`. */
  function From(recs: seq<Record>, first: int): seq<Record> {
    if recs == [] then []
    else (if recs[0].seqNo >= first then [recs[0]] else []) + From(recs[1..], first)
  }

  lemma {:induction false} FromMembers(recs: seq<Record>, first: int, rec: Record)
    ensures rec in From(recs, first) <==> rec in recs && rec.seqNo >= first
  {
    if recs != [] {
      FromMembers(recs[1..], first, rec);
      assert recs == [recs[0]] + recs[1..];
    }
  }

  function BuildManifest(recs: seq<Record>, key: Option<string>): Manifest {
    var anchored := recs != [] && recs[0].prevHash != Genesis;
    Manifest(
      if anchored then ANCHORED_FORMAT else FULL_FORMAT, Some(ALGORITHM),
      if key == None then None else Some(Fingerprint(key.value)), key,
      FirstSeq(recs),
      if recs == [] then None else Some(recs[|recs| - 1].seqNo),
      |recs|,
      Head(recs, Genesis),
      if anchored then Some(recs[0].prevHash) else None,
      if anchored then FirstSeq(recs) else None)
  }

  function ExportPrefix(recs: seq<Record>, last: int, key: Option<string>): Bundle {
    var entries := UpTo(recs, last);
    var m := BuildManifest(entries, key);
    Bundle(m, entries, if key == None then None else Some(Signature(key.value, m)))
  }

  /** On a gap-free run the filters are a cut: `UpTo` keeps a prefix and `From` the rest. */
  lemma {:induction false} FiltersCut(recs: seq<Record>, prev: Hash, k: nat)
    requires Linked(recs, prev, None) && k <= |recs|
    ensures recs != [] ==> UpTo(recs, recs[0].seqNo + k - 1) == recs[..k]
    ensures recs != [] ==> From(recs, recs[0].seqNo + k) == recs[k..]
  {
    if recs != [] {
      LinkedTail(recs, prev);
      if |recs| > 1 {
        assert recs[1..][0].seqNo == recs[0].seqNo + 1 by { assert LinkedAt(recs, prev, 1); }
        if k == 0 {
          FiltersCut(recs[1..], recs[0].hash, 0);
          UpToBelow(recs, recs[0].seqNo - 1, prev);
          FromBelow(recs, recs[0].seqNo, prev);
        } else {
          FiltersCut(recs[1..], recs[0].hash, k - 1);
          assert recs[..k] == [recs[0]] + recs[1..][..k - 1];
          assert recs[k..] == recs[1..][k - 1..];
        }
      }
    }
  }

  lemma {:induction false} UpToBelow(recs: seq<Record>, last: int, prev: Hash)
    requires Linked(recs, prev, None) && (recs != [] ==> last < recs[0].seqNo)
    ensures UpTo(recs, last) == []
  {
    if recs != [] {
      LinkedTail(recs, prev);
      if |recs| > 1 { assert LinkedAt(recs, prev, 1); }
      UpToBelow(recs[1..], last, recs[0].hash);
    }
  }

  lemma {:induction false} FromBelow(recs: seq<Record>, first: int, prev: Hash)
    requires Linked(recs, prev, None) && (recs != [] ==> first <= recs[0].seqNo)
    ensures From(recs, first) == recs
  {
    if recs != [] {
      LinkedTail(recs, prev);
      if |recs| > 1 { assert LinkedAt(recs, prev, 1); }
      FromBelow(recs[1..], first, recs[0].hash);
    }
  }

  lemma LinkedTail(recs: seq<Record>, prev: Hash)
    requires Linked(recs, prev, None) && recs != []
    ensures Linked(recs[1..], recs[0].hash, Some(recs[0].seqNo + 1))
  {
    assert recs == recs[..1] + recs[1..];
    LinkedSplit(recs[..1], recs[1..], prev, None);
  }

  /** What `export_bundle` builds from a linked run verifies. */
  lemma BuiltVerifies(entries: seq<Record>, prev: Hash, key: Option<string>)
    requires Linked(entries, prev, None)
    ensures var m := BuildManifest(entries, key);
            var v := VerifyBundle(Bundle(m, entries, if key == None then None else Some(Signature(key.value, m))));
            && v.Ok? && v.value.signed == key.Some? && v.value.count == |entries|
            && (key.Some? ==> v.value.fingerprint == Some(Fingerprint(key.value)))
  {
    if entries != [] {
      var n := |entries| - 1;
      assert LinkedAt(entries, prev, 0) && LinkedAt(entries, prev, n);
      LinkedFrom(entries, prev);
    }
  }

  lemma LinkedFrom(entries: seq<Record>, prev: Hash)
    requires Linked(entries, prev, None) && entries != []
    ensures Linked(entries, entries[0].prevHash, Some(entries[0].seqNo))
    ensures entries[|entries| - 1].seqNo == entries[0].seqNo + |entries| - 1
  {
    assert LinkedAt(entries, prev, 0) && LinkedAt(entries, prev, |entries| - 1);
  }

  /** Whatever prefix is exported from an intact chain, the bundle verifies off the box, says
      whether it is signed and by whom, and holds exactly the prefix. */
  lemma ExportVerifies(recs: seq<Record>, prev: Hash, k: nat, key: Option<string>)
    requires Linked(recs, prev, None) && recs != [] && k <= |recs|
    ensures var b := ExportPrefix(recs, recs[0].seqNo + k - 1, key);
            && b.entries == recs[..k]
            && VerifyBundle(b).Ok?
            && var v := VerifyBundle(b).value;
               v.signed == key.Some? && v.count == k
               && (key.Some? ==> v.fingerprint == Some(Fingerprint(key.value)))
  {
    FiltersCut(recs, prev, k);
    LinkedPrefix(recs, k, prev);
    BuiltVerifies(recs[..k], prev, key);
  }

  // ------------------------------------------------- what verifying means

  /** Where the manifest says its entries start: anywhere behind the genesis, or at its anchor. */
  predicate StartsAt(m: Manifest, prev: Hash, start: Option<int>) {
    || (m.formatVersion == 1 && m.anchorPrevHash == None && m.anchorSeq == None && prev == Genesis && start == None)
    || (m.formatVersion == 2 && m.anchorPrevHash == Some(prev) && prev != Genesis
        && m.anchorSeq.Some? && start == m.anchorSeq)
  }

  /** The manifest gives the number of the entries, their first and last seq and their head. */
  predicate Describes(m: Manifest, entries: seq<Record>, prev: Hash) {
    && m.count == |entries|
    && (if entries == [] then m.first == None && m.last == None && m.head == prev
        else
          var last := entries[|entries| - 1];
          m.first == Some(entries[0].seqNo) && m.last == Some(last.seqNo) && m.head == last.hash)
  }

  /** The bundle is signed by `key`, under its own manifest; or, without a key, it does not look signed. */
  predicate SignedAs(b: Bundle, key: Option<string>) {
    match key
    case None => b.signature == None && b.manifest.publicKey == None
    case Some(k) =>
      && b.manifest.publicKey == Some(k) && b.signature == Some(Signature(k, b.manifest))
      && (b.manifest.fingerprint == None || b.manifest.fingerprint == Some(Fingerprint(k)))
  }

  /** The entries are the linked run the manifest describes. */
  predicate Holds(b: Bundle, prev: Hash, start: Option<int>) {
    StartsAt(b.manifest, prev, start) && Linked(b.entries, prev, start) && Describes(b.manifest, b.entries, prev)
  }

  lemma OneStartAt(b: Bundle, prev: Hash, start: Option<int>)
    requires StartsAt(b.manifest, prev, start)
    ensures var m := b.manifest;
            && prev == (if m.formatVersion == ANCHORED_FORMAT then m.anchorPrevHash.value else Genesis)
            && start == m.anchorSeq
  {
  }

  lemma DescribesIff(m: Manifest, entries: seq<Record>, prev: Hash, start: Option<int>)
    requires Linked(entries, prev, start)
    ensures Describes(m, entries, prev) <==>
            m.head == Head(entries, prev) && m.first == FirstSeq(entries) && m.last == LastSeq(entries)
            && m.count == |entries|
  {
    if entries != [] { assert LinkedAt(entries, prev, |entries| - 1); }
  }

  /** A bundle verifies exactly when its entries are the linked run its manifest describes, from where
      the manifest says they start, and it is signed by the key it carries or carries neither key nor
      signature; and the verdict says so. */
  lemma VerifiesIff(b: Bundle)
    ensures VerifyBundle(b).Ok? <==>
            && (b.manifest.algorithm == None || b.manifest.algorithm == Some("ed25519"))
            && (exists prev, start :: Holds(b, prev, start))
            && (exists key :: SignedAs(b, key))
    ensures VerifyBundle(b).Ok? ==>
              forall key | SignedAs(b, key) ::
                VerifyBundle(b).value ==
                BundleVerdict(key.Some?, if key == None then None else Some(Fingerprint(key.value)),
                              |b.entries|, b.manifest.first, b.manifest.last, b.manifest.head)
  {
    var m := b.manifest;
    if VerifyBundle(b).Ok? {
      var prev := if m.formatVersion == ANCHORED_FORMAT then m.anchorPrevHash.value else Genesis;
      DescribesIff(m, b.entries, prev, m.anchorSeq);
      assert Holds(b, prev, m.anchorSeq);
      assert SignedAs(b, m.publicKey);
    }
    if prev, start :| Holds(b, prev, start) {
      OneStartAt(b, prev, start);
      DescribesIff(m, b.entries, prev, start);
    }
  }

  /** What each refusal says of the bundle. */
  ghost predicate Refuses(b: Bundle, fault: BundleFault) {
    var m := b.manifest;
    match fault
    case UnsupportedFormat => m.formatVersion !in {1, 2}
    case UnsupportedAlgorithm => m.algorithm !in {None, Some("ed25519")}
    case UnusableAnchor =>
      m.formatVersion == 2 && (m.anchorPrevHash in {None, Some(Genesis)} || m.anchorSeq == None)
    case UndeclaredAnchor => m.formatVersion == 1 && (m.anchorPrevHash.Some? || m.anchorSeq.Some?)
    case HalfSigned => b.signature.Some? != m.publicKey.Some?
    case ChainInvalid => forall prev, start | StartsAt(m, prev, start) :: !Linked(b.entries, prev, start)
    case HeadMismatch => forall prev, start | StartsAt(m, prev, start) :: m.head != Head(b.entries, prev)
    case RangeMismatch =>
      || m.count != |b.entries| || m.first != FirstSeq(b.entries)
      || m.last != (if b.entries == [] then None else Some(b.entries[|b.entries| - 1].seqNo))
    case BadSignature => m.publicKey.Some? && b.signature != Some(Signature(m.publicKey.value, m))
    case ForeignFingerprint => m.publicKey.Some? && m.fingerprint !in {None, Some(Fingerprint(m.publicKey.value))}
  }

  lemma RefusalMeans(b: Bundle)
    requires VerifyBundle(b).Err?
    ensures Refuses(b, VerifyBundle(b).error)
  {
    var m := b.manifest;
    var anchored := m.formatVersion == ANCHORED_FORMAT && m.anchorPrevHash.Some?;
    var from := if anchored then m.anchorPrevHash.value else Genesis;
    forall prev, start | StartsAt(m, prev, start) ensures prev == from && start == m.anchorSeq {
      OneStartAt(b, prev, start);
    }
    if Linked(b.entries, from, m.anchorSeq) && b.entries != [] {
      assert LinkedAt(b.entries, from, |b.entries| - 1);
    }
  }

  /** A verified, non-empty bundle is a linked run that starts where the verdict says. */
  lemma VerifiedBundleIsLinked(b: Bundle)
    requires VerifyBundle(b).Ok? && b.entries != []
    ensures exists prev :: Linked(b.entries, prev, None)
    ensures VerifyBundle(b).value.first == Some(b.entries[0].seqNo)
    ensures VerifyBundle(b).value.last == Some(b.entries[0].seqNo + |b.entries| - 1)
  {
    var m := b.manifest;
    var prev := if m.formatVersion == ANCHORED_FORMAT then m.anchorPrevHash.value else Genesis;
    assert Linked(b.entries, prev, None);
  }

  /** Signing the manifest commits to the whole slice: two bundles that verify under one
      manifest hold the same records, entry by entry, without per-entry signatures. */
  lemma ManifestCommitsToEntries(a: Bundle, b: Bundle)
    requires VerifyBundle(a).Ok? && VerifyBundle(b).Ok? && a.manifest == b.manifest
    ensures a.entries == b.entries
  {
    var m := a.manifest;
    var prev := if m.formatVersion == ANCHORED_FORMAT then m.anchorPrevHash.value else Genesis;
    LinkedMonotone(a.entries, |a.entries|, prev, m.anchorSeq);
    HeadCommitsToHistory(a.entries, b.entries, prev, prev);
  }
}
