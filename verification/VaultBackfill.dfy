/**
 Importing a native certificate object for every domain that is stored only as secrets
 (modules/api/resources_storage.py, the loop of `StorageAzureKeyVaultBackfill.post`).
 */
module VaultBackfill {
  import opened Wrappers
  import Sets

  /** What the vault does with a domain when the loop reaches it. */
  datatype Fate = Unreachable | NoData | ImportRefused | ImportRaises | Importable

  datatype Outcome = Imported | Skipped | Error(why: Fate)

  function OutcomeOf(objects: set<string>, fate: Fate, domain: string): Outcome {
    if fate == Unreachable then Error(fate)
    else if domain in objects then Skipped
    else if fate == Importable then Imported
    else Error(fate)
  }

  /** The objects in the vault once `domains` have been walked. */
  function After(objects: set<string>, domains: seq<string>, fate: string -> Fate): set<string> {
    if domains == [] then objects
    else
      var d, before := domains[|domains| - 1], After(objects, domains[..|domains| - 1], fate);
      if OutcomeOf(before, fate(d), d) == Imported then before + {d} else before
  }

  /** The walk imports exactly the importable domains it reaches and touches no other object. */
  lemma {:induction false} AfterMembers(objects: set<string>, domains: seq<string>, fate: string -> Fate)
    ensures forall d :: d in After(objects, domains, fate) <==> d in objects || (d in domains && fate(d) == Importable)
  {
    if domains != [] {
      var n := |domains| - 1;
      AfterMembers(objects, domains[..n], fate);
      assert domains == domains[..n] + [domains[n]];
    }
  }

  /** The answer's `results`, one entry a domain, the last one written staying. */
  function ResultsOf(objects: set<string>, domains: seq<string>, fate: string -> Fate): map<string, Outcome> {
    if domains == [] then map[]
    else
      var d, before := domains[|domains| - 1], domains[..|domains| - 1];
      ResultsOf(objects, before, fate)[d := OutcomeOf(After(objects, before, fate), fate(d), d)]
  }

  predicate Distinct(domains: seq<string>) {
    forall i, j | 0 <= i < j < |domains| :: domains[i] != domains[j]
  }

  lemma {:induction false} ResultKeys(objects: set<string>, domains: seq<string>, fate: string -> Fate)
    ensures forall d :: d in ResultsOf(objects, domains, fate) <==> d in domains
  {
    if domains != [] {
      var n := |domains| - 1;
      ResultKeys(objects, domains[..n], fate);
      assert domains == domains[..n] + [domains[n]];
    }
  }

  lemma OneMoreKey<K, V>(m: map<K, V>, k: K, v: V)
    ensures |m[k := v]| == |m| + (if k in m then 0 else 1)
  {
    assert m[k := v].Keys == m.Keys + {k};
    assert |m| == |m.Keys| && |m[k := v]| == |m[k := v].Keys|;
  }

  lemma DistinctSnoc(domains: seq<string>)
    requires domains != []
    ensures Distinct(domains) <==>
            Distinct(domains[..|domains| - 1]) && domains[|domains| - 1] !in domains[..|domains| - 1]
  {
    var before := domains[..|domains| - 1];
    if Distinct(domains) {
      forall i, j | 0 <= i < j < |before| ensures before[i] != before[j] {
        assert domains[i] != domains[j];
      }
    }
  }

  /** One entry a walked domain, except where a domain is walked twice. */
  lemma {:induction false} ResultCount(objects: set<string>, domains: seq<string>, fate: string -> Fate)
    ensures |ResultsOf(objects, domains, fate)| <= |domains|
    ensures |ResultsOf(objects, domains, fate)| == |domains| <==> Distinct(domains)
  {
    if domains != [] {
      var last, before := domains[|domains| - 1], domains[..|domains| - 1];
      ResultCount(objects, before, fate);
      ResultKeys(objects, before, fate);
      OneMoreKey(ResultsOf(objects, before, fate), last, OutcomeOf(After(objects, before, fate), fate(last), last));
      DistinctSnoc(domains);
    }
  }

  /** With distinct domains every entry says what happened to its domain, against the vault as the call
      found it: imported when it was importable and not there, skipped when it was there and could be
      asked for, and otherwise the reason it failed. */
  lemma {:induction false} ResultsMean(objects: set<string>, domains: seq<string>, fate: string -> Fate)
    requires Distinct(domains)
    ensures forall d :: d in ResultsOf(objects, domains, fate) <==> d in domains
    ensures forall d | d in domains ::
              var outcome := ResultsOf(objects, domains, fate)[d];
              && (outcome == Imported <==> fate(d) == Importable && d !in objects)
              && (outcome == Skipped <==> fate(d) != Unreachable && d in objects)
              && (outcome.Error? ==> outcome.why == fate(d))
  {
    ResultKeys(objects, domains, fate);
    if domains != [] {
      var n := |domains| - 1;
      ResultsMean(objects, domains[..n], fate);
      AfterMembers(objects, domains[..n], fate);
      assert domains == domains[..n] + [domains[n]];
    }
  }

  function WithOutcome(results: map<string, Outcome>, imported: bool, skipped: bool): (domains: set<string>) {
    set d | d in results && results[d].Imported? == imported && results[d].Skipped? == skipped
  }

  lemma OutcomesPartition(results: map<string, Outcome>)
    ensures |WithOutcome(results, true, false)| + |WithOutcome(results, false, true)|
            + |WithOutcome(results, false, false)| == |results|
  {
    var imported, skipped := WithOutcome(results, true, false), WithOutcome(results, false, true);
    var errors := WithOutcome(results, false, false);
    assert results.Keys == imported + skipped + errors;
    assert imported !! skipped && (imported + skipped) !! errors;
    assert |results| == |results.Keys|;
  }

  datatype Report = Report(results: map<string, Outcome>, processed: nat,
                           imported: nat, skipped: nat, errors: nat, remaining: nat)

  /** How far into `n` listed domains one call goes. */
  function Reach(n: nat, limit: Option<nat>): (reach: nat)
    ensures reach <= n && (limit.Some? ==> reach <= limit.value)
    ensures reach == n || (limit.Some? && reach == limit.value)
  {
    if limit.None? || n <= limit.value then n else limit.value
  }

  class KeyVault {
    var objects: set<string>

    constructor (objects: set<string>)
      ensures this.objects == objects
    {
      this.objects := objects;
    }

    /** One call: the first domains of the listing, up to the limit, skipped ones included. */
    method Backfill(domains: seq<string>, limit: Option<nat>, fate: string -> Fate) returns (report: Report)
      requires limit.Some? ==> limit.value >= 1
      modifies this
      ensures objects == After(old(objects), domains[..Reach(|domains|, limit)], fate)
      ensures report.results == ResultsOf(old(objects), domains[..Reach(|domains|, limit)], fate)
      ensures report.processed == Reach(|domains|, limit)
      ensures report.processed + report.remaining == |domains|
      ensures report.imported == |WithOutcome(report.results, true, false)|
      ensures report.skipped == |WithOutcome(report.results, false, true)|
      ensures report.errors == |WithOutcome(report.results, false, false)|
    {
      var results: map<string, Outcome> := map[];
      var processed, index := 0, 0;
      while index < |domains| && !(limit.Some? && processed >= limit.value)
        invariant processed == index <= Reach(|domains|, limit)
        invariant objects == After(old(objects), domains[..index], fate)
        invariant results == ResultsOf(old(objects), domains[..index], fate)
        decreases |domains| - index
      {
        var domain := domains[index];
        assert domains[..index + 1][..index] == domains[..index];
        processed := processed + 1;
        if fate(domain) == Unreachable {
          results := results[domain := Error(Unreachable)];
        } else if domain in objects {
          results := results[domain := Skipped];
        } else if fate(domain) == Importable {
          objects := objects + {domain};
          results := results[domain := Imported];
        } else {
          results := results[domain := Error(fate(domain))];
        }
        index := index + 1;
      }
      report := Report(results, processed, |WithOutcome(results, true, false)|, |WithOutcome(results, false, true)|,
                       |WithOutcome(results, false, false)|,
                       if |domains| > processed then |domains| - processed else 0);
    }
  }

  /** The three counts add up to what was processed exactly when no domain was walked twice. */
  lemma CountsAddUpIff(objects: set<string>, domains: seq<string>, fate: string -> Fate)
    ensures var results := ResultsOf(objects, domains, fate);
            (|WithOutcome(results, true, false)| + |WithOutcome(results, false, true)|
             + |WithOutcome(results, false, false)| == |domains|) <==> Distinct(domains)
  {
    OutcomesPartition(ResultsOf(objects, domains, fate));
    ResultCount(objects, domains, fate);
  }

  // -------------------------------------------------------------- paging

  /** The vault after one call for each of `fates`, over a listing that stays the same. */
  function Calls(objects: set<string>, domains: seq<string>, limit: Option<nat>, fates: seq<string -> Fate>)
    : set<string>
  {
    if fates == [] then objects
    else
      var before := Calls(objects, domains, limit, fates[..|fates| - 1]);
      After(before, domains[..Reach(|domains|, limit)], fates[|fates| - 1])
  }

  /** However often it is called, only the first `limit` domains can gain an object. */
  lemma {:induction false} CallsTouchOnlyTheFirst(objects: set<string>, domains: seq<string>, limit: Option<nat>,
                                                  fates: seq<string -> Fate>)
    ensures objects <= Calls(objects, domains, limit, fates)
    ensures forall d | d in Calls(objects, domains, limit, fates) ::
              d in objects || d in domains[..Reach(|domains|, limit)]
  {
    if fates != [] {
      var n := |fates| - 1;
      CallsTouchOnlyTheFirst(objects, domains, limit, fates[..n]);
      AfterMembers(Calls(objects, domains, limit, fates[..n]), domains[..Reach(|domains|, limit)], fates[n]);
    }
  }

  /** The documented paging, with everything importable: any positive number of calls gives every
      listed domain an object exactly when those past the limit had one to begin with. */
  lemma PagingCoversIff(objects: set<string>, domains: seq<string>, limit: Option<nat>,
                        fates: seq<string -> Fate>)
    requires fates != [] && forall i, d | 0 <= i < |fates| && d in domains :: fates[i](d) == Importable
    ensures (forall d | d in domains :: d in Calls(objects, domains, limit, fates)) <==>
            (forall d | d in domains[Reach(|domains|, limit)..] ::
               d in objects || d in domains[..Reach(|domains|, limit)])
  {
    var reach, n := Reach(|domains|, limit), |fates| - 1;
    var before := Calls(objects, domains, limit, fates[..n]);
    assert domains == domains[..reach] + domains[reach..];
    CallsTouchOnlyTheFirst(objects, domains, limit, fates);
    CallsTouchOnlyTheFirst(objects, domains, limit, fates[..n]);
    AfterMembers(before, domains[..reach], fates[n]);
    forall d | d in domains[..reach] ensures d in Calls(objects, domains, limit, fates) {
      assert d in domains && fates[n](d) == Importable;
    }
  }

  /** "Calling repeatedly until remaining is 0", giving up after as many calls as `fates` has: it
      ends exactly when the limit was no limit, and otherwise leaves the vault as those calls do. */
  method PageThrough(vault: KeyVault, domains: seq<string>, limit: Option<nat>, fates: seq<string -> Fate>)
    returns (ended: bool)
    requires limit.Some? ==> limit.value >= 1
    modifies vault
    ensures ended <==> fates != [] && (limit.None? || |domains| <= limit.value)
    ensures !ended ==> vault.objects == Calls(old(vault.objects), domains, limit, fates)
  {
    var i := 0;
    while i < |fates|
      invariant i <= |fates| && vault.objects == Calls(old(vault.objects), domains, limit, fates[..i])
      invariant i > 0 ==> limit.Some? && |domains| > limit.value
    {
      var report := vault.Backfill(domains, limit, fates[i]);
      assert fates[..i + 1][..i] == fates[..i];
      if report.remaining == 0 { return true; }
      i := i + 1;
    }
    assert fates[..i] == fates;
    ended := false;
  }

  /** A vault of two importable domains, one already imported, and a limit of one: no number of
      calls imports the other, and each one answers that one domain remains. */
  lemma PagingStalls(fates: seq<string -> Fate>)
    ensures Calls({"a"}, ["a", "b"], Some(1), fates) == {"a"}
    ensures |["a", "b"]| - Reach(|["a", "b"]|, Some(1)) == 1
  {
    CallsTouchOnlyTheFirst({"a"}, ["a", "b"], Some(1), fates);
    assert ["a", "b"][..1] == ["a"];
  }

  // ------------------------------------ the same loop, not counting skips

  /** How many of `domains` a walk works on rather than skips. */
  function Attempts(objects: set<string>, domains: seq<string>, fate: string -> Fate): nat {
    if domains == [] then 0
    else
      var d, before := domains[|domains| - 1], domains[..|domains| - 1];
      Attempts(objects, before, fate)
      + (if OutcomeOf(After(objects, before, fate), fate(d), d) == Skipped then 0 else 1)
  }

  /** How many of `domains` cannot be imported and have no object. */
  function Failing(objects: set<string>, domains: seq<string>, fate: string -> Fate): nat {
    if domains == [] then 0
    else
      var d, before := domains[|domains| - 1], domains[..|domains| - 1];
      Failing(objects, before, fate)
      + (if fate(d) == Unreachable || (fate(d) != Importable && d !in objects) then 1 else 0)
  }

  /** Every attempt either fails or imports one more. */
  lemma {:induction false} AttemptsSplit(objects: set<string>, domains: seq<string>, fate: string -> Fate)
    ensures objects <= After(objects, domains, fate)
    ensures Attempts(objects, domains, fate)
            == Failing(objects, domains, fate) + |After(objects, domains, fate)| - |objects|
  {
    if domains != [] {
      var n := |domains| - 1;
      AttemptsSplit(objects, domains[..n], fate);
      AfterMembers(objects, domains[..n], fate);
    }
  }

  /** Importing changes nothing about which domains fail. */
  lemma {:induction false} FailingStays(objects: set<string>, more: set<string>, domains: seq<string>,
                                        fate: string -> Fate)
    requires objects <= more && forall d | d in more && d !in objects :: fate(d) == Importable
    ensures Failing(more, domains, fate) == Failing(objects, domains, fate)
  {
    if domains != [] {
      FailingStays(objects, more, domains[..|domains| - 1], fate);
    }
  }

  lemma {:induction false} MorePrefixMoreFailing(objects: set<string>, domains: seq<string>, k: nat,
                                                 fate: string -> Fate)
    requires k <= |domains|
    ensures Failing(objects, domains[..k], fate) <= Failing(objects, domains, fate)
    decreases |domains| - k
  {
    if k == |domains| {
      assert domains[..k] == domains;
    } else {
      MorePrefixMoreFailing(objects, domains, k + 1, fate);
      assert domains[..k + 1][..k] == domains[..k];
    }
  }

  /** The limit was not reached before any of the first `n` domains. */
  predicate WentOn(objects: set<string>, domains: seq<string>, limit: nat, fate: string -> Fate, n: nat)
    requires n <= |domains|
  {
    forall i | 0 <= i < n :: Attempts(objects, domains[..i], fate) < limit
  }

  /** The variant of the loop that puts the limit on the domains worked on, and where it stops. */
  method BackfillPage(objects: set<string>, domains: seq<string>, limit: nat, fate: string -> Fate)
    returns (now: set<string>, remaining: nat)
    requires limit >= 1
    ensures remaining <= |domains| && now == After(objects, domains[..|domains| - remaining], fate)
    ensures remaining > 0 ==> Attempts(objects, domains[..|domains| - remaining], fate) == limit
    ensures WentOn(objects, domains, limit, fate, |domains| - remaining)
  {
    now := objects;
    var attempted, index := 0, 0;
    while index < |domains| && attempted < limit
      invariant index <= |domains| && now == After(objects, domains[..index], fate)
      invariant attempted == Attempts(objects, domains[..index], fate) <= limit
      invariant WentOn(objects, domains, limit, fate, index)
    {
      var domain := domains[index];
      assert domains[..index + 1][..index] == domains[..index];
      var outcome := OutcomeOf(now, fate(domain), domain);
      if outcome != Skipped { attempted := attempted + 1; }
      if outcome == Imported { now := now + {domain}; }
      index := index + 1;
    }
    remaining := |domains| - index;
  }

  /** A page that stops short of the end has imported something, if fewer than `limit` of the
      domains before the last one fail. */
  lemma ShortPageImports(objects: set<string>, domains: seq<string>, limit: nat,
                         fate: string -> Fate, k: nat)
    requires k < |domains| && Attempts(objects, domains[..k], fate) == limit
    requires Failing(objects, domains[..|domains| - 1], fate) < limit
    ensures |After(objects, domains[..k], fate)| > |objects|
  {
    AttemptsSplit(objects, domains[..k], fate);
    assert domains[..|domains| - 1][..k] == domains[..k];
    MorePrefixMoreFailing(objects, domains[..|domains| - 1], k, fate);
  }

  /** Called until nothing remains, the variant ends with every importable domain imported and no
      other object changed, provided fewer than `limit` of the domains before the last one fail. */
  method BackfillAll(objects: set<string>, domains: seq<string>, limit: nat, fate: string -> Fate)
    returns (now: set<string>)
    requires limit >= 1
    requires domains != [] ==> Failing(objects, domains[..|domains| - 1], fate) < limit
    ensures forall d :: d in now <==> d in objects || (d in domains && fate(d) == Importable)
  {
    now := objects;
    var remaining := |domains|;
    ghost var most := After(objects, domains, fate);
    AfterMembers(objects, domains, fate);
    var more := true;
    while more
      invariant objects <= now <= most
      invariant !more ==> now == most
      decreases |most - now|, more
    {
      ghost var before := now;
      now, remaining := BackfillPage(now, domains, limit, fate);
      AfterMembers(before, domains[..|domains| - remaining], fate);
      if remaining > 0 {
        FailingStays(objects, before, domains[..|domains| - 1], fate);
        ShortPageImports(before, domains, limit, fate, |domains| - remaining);
        Sets.SubsetSize(most - now, most - before);
        SmallerRest(most, before, now);
      } else {
        assert domains[..|domains|] == domains;
        assert now == most;
        Sets.SubsetSize(most - now, most - before);
      }
      more := remaining > 0;
    }
  }

  lemma SmallerRest<T>(all: set<T>, before: set<T>, now: set<T>)
    requires before <= now <= all && |before| < |now|
    ensures |all - now| < |all - before|
  {
    assert all == before + (all - before) && all == now + (all - now);
  }

  /** Otherwise no call of the variant gets past the last domain: the condition is exact. */
  lemma ManyFailuresStall(objects: set<string>, domains: seq<string>, limit: nat,
                          fate: string -> Fate)
    requires domains != [] && Failing(objects, domains[..|domains| - 1], fate) >= limit
    ensures !WentOn(objects, domains, limit, fate, |domains|)
  {
    var before := domains[..|domains| - 1];
    AttemptsSplit(objects, before, fate);
    Sets.SubsetSize(objects, After(objects, before, fate));
    assert !(Attempts(objects, before, fate) < limit);
  }

  /** Called as often as one likes, but stopping once nothing remains. */
  method BackfillPages(objects: set<string>, domains: seq<string>, limit: nat, fate: string -> Fate, calls: nat)
    returns (now: set<string>, remaining: nat)
    requires limit >= 1 && calls >= 1
    ensures domains != [] && Failing(objects, domains[..|domains| - 1], fate) >= limit ==> remaining > 0
    ensures objects <= now && forall d | d in now :: d in objects || (d in domains && fate(d) == Importable)
  {
    now, remaining := objects, |domains|;
    var i := 0;
    while i < calls && (i == 0 || remaining > 0)
      invariant objects <= now && forall d | d in now :: d in objects || (d in domains && fate(d) == Importable)
      invariant i > 0 && domains != [] && Failing(objects, domains[..|domains| - 1], fate) >= limit ==> remaining > 0
      decreases calls - i
    {
      ghost var before := now;
      now, remaining := BackfillPage(now, domains, limit, fate);
      AfterMembers(before, domains[..|domains| - remaining], fate);
      if domains != [] && Failing(objects, domains[..|domains| - 1], fate) >= limit {
        FailingStays(objects, before, domains[..|domains| - 1], fate);
        ManyFailuresStall(before, domains, limit, fate);
      }
      i := i + 1;
    }
  }
}
