/**
 Queueing reissues for every certificate that lost its private key, at a pace
 (modules/api/resources_reissue_keyless.py, `_limit` and `queue_keyless_reissues`).
 */
module ReissueQueue {
  import opened Wrappers

  const DEFAULT_LIMIT := 10
  const MAX_LIMIT := 50

  /** The `limit` of a body: absent, something `int()` turns into a number, something it refuses with
      the errors that are caught, or an infinity, which JSON admits and `int()` refuses otherwise. */
  datatype RawLimit = Absent | Number(n: int) | NotANumber | Infinite

  /** The JSON the request carries: none or an empty value, which stands for no body; an object; or
      any other value that is not empty, a list, a string or a number. */
  datatype Body = Empty | Object(limit: RawLimit) | OtherValue

  /** None when the call fails on the body; otherwise always between 1 and 50, and the number asked
      for whenever that is. */
  function Limit(body: Body): (limit: Option<nat>)
    ensures limit == None <==> body == OtherValue || body == Object(Infinite)
    ensures body.Object? && body.limit.Number? ==>
              var n := body.limit.n;
              && limit.Some?
              && (1 <= n <= 50 ==> limit.value == n) && (n > 50 ==> limit.value == 50) && (n < 1 ==> limit.value == 1)
    ensures body in {Empty, Object(Absent), Object(NotANumber)} ==> limit == Some(10)
  {
    match body
    case OtherValue => None
    case Empty => Some(DEFAULT_LIMIT)
    case Object(raw) =>
      match raw
      case Number(n) => Some(if n < 1 then 1 else if n > MAX_LIMIT then MAX_LIMIT else n)
      case Infinite => None
      case _ => Some(DEFAULT_LIMIT)
  }

  /** What preparing a domain's reissue says, whenever it is asked. */
  datatype Prepared = Ready | OutOfScope | Unreissuable

  datatype Refused = Refused(domain: string, why: Prepared)

  function ReadyOf(domains: seq<string>, prepare: string -> Prepared): seq<string> {
    if domains == [] then []
    else
      var d := domains[|domains| - 1];
      ReadyOf(domains[..|domains| - 1], prepare) + (if prepare(d) == Ready then [d] else [])
  }

  function RefusedOf(domains: seq<string>, prepare: string -> Prepared): seq<Refused> {
    if domains == [] then []
    else
      var d := domains[|domains| - 1];
      RefusedOf(domains[..|domains| - 1], prepare) + (if prepare(d) == Ready then [] else [Refused(d, prepare(d))])
  }

  /** The call went past the first `k` domains: the limit was not reached before any of them, and
      the queue took every one of them that was ready. */
  predicate WentPast(keyless: seq<string>, limit: nat, prepare: string -> Prepared, accepts: nat -> bool, k: nat) {
    && k <= |keyless|
    && (forall i | 0 <= i < k :: |ReadyOf(keyless[..i], prepare)| < limit)
    && (forall i | 0 <= i < k && prepare(keyless[i]) == Ready :: accepts(|ReadyOf(keyless[..i], prepare)|))
  }

  /** The call stopped before domain `k`: at the end, or for one of its two reasons. */
  predicate StopsAt(keyless: seq<string>, limit: nat, prepare: string -> Prepared, accepts: nat -> bool, k: nat) {
    && WentPast(keyless, limit, prepare, accepts, k)
    && (k < |keyless| ==>
          || |ReadyOf(keyless[..k], prepare)| >= limit
          || (prepare(keyless[k]) == Ready && !accepts(|ReadyOf(keyless[..k], prepare)|)))
  }

  lemma WentOn(keyless: seq<string>, limit: nat, prepare: string -> Prepared,
               accepts: nat -> bool, k: nat)
    requires k < |keyless| && WentPast(keyless, limit, prepare, accepts, k)
    requires |ReadyOf(keyless[..k], prepare)| < limit
    requires prepare(keyless[k]) == Ready ==> accepts(|ReadyOf(keyless[..k], prepare)|)
    ensures WentPast(keyless, limit, prepare, accepts, k + 1)
  {
  }

  /** One domain more, on the two lists. */
  lemma OneDomain(keyless: seq<string>, prepare: string -> Prepared, k: nat)
    requires k < |keyless|
    ensures var d := keyless[k];
            && ReadyOf(keyless[..k + 1], prepare)
               == ReadyOf(keyless[..k], prepare) + (if prepare(d) == Ready then [d] else [])
            && RefusedOf(keyless[..k + 1], prepare)
               == RefusedOf(keyless[..k], prepare) + (if prepare(d) == Ready then [] else [Refused(d, prepare(d))])
  {
    assert keyless[..k + 1][..k] == keyless[..k];
  }

  /** The keyless list is split exactly at one point: before it every domain is queued or refused,
      in order and none twice; from it on everything remains; and something remains only because
      the limit was reached or the queue was full. `accepts(n)` is whether the queue takes another
      job after `n` of this call. */
  method QueueKeylessReissues(keyless: seq<string>, limit: nat, prepare: string -> Prepared, accepts: nat -> bool)
    returns (queued: seq<string>, remaining: seq<string>, refused: seq<Refused>)
    ensures exists k: nat :: k <= |keyless| && StopsAt(keyless, limit, prepare, accepts, k)
                             && queued == ReadyOf(keyless[..k], prepare)
                             && refused == RefusedOf(keyless[..k], prepare)
                             && remaining == keyless[k..]
    ensures |queued| <= limit
    ensures |queued| + |refused| + |remaining| == |keyless|
  {
    queued, remaining, refused := [], [], [];
    var index := 0;
    while index < |keyless|
      invariant WentPast(keyless, limit, prepare, accepts, index) && remaining == []
      invariant queued == ReadyOf(keyless[..index], prepare) && refused == RefusedOf(keyless[..index], prepare)
      invariant |queued| + |refused| == index && |queued| <= limit
    {
      var domain := keyless[index];
      OneDomain(keyless, prepare, index);
      if |queued| >= limit {
        remaining := keyless[index..];
        assert StopsAt(keyless, limit, prepare, accepts, index);
        return;
      }
      if prepare(domain) != Ready {
        WentOn(keyless, limit, prepare, accepts, index);
        refused := refused + [Refused(domain, prepare(domain))];
        index := index + 1;
        continue;
      }
      if !accepts(|queued|) {
        remaining := keyless[index..];
        assert StopsAt(keyless, limit, prepare, accepts, index);
        return;
      }
      WentOn(keyless, limit, prepare, accepts, index);
      queued := queued + [domain];
      index := index + 1;
    }
    assert StopsAt(keyless, limit, prepare, accepts, index);
    assert keyless[index..] == [];
  }

  lemma StopsNoLater(keyless: seq<string>, limit: nat, prepare: string -> Prepared,
                     accepts: nat -> bool, j: nat, k: nat)
    requires StopsAt(keyless, limit, prepare, accepts, j) && StopsAt(keyless, limit, prepare, accepts, k)
    ensures k <= j
  {
  }

  /** There is one point where a call can have stopped, so its three answers are determined. */
  lemma StopIsUnique(keyless: seq<string>, limit: nat, prepare: string -> Prepared,
                     accepts: nat -> bool, j: nat, k: nat)
    requires StopsAt(keyless, limit, prepare, accepts, j) && StopsAt(keyless, limit, prepare, accepts, k)
    ensures j == k
  {
    StopsNoLater(keyless, limit, prepare, accepts, j, k);
    StopsNoLater(keyless, limit, prepare, accepts, k, j);
  }

  // -------------------------------------------------------- repeated calls

  function Without(domains: seq<string>, gone: seq<string>): seq<string> {
    if domains == [] then []
    else (if domains[0] in gone then [] else [domains[0]]) + Without(domains[1..], gone)
  }

  lemma {:induction false} ReadyMembers(domains: seq<string>, prepare: string -> Prepared)
    ensures forall d :: d in ReadyOf(domains, prepare) <==> d in domains && prepare(d) == Ready
  {
    if domains != [] {
      var n := |domains| - 1;
      assert domains == domains[..n] + [domains[n]];
      ReadyMembers(domains[..n], prepare);
    }
  }

  lemma {:induction false} WithoutMembers(domains: seq<string>, gone: seq<string>)
    ensures forall d :: d in Without(domains, gone) <==> d in domains && d !in gone
    ensures |Without(domains, gone)| <= |domains|
    ensures (exists d :: d in gone && d in domains) ==> |Without(domains, gone)| < |domains|
  {
    if domains != [] {
      WithoutMembers(domains[1..], gone);
      assert domains == [domains[0]] + domains[1..];
    }
  }

  lemma {:induction false} WithoutTwice(domains: seq<string>, a: seq<string>, b: seq<string>)
    ensures Without(Without(domains, a), b) == Without(domains, a + b)
  {
    if domains != [] {
      WithoutTwice(domains[1..], a, b);
      var rest := Without(domains[1..], a);
      if domains[0] in a {
        assert domains[0] in a + b;
        assert Without(domains, a) == rest;
      } else {
        assert domains[0] in a + b <==> domains[0] in b;
        assert ([domains[0]] + rest)[1..] == rest;
        assert Without(domains, a) == [domains[0]] + rest;
      }
    }
  }

  lemma {:induction false} WithoutWhole(domains: seq<string>, prepare: string -> Prepared, gone: seq<string>)
    requires forall d | d in domains :: d in gone <==> prepare(d) == Ready
    ensures Without(domains, gone) == Refusable(domains, prepare)
  {
    if domains != [] {
      WithoutWhole(domains[1..], prepare, gone);
      assert domains == [domains[0]] + domains[1..];
    }
  }

  /** The domains no call will ever queue, in their order. */
  function Refusable(domains: seq<string>, prepare: string -> Prepared): seq<string> {
    if domains == [] then []
    else (if prepare(domains[0]) == Ready then [] else [domains[0]]) + Refusable(domains[1..], prepare)
  }

  /** A call that finds something to queue, a positive limit and a queue with room queues it. */
  lemma SomethingIsQueued(keyless: seq<string>, limit: nat, prepare: string -> Prepared,
                          accepts: nat -> bool, k: nat)
    requires StopsAt(keyless, limit, prepare, accepts, k) && limit >= 1 && accepts(0)
    requires exists d :: d in keyless && prepare(d) == Ready
    ensures ReadyOf(keyless[..k], prepare) != []
  {
    var d :| d in keyless && prepare(d) == Ready;
    ReadyMembers(keyless[..k], prepare);
    if k == |keyless| {
      assert keyless[..k] == keyless && d in ReadyOf(keyless[..k], prepare);
    }
  }

  predicate AllReady(domains: seq<string>, prepare: string -> Prepared) {
    forall d | d in domains :: prepare(d) == Ready
  }

  predicate NoneReady(domains: seq<string>, prepare: string -> Prepared) {
    forall d | d in domains :: prepare(d) != Ready
  }

  /** What one call leaves once its jobs are done: fewer domains, or only domains no call queues. */
  lemma CallMakesProgress(keyless: seq<string>, limit: nat, prepare: string -> Prepared,
                          accepts: nat -> bool, k: nat)
    requires StopsAt(keyless, limit, prepare, accepts, k) && limit >= 1 && accepts(0)
    ensures AllReady(ReadyOf(keyless[..k], prepare), prepare)
    ensures ReadyOf(keyless[..k], prepare) == [] ==> NoneReady(keyless, prepare)
    ensures ReadyOf(keyless[..k], prepare) != [] ==> |Without(keyless, ReadyOf(keyless[..k], prepare))| < |keyless|
  {
    var queued := ReadyOf(keyless[..k], prepare);
    ReadyMembers(keyless[..k], prepare);
    WithoutMembers(keyless, queued);
    if queued != [] {
      assert queued[0] in queued && queued[0] in keyless[..k] && queued[0] in keyless;
    } else if exists d :: d in keyless && prepare(d) == Ready {
      SomethingIsQueued(keyless, limit, prepare, accepts, k);
    }
  }

  /** When nothing that is left can be queued, what is left is the refused domains of the start. */
  lemma LeftIsRefused(keyless: seq<string>, prepare: string -> Prepared, gone: seq<string>)
    requires AllReady(gone, prepare) && NoneReady(Without(keyless, gone), prepare)
    ensures Without(keyless, gone) == Refusable(keyless, prepare)
  {
    WithoutMembers(keyless, gone);
    WithoutWhole(keyless, prepare, gone);
  }

  /** If queued jobs complete between calls, each gone from the list, and each call finds room for
      at least one, calling again and again ends, after no more calls than there are keyless
      certificates and one, with exactly the refused ones left, in their order. */
  method RepeatUntilDone(keyless: seq<string>, limit: nat, prepare: string -> Prepared,
                         accepts: nat -> nat -> bool)
    returns (left: seq<string>, calls: nat)
    requires limit >= 1 && forall round: nat :: accepts(round)(0)
    ensures left == Refusable(keyless, prepare)
    ensures calls <= |keyless| + 1
  {
    left, calls := keyless, 0;
    ghost var gone: seq<string> := [];
    WithoutNothing(keyless);
    var more := true;
    while more
      invariant left == Without(keyless, gone)
      invariant AllReady(gone, prepare)
      invariant calls + |left| <= |keyless| + (if more then 0 else 1)
      invariant !more ==> NoneReady(left, prepare)
      decreases |left|, more
    {
      var queued, remaining, refused := QueueKeylessReissues(left, limit, prepare, accepts(calls));
      ghost var k: nat :| k <= |left| && StopsAt(left, limit, prepare, accepts(calls), k)
                          && queued == ReadyOf(left[..k], prepare);
      CallMakesProgress(left, limit, prepare, accepts(calls), k);
      WithoutTwice(keyless, gone, queued);
      more := queued != [];
      if !more { WithoutNothing(left); }
      left, calls, gone := Without(left, queued), calls + 1, gone + queued;
    }
    LeftIsRefused(keyless, prepare, gone);
  }

  lemma {:induction false} WithoutNothing(domains: seq<string>)
    ensures Without(domains, []) == domains
  {
    if domains != [] {
      WithoutNothing(domains[1..]);
      assert domains == [domains[0]] + domains[1..];
    }
  }
}
