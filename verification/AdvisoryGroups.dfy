/**
 Collapsing advisory records that name one flaw under several identifiers
 (scripts/check_resolved_advisories.py): one incremental pass must compute the connected
 components of "shares an identifier".
 */
module AdvisoryGroups {
  import opened Text

  datatype Package = Package(name: string, version: string)

  /** One record: the package it was found for and every identifier it goes by. */
  datatype Row = Row(package: Package, vulnId: string, ids: set<string>)

  datatype Group = Group(keys: set<string>, packages: set<Package>)

  // ---------------------------------------------------------- components

  predicate Overlap(a: Row, b: Row) {
    a.ids * b.ids != {}
  }

  /** A chain of rows, each sharing an identifier with the next. */
  ghost predicate IsChain(rows: seq<Row>, path: seq<nat>) {
    && path != []
    && (forall k | 0 <= k < |path| :: path[k] < |rows|)
    && (forall k | 0 < k < |path| :: Overlap(rows[path[k - 1]], rows[path[k]]))
  }

  ghost predicate ChainFrom(rows: seq<Row>, path: seq<nat>, i: nat, j: nat) {
    IsChain(rows, path) && path[0] == i && path[|path| - 1] == j
  }

  ghost predicate Connected(rows: seq<Row>, i: nat, j: nat) {
    exists path :: ChainFrom(rows, path, i, j)
  }

  ghost function Component(rows: seq<Row>, i: nat): set<nat> {
    set j: nat | j < |rows| && Connected(rows, i, j)
  }

  function IdsOf(rows: seq<Row>, members: set<nat>): set<string> {
    set i, x | i in members && i < |rows| && x in rows[i].ids :: x
  }

  function PackagesOf(rows: seq<Row>, members: set<nat>): set<Package> {
    set i | i in members && i < |rows| :: rows[i].package
  }

  /** The flaw a row belongs to: everything connected to it, under all its names. */
  ghost function FlawOf(rows: seq<Row>, i: nat): Group {
    Group(IdsOf(rows, Component(rows, i)), PackagesOf(rows, Component(rows, i)))
  }

  ghost function Flaws(rows: seq<Row>): set<Group> {
    set i: nat | i < |rows| :: FlawOf(rows, i)
  }

  lemma ConnectedSelf(rows: seq<Row>, i: nat)
    requires i < |rows|
    ensures Connected(rows, i, i)
  {
    assert ChainFrom(rows, [i], i, i);
  }

  lemma ConnectedStep(rows: seq<Row>, i: nat, j: nat)
    requires i < |rows| && j < |rows| && Overlap(rows[i], rows[j])
    ensures Connected(rows, i, j)
  {
    assert ChainFrom(rows, [i, j], i, j);
  }

  lemma ConnectedTrans(rows: seq<Row>, i: nat, j: nat, k: nat)
    requires Connected(rows, i, j) && Connected(rows, j, k)
    ensures Connected(rows, i, k)
  {
    var p :| ChainFrom(rows, p, i, j);
    var q :| ChainFrom(rows, q, j, k);
    var path := p + q[1..];
    forall n | 0 < n < |path| ensures Overlap(rows[path[n - 1]], rows[path[n]]) {
      if n >= |p| {
        assert path[n] == q[n - |p| + 1];
        assert path[n - 1] == q[n - |p|];
      }
    }
    assert ChainFrom(rows, path, i, k);
  }

  // ------------------------------------------------------------- the loop

  /** `g` is the row indices `s` merged, and they are one flaw. */
  ghost predicate Holds(rows: seq<Row>, g: Group, s: set<nat>) {
    && s != {}
    && (forall i | i in s :: i < |rows|)
    && g == Group(IdsOf(rows, s), PackagesOf(rows, s))
    && (forall i, j | i in s && j in s :: Connected(rows, i, j))
  }

  /** The groups split the first `n` rows, and no two of them share an identifier. */
  ghost predicate Split(rows: seq<Row>, n: nat, groups: seq<Group>, members: seq<set<nat>>) {
    && |members| == |groups|
    && (forall k | 0 <= k < |groups| :: Holds(rows, groups[k], members[k]))
    && (forall k, i | 0 <= k < |groups| && i in members[k] :: i < n)
    && (forall i: nat | i < n :: InSome(members, i))
    && (forall k, l | 0 <= k < l < |groups| :: groups[k].keys !! groups[l].keys && members[k] !! members[l])
  }

  ghost predicate InSome(members: seq<set<nat>>, i: nat) {
    exists k :: 0 <= k < |members| && i in members[k]
  }

  lemma MergeHolds(rows: seq<Row>, a: Group, s: set<nat>, b: Group, t: set<nat>)
    requires Holds(rows, a, s) && Holds(rows, b, t) && a.keys * b.keys != {}
    ensures Holds(rows, Group(a.keys + b.keys, a.packages + b.packages), s + t)
  {
    var x :| x in a.keys * b.keys;
    var i :| i in s && x in rows[i].ids;
    var j :| j in t && x in rows[j].ids;
    assert x in rows[i].ids * rows[j].ids;
    ConnectedStep(rows, i, j);
    ConnectedStep(rows, j, i);
    forall m, n | m in s + t && n in s + t ensures Connected(rows, m, n) {
      if m in s && n in t {
        ConnectedTrans(rows, m, i, j);
        ConnectedTrans(rows, m, j, n);
      } else if m in t && n in s {
        ConnectedTrans(rows, m, j, i);
        ConnectedTrans(rows, m, i, n);
      }
    }
  }

  /** Part-way through one row: `mine` has absorbed what it touches among the first `m` groups,
      `kept` is the rest of them, and neither touches the groups still to be looked at. */
  ghost predicate Scanning(rows: seq<Row>, n: nat, groups: seq<Group>, members: seq<set<nat>>, m: nat,
                           g: Group, mine: set<nat>, merged: seq<Group>, kept: seq<set<nat>>) {
    && n < |rows| && m <= |groups| && Split(rows, n, groups, members)
    && Holds(rows, g, mine) && n in mine && (forall i | i in mine :: i <= n)
    && |kept| == |merged|
    && (forall k | 0 <= k < |merged| :: Holds(rows, merged[k], kept[k]))
    && (forall k, i | 0 <= k < |merged| && i in kept[k] :: i < n)
    && (forall k | 0 <= k < |merged| :: merged[k].keys !! g.keys && kept[k] !! mine)
    && (forall k, l | 0 <= k < l < |merged| :: merged[k].keys !! merged[l].keys && kept[k] !! kept[l])
    && (forall k, l | 0 <= k < |merged| && m <= l < |groups| ::
          merged[k].keys !! groups[l].keys && kept[k] !! members[l])
    && (forall l | m <= l < |groups| :: mine !! members[l])
    && (forall l, i | 0 <= l < m && i in members[l] :: i in mine || InSome(kept, i))
  }

  lemma ScanAbsorbs(rows: seq<Row>, n: nat, groups: seq<Group>, members: seq<set<nat>>, m: nat,
                    g: Group, mine: set<nat>, merged: seq<Group>, kept: seq<set<nat>>)
    requires Scanning(rows, n, groups, members, m, g, mine, merged, kept) && m < |groups|
    requires groups[m].keys * g.keys != {}
    ensures Scanning(rows, n, groups, members, m + 1,
                     Group(g.keys + groups[m].keys, g.packages + groups[m].packages), mine + members[m], merged, kept)
  {
    MergeHolds(rows, g, mine, groups[m], members[m]);
  }

  lemma ScanKeeps(rows: seq<Row>, n: nat, groups: seq<Group>, members: seq<set<nat>>, m: nat,
                  g: Group, mine: set<nat>, merged: seq<Group>, kept: seq<set<nat>>)
    requires Scanning(rows, n, groups, members, m, g, mine, merged, kept) && m < |groups|
    requires groups[m].keys * g.keys == {}
    ensures Scanning(rows, n, groups, members, m + 1, g, mine, merged + [groups[m]], kept + [members[m]])
  {
    InSomeSnoc(kept, members[m]);
    forall x | x in groups[m].keys ensures x !in g.keys {
      assert x !in groups[m].keys * g.keys;
    }
    assert groups[m].keys !! g.keys && members[m] !! mine;
  }

  lemma ScanDone(rows: seq<Row>, n: nat, groups: seq<Group>, members: seq<set<nat>>,
                 g: Group, mine: set<nat>, merged: seq<Group>, kept: seq<set<nat>>)
    requires Scanning(rows, n, groups, members, |groups|, g, mine, merged, kept)
    ensures Split(rows, n + 1, merged + [g], kept + [mine])
  {
    InSomeSnoc(kept, mine);
    forall i: nat | i < n + 1 ensures InSome(kept + [mine], i) {
      if i < n {
        assert InSome(members, i);
      }
    }
  }

  method GroupByAlias(rows: seq<Row>) returns (groups: seq<Group>)
    ensures (set g | g in groups) == Flaws(rows)
    ensures forall k, l | 0 <= k < l < |groups| :: groups[k].keys !! groups[l].keys
    ensures exists members :: Split(rows, |rows|, groups, members)
  {
    groups := [];
    ghost var members: seq<set<nat>> := [];
    for n := 0 to |rows|
      invariant Split(rows, n, groups, members)
    {
      var row := rows[n];
      var keys, packages := row.ids, {row.package};
      var merged := [];
      ghost var mine: set<nat>, kept: seq<set<nat>> := {n}, [];
      ConnectedSelf(rows, n);
      assert Group(keys, packages) == Group(IdsOf(rows, mine), PackagesOf(rows, mine));
      for m := 0 to |groups|
        invariant Scanning(rows, n, groups, members, m, Group(keys, packages), mine, merged, kept)
      {
        var existing := groups[m];
        if existing.keys * keys != {} {
          ScanAbsorbs(rows, n, groups, members, m, Group(keys, packages), mine, merged, kept);
          keys, packages, mine := keys + existing.keys, packages + existing.packages, mine + members[m];
        } else {
          ScanKeeps(rows, n, groups, members, m, Group(keys, packages), mine, merged, kept);
          merged, kept := merged + [existing], kept + [members[m]];
        }
      }
      ScanDone(rows, n, groups, members, Group(keys, packages), mine, merged, kept);
      groups, members := merged + [Group(keys, packages)], kept + [mine];
    }
    SplitIsFlaws(rows, groups, members);
  }

  lemma InSomeSnoc(members: seq<set<nat>>, s: set<nat>)
    ensures forall i: nat | InSome(members, i) || i in s :: InSome(members + [s], i)
  {
    var all := members + [s];
    forall i: nat | InSome(members, i) || i in s ensures InSome(all, i) {
      if i in s {
        assert i in all[|members|];
      } else {
        var k :| 0 <= k < |members| && i in members[k];
        assert i in all[k];
      }
    }
  }

  /** A chain cannot leave a group: sharing an identifier keeps it in place. */
  lemma {:induction false} ChainStays(rows: seq<Row>, groups: seq<Group>, members: seq<set<nat>>, k: nat,
                                      path: seq<nat>)
    requires Split(rows, |rows|, groups, members) && k < |groups|
    requires IsChain(rows, path) && path[0] in members[k]
    ensures path[|path| - 1] in members[k]
  {
    if |path| > 1 {
      var n := |path| - 1;
      ChainStays(rows, groups, members, k, path[..n]);
      var a, b := path[n - 1], path[n];
      assert Overlap(rows[a], rows[b]);
      var x :| x in rows[a].ids * rows[b].ids;
      assert InSome(members, b);
      var l :| 0 <= l < |members| && b in members[l];
      assert x in groups[k].keys && x in groups[l].keys;
    }
  }

  lemma MembersAreComponents(rows: seq<Row>, groups: seq<Group>, members: seq<set<nat>>,
                             k: nat, i: nat)
    requires Split(rows, |rows|, groups, members) && k < |groups| && i in members[k]
    ensures members[k] == Component(rows, i) && groups[k] == FlawOf(rows, i)
  {
    forall j: nat | j < |rows| && Connected(rows, i, j) ensures j in members[k] {
      var path :| ChainFrom(rows, path, i, j);
      ChainStays(rows, groups, members, k, path);
    }
  }

  lemma SplitIsFlaws(rows: seq<Row>, groups: seq<Group>, members: seq<set<nat>>)
    requires Split(rows, |rows|, groups, members)
    ensures (set g | g in groups) == Flaws(rows)
  {
    forall g | g in groups ensures g in Flaws(rows) {
      var k :| 0 <= k < |groups| && groups[k] == g;
      var i :| i in members[k];
      MembersAreComponents(rows, groups, members, k, i);
    }
    forall g | g in Flaws(rows) ensures g in groups {
      var i: nat :| i < |rows| && FlawOf(rows, i) == g;
      assert InSome(members, i);
      var k :| 0 <= k < |members| && i in members[k];
      MembersAreComponents(rows, groups, members, k, i);
    }
  }

  /** Two rows end in one group exactly when a chain of shared identifiers links them. */
  lemma SameGroupIff(rows: seq<Row>, groups: seq<Group>, members: seq<set<nat>>, i: nat, j: nat)
    requires Split(rows, |rows|, groups, members) && i < |rows| && j < |rows|
    ensures (exists k :: 0 <= k < |members| && i in members[k] && j in members[k]) <==> Connected(rows, i, j)
  {
    assert InSome(members, i);
    var k :| 0 <= k < |members| && i in members[k];
    MembersAreComponents(rows, groups, members, k, i);
  }

  // ------------------------------------------------------ order independence

  /** `map[i]` is where row `i` of `rows` is found among `others`. */
  ghost predicate Embeds(rows: seq<Row>, others: seq<Row>, at: seq<nat>) {
    |at| == |rows| && forall i | 0 <= i < |rows| :: at[i] < |others| && others[at[i]] == rows[i]
  }

  lemma Embedding(rows: seq<Row>, others: seq<Row>) returns (at: seq<nat>)
    requires forall r | r in rows :: r in others
    ensures Embeds(rows, others, at)
  {
    at := [];
    for n := 0 to |rows|
      invariant |at| == n && forall i | 0 <= i < n :: at[i] < |others| && others[at[i]] == rows[i]
    {
      assert rows[n] in rows && rows[n] in others;
      var j :| 0 <= j < |others| && others[j] == rows[n];
      at := at + [j];
    }
  }

  lemma EmbeddedConnected(rows: seq<Row>, others: seq<Row>, at: seq<nat>, i: nat, j: nat)
    requires Embeds(rows, others, at) && i < |rows| && j < |rows| && Connected(rows, i, j)
    ensures Connected(others, at[i], at[j])
  {
    var p :| ChainFrom(rows, p, i, j);
    var path := seq(|p|, k requires 0 <= k < |p| => at[p[k]]);
    forall k | 0 < k < |path| ensures Overlap(others[path[k - 1]], others[path[k]]) {
      assert Overlap(rows[p[k - 1]], rows[p[k]]);
    }
    assert ChainFrom(others, path, at[i], at[j]);
  }

  lemma Alone(rows: seq<Row>, i: nat, j: nat)
    requires i < |rows| && Connected(rows, i, j)
    ensures j == i || rows[i].ids != {}
  {
    var p :| ChainFrom(rows, p, i, j);
    if |p| > 1 {
      assert Overlap(rows[p[0]], rows[p[1]]);
    }
  }

  /** What the flaw of a row holds is found in the flaw of the same row elsewhere. */
  lemma FlawIncluded(rows: seq<Row>, others: seq<Row>, at: seq<nat>, back: seq<nat>, i: nat)
    requires Embeds(rows, others, at) && Embeds(others, rows, back) && i < |rows|
    ensures FlawOf(rows, i) == FlawOf(others, at[i])
  {
    var c, d := Component(rows, i), Component(others, at[i]);
    forall j | j in c ensures at[j] in d {
      EmbeddedConnected(rows, others, at, i, j);
    }
    forall j | j in d ensures exists m :: m in c && rows[m] == others[j] {
      if rows[i].ids == {} {
        Alone(others, at[i], j);
        ConnectedSelf(rows, i);
        assert i in c && rows[i] == others[j];
      } else {
        EmbeddedConnected(others, rows, back, at[i], j);
        assert rows[back[at[i]]] == rows[i];
        ConnectedStep(rows, i, back[at[i]]);
        ConnectedTrans(rows, i, back[at[i]], back[j]);
        assert back[j] in c;
      }
    }
    SameFlaw(rows, c, others, d);
  }

  lemma SameFlaw(rows: seq<Row>, c: set<nat>, others: seq<Row>, d: set<nat>)
    requires forall j | j in c :: j < |rows|
    requires forall j | j in d :: j < |others|
    requires forall j | j in c :: exists m :: m in d && others[m] == rows[j]
    requires forall j | j in d :: exists m :: m in c && rows[m] == others[j]
    ensures IdsOf(rows, c) == IdsOf(others, d) && PackagesOf(rows, c) == PackagesOf(others, d)
  {
    Included(rows, c, others, d);
    Included(others, d, rows, c);
  }

  lemma Included(rows: seq<Row>, c: set<nat>, others: seq<Row>, d: set<nat>)
    requires forall j | j in c :: j < |rows|
    requires forall j | j in d :: j < |others|
    requires forall j | j in c :: exists m :: m in d && others[m] == rows[j]
    ensures IdsOf(rows, c) <= IdsOf(others, d) && PackagesOf(rows, c) <= PackagesOf(others, d)
  {
    forall x | x in IdsOf(rows, c) ensures x in IdsOf(others, d) {
      var j :| j in c && x in rows[j].ids;
      var m :| m in d && others[m] == rows[j];
    }
    forall p | p in PackagesOf(rows, c) ensures p in PackagesOf(others, d) {
      var j :| j in c && rows[j].package == p;
      var m :| m in d && others[m] == rows[j];
    }
  }

  lemma FlawsIncluded(rows: seq<Row>, others: seq<Row>, at: seq<nat>, back: seq<nat>)
    requires Embeds(rows, others, at) && Embeds(others, rows, back)
    ensures Flaws(rows) <= Flaws(others)
  {
    forall g | g in Flaws(rows) ensures g in Flaws(others) {
      var i: nat :| i < |rows| && FlawOf(rows, i) == g;
      FlawIncluded(rows, others, at, back, i);
      assert FlawOf(others, at[i]) == g;
    }
  }

  /** The flaws depend on which rows there are, not on their order or on repetitions. */
  lemma OrderDoesNotMatter(rows: seq<Row>, others: seq<Row>)
    requires forall r :: r in rows <==> r in others
    ensures Flaws(rows) == Flaws(others)
  {
    var at := Embedding(rows, others);
    var back := Embedding(others, rows);
    FlawsIncluded(rows, others, at, back);
    FlawsIncluded(others, rows, back, at);
  }

  /** No identifier and no package is lost or made up. */
  lemma FlawsConserve(rows: seq<Row>)
    ensures (set g, x | g in Flaws(rows) && x in g.keys :: x) == (set r, x | r in rows && x in r.ids :: x)
    ensures (set g, p | g in Flaws(rows) && p in g.packages :: p) == (set r | r in rows :: r.package)
  {
    forall i: nat | i < |rows|
      ensures FlawOf(rows, i) in Flaws(rows)
      ensures rows[i].ids <= FlawOf(rows, i).keys && rows[i].package in FlawOf(rows, i).packages
    {
      ConnectedSelf(rows, i);
      assert i in Component(rows, i);
    }
  }

  // ------------------------------------------------------------- reporting

  const GHSA := "GHSA-"

  /** The least GHSA identifier if there is one, else the least identifier. */
  function Canonical(ids: set<string>): string
    requires ids != {}
  {
    var ghsa := set i | i in ids && GHSA <= i;
    if ghsa != {} then Sorted(ghsa)[0] else Sorted(ids)[0]
  }

  datatype Report = Report(canonical: string, ids: seq<string>, packages: set<Package>)

  function ReportOf(g: Group): Report
    requires g.keys != {}
  {
    Report(Canonical(g.keys), Sorted(g.keys), g.packages)
  }

  /** What a flaw is reported by: a GHSA identifier if it has one, and the least of its kind. */
  lemma CanonicalIsLeast(ids: set<string>)
    requires ids != {}
    ensures Canonical(ids) in ids
    ensures (exists i :: i in ids && GHSA <= i) ==>
              GHSA <= Canonical(ids) && forall i | i in ids && GHSA <= i :: LexLe(Canonical(ids), i)
    ensures (forall i | i in ids :: !(GHSA <= i)) ==> forall i | i in ids :: LexLe(Canonical(ids), i)
  {
    FirstIsLeast(ids);
    var ghsa := set i | i in ids && GHSA <= i;
    if ghsa != {} {
      FirstIsLeast(ghsa);
      assert Canonical(ids) in ghsa;
    } else {
      forall i | i in ids ensures !(GHSA <= i) {
        assert i !in ghsa;
      }
    }
  }

  lemma FirstIsLeast(ids: set<string>)
    requires ids != {}
    ensures Sorted(ids)[0] in ids && forall i | i in ids :: LexLe(Sorted(ids)[0], i)
  {
    var sorted := Sorted(ids);
    SortedInOrder(ids);
    assert sorted[0] in sorted;
    forall i | i in ids ensures LexLe(sorted[0], i) {
      LexTotal(i, i);
      assert i in sorted;
      var k :| 0 <= k < |sorted| && sorted[k] == i;
      assert k == 0 || LexLe(sorted[0], sorted[k]);
    }
  }

  /** `from` is the wanted places below `n`, in order. */
  predicate Picks(from: seq<nat>, n: nat, wanted: set<nat>) {
    && (forall k | 0 <= k < |from| :: from[k] < n && from[k] in wanted)
    && (forall k, l | 0 <= k < l < |from| :: from[k] < from[l])
    && (forall m: nat | m < n && m in wanted :: m in from)
  }

  lemma PicksOneMore(from: seq<nat>, n: nat, wanted: set<nat>)
    requires Picks(from, n, wanted)
    ensures Picks(if n in wanted then from + [n] else from, n + 1, wanted)
  {
    if n in wanted {
      var more := from + [n];
      forall m: nat | m < n + 1 && m in wanted ensures m in more {
        assert m < n ==> m in from;
        assert more[|from|] == n;
      }
    }
  }

  function UndocumentedAt(groups: seq<Group>, documented: set<string>): set<nat> {
    set n: nat | n < |groups| && groups[n].keys !! documented
  }

  predicate IsReport(groups: seq<Group>, report: Report, at: nat) {
    at < |groups| && groups[at].keys != {} && report == ReportOf(groups[at])
  }

  /** `reports` are the reports of the undocumented ones among the first `n` groups, at the places
      `from`: each of them once, in their order. */
  predicate Reported(groups: seq<Group>, n: nat, documented: set<string>, reports: seq<Report>, from: seq<nat>) {
    && Picks(from, n, UndocumentedAt(groups, documented))
    && |from| == |reports|
    && forall k | 0 <= k < |from| :: IsReport(groups, reports[k], from[k])
  }

  lemma ReportedOneMore(groups: seq<Group>, n: nat, documented: set<string>,
                        reports: seq<Report>, from: seq<nat>)
    requires n < |groups| && groups[n].keys != {} && Reported(groups, n, documented, reports, from)
    ensures if groups[n].keys !! documented then
              Reported(groups, n + 1, documented, reports + [ReportOf(groups[n])], from + [n])
            else Reported(groups, n + 1, documented, reports, from)
  {
    PicksOneMore(from, n, UndocumentedAt(groups, documented));
    if groups[n].keys !! documented { ReportsOneMore(groups, n, reports, from); }
  }

  lemma ReportsOneMore(groups: seq<Group>, n: nat, reports: seq<Report>, from: seq<nat>)
    requires n < |groups| && groups[n].keys != {} && |from| == |reports|
    requires forall k | 0 <= k < |from| :: IsReport(groups, reports[k], from[k])
    ensures forall k | 0 <= k < |from| + 1 :: IsReport(groups, (reports + [ReportOf(groups[n])])[k], (from + [n])[k])
  {
  }

  method Undocumented(groups: seq<Group>, documented: set<string>)
    returns (reports: seq<Report>, ghost from: seq<nat>)
    requires forall g | g in groups :: g.keys != {}
    ensures Reported(groups, |groups|, documented, reports, from)
    ensures forall r :: r in reports <==> exists g :: g in groups && g.keys !! documented && r == ReportOf(g)
  {
    reports, from := [], [];
    for n := 0 to |groups|
      invariant Reported(groups, n, documented, reports, from)
    {
      var g := groups[n];
      assert g in groups;
      ReportedOneMore(groups, n, documented, reports, from);
      if g.keys * documented == {} {
        reports, from := reports + [ReportOf(g)], from + [n];
      }
    }
    ReportedMembers(groups, documented, reports, from);
  }

  lemma ReportedMembers(groups: seq<Group>, documented: set<string>, reports: seq<Report>,
                        from: seq<nat>)
    requires (forall g | g in groups :: g.keys != {}) && Reported(groups, |groups|, documented, reports, from)
    ensures forall r :: r in reports <==> exists g :: g in groups && g.keys !! documented && r == ReportOf(g)
  {
    forall r | r in reports ensures exists g :: g in groups && g.keys !! documented && r == ReportOf(g) {
      var k :| 0 <= k < |reports| && reports[k] == r;
      assert IsReport(groups, reports[k], from[k]);
      assert groups[from[k]] in groups;
    }
    forall g | g in groups && g.keys !! documented ensures ReportOf(g) in reports {
      var n: nat :| n < |groups| && groups[n] == g;
      assert n in UndocumentedAt(groups, documented);
      var k :| 0 <= k < |from| && from[k] == n;
      assert IsReport(groups, reports[k], from[k]);
    }
  }

  /** Reports of groups that share no identifier share none either. */
  lemma ReportsApart(groups: seq<Group>, documented: set<string>, reports: seq<Report>,
                     from: seq<nat>)
    requires Reported(groups, |groups|, documented, reports, from)
    requires forall k, l | 0 <= k < l < |groups| :: groups[k].keys !! groups[l].keys
    ensures forall k, l, x | 0 <= k < l < |reports| && x in reports[k].ids :: x !in reports[l].ids
  {
    forall k, l, x | 0 <= k < l < |reports| && x in reports[k].ids ensures x !in reports[l].ids {
      assert from[k] < from[l];
      assert IsReport(groups, reports[k], from[k]) && IsReport(groups, reports[l], from[l]);
      assert groups[from[k]].keys !! groups[from[l]].keys;
    }
  }

  /** A row's flaw goes unreported exactly when some row connected to it is documented under
      some name: one documented alias covers the whole component and nothing outside it. */
  lemma CoveredIff(rows: seq<Row>, i: nat, documented: set<string>)
    requires i < |rows|
    ensures FlawOf(rows, i).keys * documented != {} <==>
            exists j: nat :: j < |rows| && Connected(rows, i, j) && rows[j].ids * documented != {}
  {
    if FlawOf(rows, i).keys * documented != {} {
      var x :| x in FlawOf(rows, i).keys * documented;
      var j :| j in Component(rows, i) && x in rows[j].ids;
      assert x in rows[j].ids * documented;
    }
    if j: nat :| j < |rows| && Connected(rows, i, j) && rows[j].ids * documented != {} {
      var x :| x in rows[j].ids * documented;
      assert j in Component(rows, i);
      assert x in FlawOf(rows, i).keys * documented;
    }
  }

  // -------------------------------------------------- what a report says

  /** The name of a report: the least of its GHSA identifiers, or the least of all. */
  predicate WellNamed(r: Report) {
    && r.ids != [] && r.canonical in r.ids
    && if exists x :: x in r.ids && "GHSA-" <= x then
         "GHSA-" <= r.canonical && forall x | x in r.ids && "GHSA-" <= x :: LexLe(r.canonical, x)
       else r.canonical == r.ids[0]
  }

  /** The report of the flaw that row `i` belongs to: the identifiers of every connected row, once and in
      order, and the packages of those rows. */
  ghost predicate Says(rows: seq<Row>, i: nat, r: Report)
    requires i < |rows|
  {
    && WellNamed(r) && StrictlySorted(r.ids)
    && (forall x :: x in r.ids <==> exists j: nat :: j < |rows| && Connected(rows, i, j) && x in rows[j].ids)
    && (forall p :: p in r.packages <==> exists j: nat :: j < |rows| && Connected(rows, i, j) && rows[j].package == p)
  }

  /** No connected row is documented under any of its names. */
  ghost predicate Uncovered(rows: seq<Row>, i: nat, documented: set<string>)
    requires i < |rows|
  {
    forall j: nat | j < |rows| && Connected(rows, i, j) :: rows[j].ids !! documented
  }

  lemma ReportIsWellNamed(g: Group)
    requires g.keys != {}
    ensures WellNamed(ReportOf(g)) && StrictlySorted(ReportOf(g).ids)
    ensures (forall x :: x in ReportOf(g).ids <==> x in g.keys) && ReportOf(g).packages == g.packages
  {
    CanonicalIsLeast(g.keys);
    SortedInOrder(g.keys);
    FirstIsLeast(g.keys);
    var first := Sorted(g.keys)[0];
    LexTotal(first, Canonical(g.keys));
  }

  lemma FlawKeysAre(rows: seq<Row>, i: nat)
    requires i < |rows|
    ensures forall x :: x in FlawOf(rows, i).keys <==>
                        exists j: nat :: j < |rows| && Connected(rows, i, j) && x in rows[j].ids
  {
    forall j: nat | j < |rows| && Connected(rows, i, j) ensures rows[j].ids <= FlawOf(rows, i).keys {
      assert j in Component(rows, i);
    }
  }

  lemma FlawPackagesAre(rows: seq<Row>, i: nat)
    requires i < |rows|
    ensures forall p :: p in FlawOf(rows, i).packages <==>
                        exists j: nat :: j < |rows| && Connected(rows, i, j) && rows[j].package == p
  {
    forall j: nat | j < |rows| && Connected(rows, i, j) ensures rows[j].package in FlawOf(rows, i).packages {
      assert j in Component(rows, i);
    }
  }

  lemma FlawIsSaid(rows: seq<Row>, i: nat)
    requires i < |rows| && FlawOf(rows, i).keys != {}
    ensures Says(rows, i, ReportOf(FlawOf(rows, i)))
  {
    FlawKeysAre(rows, i);
    FlawPackagesAre(rows, i);
    ReportIsWellNamed(FlawOf(rows, i));
  }

  lemma UncoveredIff(rows: seq<Row>, i: nat, documented: set<string>)
    requires i < |rows|
    ensures Uncovered(rows, i, documented) <==> FlawOf(rows, i).keys !! documented
  {
    CoveredIff(rows, i, documented);
  }

  lemma FlawHasKeys(rows: seq<Row>, i: nat)
    requires i < |rows| && rows[i].vulnId in rows[i].ids
    ensures FlawOf(rows, i).keys != {}
  {
    ConnectedSelf(rows, i);
    assert i in Component(rows, i) && rows[i].vulnId in FlawOf(rows, i).keys;
  }

  lemma ReportsAreSaid(rows: seq<Row>, documented: set<string>, reports: seq<Report>)
    requires forall r | r in rows :: r.vulnId in r.ids
    requires forall r :: r in reports <==>
               exists g :: g in Flaws(rows) && g.keys !! documented && g.keys != {} && r == ReportOf(g)
    ensures forall r | r in reports :: exists i: nat :: i < |rows| && Uncovered(rows, i, documented) && Says(rows, i, r)
    ensures forall i: nat | i < |rows| && Uncovered(rows, i, documented) :: exists r :: r in reports && Says(rows, i, r)
  {
    forall r | r in reports
      ensures exists i: nat :: i < |rows| && Uncovered(rows, i, documented) && Says(rows, i, r)
    {
      var g :| g in Flaws(rows) && g.keys !! documented && g.keys != {} && r == ReportOf(g);
      var i: nat :| i < |rows| && FlawOf(rows, i) == g;
      UncoveredIff(rows, i, documented);
      FlawIsSaid(rows, i);
    }
    forall i: nat | i < |rows| && Uncovered(rows, i, documented)
      ensures exists r :: r in reports && Says(rows, i, r)
    {
      UncoveredIff(rows, i, documented);
      assert rows[i] in rows;
      FlawHasKeys(rows, i);
      FlawIsSaid(rows, i);
      assert FlawOf(rows, i) in Flaws(rows);
      assert ReportOf(FlawOf(rows, i)) in reports;
    }
  }

  /** Rows as OSV gives them, each named by at least its own identifier, are reported in full:
      the reports are exactly the flaws with no documented name, each once, whatever the order of
      rows. */
  method CheckRows(rows: seq<Row>, documented: set<string>) returns (reports: seq<Report>)
    requires forall r | r in rows :: r.vulnId in r.ids
    ensures forall r | r in reports :: exists i: nat :: i < |rows| && Uncovered(rows, i, documented) && Says(rows, i, r)
    ensures forall i: nat | i < |rows| && Uncovered(rows, i, documented) :: exists r :: r in reports && Says(rows, i, r)
    ensures forall k, l, x | 0 <= k < l < |reports| && x in reports[k].ids :: x !in reports[l].ids
  {
    var groups := GroupByAlias(rows);
    forall g | g in groups ensures g.keys != {} {
      assert g in Flaws(rows);
      var i: nat :| i < |rows| && FlawOf(rows, i) == g;
      ConnectedSelf(rows, i);
      assert i in Component(rows, i) && rows[i].vulnId in g.keys;
    }
    ghost var from: seq<nat>;
    reports, from := Undocumented(groups, documented);
    ReportsApart(groups, documented, reports, from);
    forall r
      ensures r in reports <==>
              exists g :: g in Flaws(rows) && g.keys !! documented && g.keys != {} && r == ReportOf(g)
    {
      if r in reports {
        var g :| g in groups && g.keys !! documented && r == ReportOf(g);
        assert g in Flaws(rows);
      }
      if g :| g in Flaws(rows) && g.keys !! documented && g.keys != {} && r == ReportOf(g) {
        assert g in (set h | h in groups);
      }
    }
    ReportsAreSaid(rows, documented, reports);
  }
}
