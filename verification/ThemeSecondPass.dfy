/**
 When one pass of the theme codemod is not the last (scripts/theme_codemod.py, `process`): exactly
 which class values leave something for a second pass, read off the value before the set-based pass
 touches it.
 */
module ThemeSecondPass {
  import opened ThemeText
  import opened ThemeTable
  import opened ThemeLiteral
  import opened ThemeCodemod

  predicate Halves(p: Pattern, a: string, b: string) {
    EndsAs(a, p.first) && StartsAs(b, p.second)
  }

  /** Two classes that stay, one ending in the left half of `p` and one starting in its right half,
      with nothing between them but classes to be taken out. */
  predicate Gap(p: Pattern, classes: seq<string>, consumed: set<string>, i: nat, j: nat) {
    && i < j < |classes| && Halves(p, classes[i], classes[j])
    && classes[i] !in consumed && classes[j] !in consumed
    && forall k | i < k < j :: classes[k] in consumed
  }

  ghost predicate HasGap(p: Pattern, classes: seq<string>, consumed: set<string>) {
    exists i: nat, j: nat :: Gap(p, classes, consumed, i, j)
  }

  // ------------------------------------------------------- taking out

  /** The first class that stays. */
  lemma {:induction false} RestHead(classes: seq<string>, consumed: set<string>) returns (m: nat)
    ensures m <= |classes| && forall k | 0 <= k < m :: classes[k] in consumed
    ensures m < |classes| ==> classes[m] !in consumed && Rest(classes, consumed) != []
                              && Rest(classes, consumed)[0] == classes[m]
    ensures m == |classes| ==> Rest(classes, consumed) == []
  {
    if classes == [] || classes[0] !in consumed {
      m := 0;
    } else {
      m := RestHead(classes[1..], consumed);
      m := m + 1;
    }
  }

  /** A gap of the classes behind the first `n` is one of them all. */
  lemma GapShift(p: Pattern, classes: seq<string>, n: nat, consumed: set<string>, i: nat, j: nat)
    requires n <= |classes|
    ensures Gap(p, classes[n..], consumed, i, j) <==> Gap(p, classes, consumed, i + n, j + n)
  {
    var tail := classes[n..];
    if i < j < |tail| {
      assert tail[i] == classes[i + n] && tail[j] == classes[j + n];
      assert forall k | i < k < j :: tail[k] == classes[k + n];
      assert forall k | i + n < k < j + n :: classes[k] == tail[k - n];
    }
  }

  lemma GapOff(p: Pattern, classes: seq<string>, n: nat, consumed: set<string>, i: nat, j: nat)
    requires n <= i && Gap(p, classes, consumed, i, j)
    ensures n <= |classes| && Gap(p, classes[n..], consumed, i - n, j - n) && HasGap(p, classes[n..], consumed)
  {
    GapShift(p, classes, n, consumed, i - n, j - n);
  }

  lemma GapBehind(p: Pattern, classes: seq<string>, consumed: set<string>)
    requires classes != [] && HasGap(p, classes[1..], consumed)
    ensures HasGap(p, classes, consumed)
  {
    var i: nat, j: nat :| Gap(p, classes[1..], consumed, i, j);
    GapShift(p, classes, 1, consumed, i, j);
  }

  lemma GapAhead(p: Pattern, classes: seq<string>, consumed: set<string>)
    requires classes != [] && classes[0] in consumed && HasGap(p, classes, consumed)
    ensures HasGap(p, classes[1..], consumed)
  {
    var i: nat, j: nat :| Gap(p, classes, consumed, i, j);
    GapOff(p, classes, 1, consumed, i, j);
  }

  /** Taking classes out puts two of a pattern side by side exactly over such a gap. */
  lemma {:induction false} RestMatchIff(p: Pattern, classes: seq<string>, consumed: set<string>)
    ensures NoMatch(p, Rest(classes, consumed)) <==> !HasGap(p, classes, consumed)
  {
    if classes != [] {
      var tail := classes[1..];
      RestMatchIff(p, tail, consumed);
      if HasGap(p, tail, consumed) {
        GapBehind(p, classes, consumed);
      }
      if classes[0] in consumed {
        assert Rest(classes, consumed) == Rest(tail, consumed);
        if HasGap(p, classes, consumed) {
          GapAhead(p, classes, consumed);
        }
      } else {
        HeadMatchIff(p, classes, consumed);
      }
    }
  }

  lemma HeadMatchIff(p: Pattern, classes: seq<string>, consumed: set<string>)
    requires classes != [] && classes[0] !in consumed
    requires NoMatch(p, Rest(classes[1..], consumed)) <==> !HasGap(p, classes[1..], consumed)
    ensures NoMatch(p, Rest(classes, consumed)) <==> !HasGap(p, classes, consumed)
  {
    var tail := classes[1..];
    var rest := Rest(tail, consumed);
    var m := RestHead(tail, consumed);
    assert Rest(classes, consumed) == [classes[0]] + rest;
    NoMatchCons(p, classes[0], rest);
    if rest != [] && EndsAs(classes[0], p.first) && StartsAs(rest[0], p.second) {
      assert Gap(p, classes, consumed, 0, m + 1);
    }
    if HasGap(p, tail, consumed) {
      GapBehind(p, classes, consumed);
    }
    if i: nat, j: nat :| Gap(p, classes, consumed, i, j) {
      if i > 0 {
        GapOff(p, classes, 1, consumed, i, j);
      } else {
        GapAtHead(p, classes, consumed, j, m);
      }
    }
  }

  lemma GapAtHead(p: Pattern, classes: seq<string>, consumed: set<string>, j: nat, m: nat)
    requires Gap(p, classes, consumed, 0, j) && m < |classes|
    requires forall k | 0 <= k < m :: classes[1..][k] in consumed
    requires m + 1 < |classes| ==> classes[m + 1] !in consumed
    ensures j == m + 1
  {
    assert classes[1..][j - 1] == classes[j];
  }

  // --------------------------------------------------------- splicing

  /** What is neither half of a pattern. */
  predicate NoHalf(p: Pattern, m: seq<string>) {
    forall i | 0 <= i < |m| :: !EndsAs(m[i], p.first) && !StartsAs(m[i], p.second)
  }

  /** Words that are no half of a pattern keep what is before them and what is after them apart. */
  lemma NoMatchAround(p: Pattern, a: seq<string>, m: seq<string>, b: seq<string>)
    requires m != [] && NoHalf(p, m)
    ensures NoMatch(p, a + m + b) <==> NoMatch(p, a) && NoMatch(p, b)
  {
    var all := a + m + b;
    if NoMatch(p, all) {
      forall i: nat | i < |a| ensures !MatchesAt(p, a, i) {
        assert !MatchesAt(p, all, i);
      }
      forall i: nat | i < |b| ensures !MatchesAt(p, b, i) {
        assert !MatchesAt(p, all, |a| + |m| + i);
      }
    }
    if NoMatch(p, a) && NoMatch(p, b) {
      forall i: nat | i < |all| ensures !MatchesAt(p, all, i) {
        if i < |a| {
          assert !MatchesAt(p, a, i);
          assert i + 1 == |a| ==> all[i + 1] == m[0];
        } else if i < |a| + |m| {
          assert all[i] == m[i - |a|];
        } else {
          assert !MatchesAt(p, b, i - |a| - |m|);
        }
      }
    }
  }

  lemma FirstConsumed(classes: seq<string>, consumed: set<string>) returns (k: nat)
    ensures k <= |classes| && forall i | 0 <= i < k :: classes[i] !in consumed
    ensures k < |classes| ==> classes[k] in consumed
  {
    k := 0;
    while k < |classes| && classes[k] !in consumed
      invariant k <= |classes| && forall i | 0 <= i < k :: classes[i] !in consumed
    {
      k := k + 1;
    }
  }

  lemma {:induction false} RestOfKept(classes: seq<string>, consumed: set<string>)
    requires forall i | 0 <= i < |classes| :: classes[i] !in consumed
    ensures Rest(classes, consumed) == classes
    ensures forall inserts :: Splice(classes, consumed, inserts) == classes
  {
    if classes != [] {
      RestOfKept(classes[1..], consumed);
      assert classes == [classes[0]] + classes[1..];
    }
  }

  lemma {:induction false} RestConcat(a: seq<string>, b: seq<string>, consumed: set<string>)
    ensures Rest(a + b, consumed) == Rest(a, consumed) + Rest(b, consumed)
  {
    if a == [] {
      assert a + b == b;
    } else {
      var head := if a[0] in consumed then [] else [a[0]];
      assert (a + b)[0] == a[0] && (a + b)[1..] == a[1..] + b;
      RestConcat(a[1..], b, consumed);
      assert Rest(a + b, consumed) == head + Rest(a[1..] + b, consumed);
    }
  }

  /** With no insert the splice is what stays. */
  lemma {:induction false} SpliceOfNothing(classes: seq<string>, consumed: set<string>)
    ensures Splice(classes, consumed, []) == Rest(classes, consumed)
  {
    if classes != [] {
      SpliceOfNothing(classes[1..], consumed);
    }
  }

  /** Something was taken out before `i`, so that the inserts stand before it; or there are none. */
  predicate Cleared(classes: seq<string>, consumed: set<string>, inserts: seq<string>, i: nat)
    requires i < |classes|
  {
    inserts == [] || exists k :: 0 <= k < i && classes[k] in consumed
  }

  ghost predicate HasClearGap(p: Pattern, classes: seq<string>, consumed: set<string>, inserts: seq<string>) {
    exists i: nat, j: nat :: Gap(p, classes, consumed, i, j) && i + 1 < j && Cleared(classes, consumed, inserts, i)
  }

  lemma WideGap(p: Pattern, classes: seq<string>, consumed: set<string>, i: nat, j: nat)
    requires NoMatch(p, classes) && Gap(p, classes, consumed, i, j)
    ensures i + 1 < j && classes[i + 1] in consumed
  {
    assert !MatchesAt(p, classes, i);
  }

  /** Splicing puts two classes of a pattern side by side, where there were none, exactly over a gap
      the inserts do not fall into. */
  lemma SpliceMatchIff(p: Pattern, classes: seq<string>, consumed: set<string>, inserts: seq<string>)
    requires NoMatch(p, classes) && NoHalf(p, inserts)
    ensures NoMatch(p, Splice(classes, consumed, inserts)) <==> !HasClearGap(p, classes, consumed, inserts)
  {
    if inserts == [] {
      SpliceOfNothing(classes, consumed);
      RestMatchIff(p, classes, consumed);
      if i: nat, j: nat :| Gap(p, classes, consumed, i, j) {
        WideGap(p, classes, consumed, i, j);
        assert Cleared(classes, consumed, inserts, i);
      }
    } else {
      var k := FirstConsumed(classes, consumed);
      if k == |classes| {
        RestOfKept(classes, consumed);
      } else {
        SpliceAroundIff(p, classes, consumed, inserts, k);
      }
    }
  }

  lemma SpliceAroundIff(p: Pattern, classes: seq<string>, consumed: set<string>,
                                           inserts: seq<string>, k: nat)
    requires NoMatch(p, classes) && NoHalf(p, inserts)
    requires inserts != [] && k < |classes|
    requires classes[k] in consumed && forall i | 0 <= i < k :: classes[i] !in consumed
    ensures NoMatch(p, Splice(classes, consumed, inserts)) <==> !HasClearGap(p, classes, consumed, inserts)
  {
    var tail := classes[k + 1..];
    SpliceInOrder(classes, consumed, inserts, k);
    NoMatchAround(p, classes[..k], inserts, Rest(tail, consumed));
    RestMatchIff(p, tail, consumed);
    forall i: nat | i < k ensures !MatchesAt(p, classes[..k], i) {
      assert !MatchesAt(p, classes, i);
    }
    ClearGapIff(p, classes, consumed, inserts, k);
  }

  /** The gaps that count are those behind the first class taken out. */
  lemma ClearGapIff(p: Pattern, classes: seq<string>, consumed: set<string>,
                                       inserts: seq<string>, k: nat)
    requires NoMatch(p, classes)
    requires inserts != [] && k < |classes|
    requires classes[k] in consumed && forall i | 0 <= i < k :: classes[i] !in consumed
    ensures HasClearGap(p, classes, consumed, inserts) <==> HasGap(p, classes[k + 1..], consumed)
  {
    var tail := classes[k + 1..];
    if i: nat, j: nat :| Gap(p, tail, consumed, i, j) {
      GapShift(p, classes, k + 1, consumed, i, j);
      IsClearGap(p, classes, consumed, inserts, i + k + 1, j + k + 1, k);
    }
    if i: nat, j: nat :| Gap(p, classes, consumed, i, j) && i + 1 < j && Cleared(classes, consumed, inserts, i) {
      var n :| 0 <= n < i && classes[n] in consumed;
      assert n >= k;
      GapOff(p, classes, k + 1, consumed, i, j);
    }
  }

  lemma IsClearGap(p: Pattern, classes: seq<string>, consumed: set<string>, inserts: seq<string>,
                                      i: nat, j: nat, k: nat)
    requires NoMatch(p, classes) && Gap(p, classes, consumed, i, j) && k < i && classes[k] in consumed
    ensures HasClearGap(p, classes, consumed, inserts)
  {
    WideGap(p, classes, consumed, i, j);
    assert Cleared(classes, consumed, inserts, i);
  }

  // ----------------------------------------------- classes and their words

  /** Inside a class nothing matches, and it ends and starts as its last and first words do. */
  lemma {:induction false} ClassEdges(p: Pattern, c: string)
    requires IsClass(c) && IsRun(p.first) && IsRun(p.second)
    ensures Words(c) != [] && NoMatch(p, Words(c))
    ensures EndsAs(c, p.first) <==> EndsAs(Words(c)[|Words(c)| - 1], p.first)
    ensures StartsAs(c, p.second) <==> StartsAs(Words(c)[0], p.second)
    decreases |c|
  {
    var head, rest := FirstOfClass(c);
    StartsBefore(head, rest, p.second);
    if rest == "" {
      assert c == head && Words(c) == [head];
    } else {
      ClassEdges(p, rest);
      NoMatchCons(p, head, Words(rest));
      EndsBehind(head, rest, p.first);
      if IsRun(head) {
        OtherStarts(rest, p.second);
      } else {
        WordEndsAs(head, p.first);
      }
      assert Words(c)[|Words(c)| - 1] == Words(rest)[|Words(rest)| - 1];
    }
  }

  /** The first word of a class and the rest of it: of two neighbours only one is a run. */
  lemma FirstOfClass(c: string) returns (head: string, rest: string)
    requires IsClass(c)
    ensures c == head + rest && IsWord(head) && Words(c) == [head] + Words(rest)
    ensures rest != "" ==> IsClass(rest) && !(IsRun(head) && IsRunChar(rest[0]))
  {
    if IsRunChar(c[0]) {
      head, rest := StartsWithRun(c);
      assert forall i | 0 <= i < |rest| :: rest[i] == c[|head| + i];
    } else {
      StartsWithOther(c);
      head, rest := [c[0]], c[1..];
      assert c == head + rest;
    }
  }

  lemma StartsBefore(head: string, rest: string, second: string)
    requires IsWord(head) && IsRun(second) && (rest != "" ==> !(IsRun(head) && IsRunChar(rest[0])))
    ensures StartsAs(head + rest, second) <==> StartsAs(head, second)
  {
    var c := head + rest;
    if |second| <= |head| {
      assert c[..|second|] == head[..|second|];
    } else if |second| <= |c| {
      var start := c[..|second|];
      assert start[0] == head[0] && start[|head|] == rest[0];
    }
  }

  lemma EndsBehind(head: string, rest: string, first: string)
    requires IsWord(head) && IsRun(first) && rest != "" && !(IsRun(head) && IsRunChar(rest[0]))
    ensures EndsAs(head + rest, first) <==> EndsAs(rest, first)
  {
    var c := head + rest;
    var n := |c| - |first|;
    if |first| <= |rest| {
      assert c[n..] == rest[|rest| - |first|..];
      assert rest[|rest| - |first|..] == first && |first| == |rest| ==> rest == first;
    } else if |first| <= |c| {
      var end := c[n..];
      assert end[|head| - n] == rest[0] && end[|head| - 1 - n] == head[|head| - 1];
    }
  }

  lemma OtherStarts(rest: string, second: string)
    requires IsClass(rest) && !IsRunChar(rest[0]) && IsRun(second)
    ensures !StartsAs(Words(rest)[0], second)
  {
    StartsWithOther(rest);
    assert [rest[0]][..1] == [rest[0]];
  }

  /** Side by side in the words of a class value is side by side in its classes. */
  lemma {:induction false} ClassMatchIff(p: Pattern, classes: seq<string>)
    requires AreClasses(classes) && IsRun(p.first) && IsRun(p.second)
    ensures NoMatch(p, WordsAll(classes)) <==> NoMatch(p, classes)
  {
    if classes != [] {
      var c, rest := classes[0], classes[1..];
      ClassMatchIff(p, rest);
      EdgeIff(p, c, rest);
      NoMatchConcat(p, Words(c), WordsAll(rest));
      NoMatchCons(p, c, rest);
      HeadAndTail(classes);
    }
  }

  lemma HeadAndTail(classes: seq<string>)
    requires classes != []
    ensures classes == [classes[0]] + classes[1..] && WordsAll(classes) == Words(classes[0]) + WordsAll(classes[1..])
  {
  }

  predicate Edge(p: Pattern, c: string, rest: seq<string>) {
    rest != [] && EndsAs(c, p.first) && StartsAs(rest[0], p.second)
  }

  lemma EdgeIff(p: Pattern, c: string, rest: seq<string>)
    requires IsClass(c) && AreClasses(rest) && IsRun(p.first) && IsRun(p.second)
    ensures Words(c) != [] && NoMatch(p, Words(c))
    ensures Edge(p, Words(c)[|Words(c)| - 1], WordsAll(rest)) <==> Edge(p, c, rest)
  {
    ClassEdges(p, c);
    StartsAll(p, rest);
  }

  lemma StartsAll(p: Pattern, classes: seq<string>)
    requires AreClasses(classes) && IsRun(p.first) && IsRun(p.second)
    ensures WordsAll(classes) == [] <==> classes == []
    ensures classes != [] ==> (StartsAs(WordsAll(classes)[0], p.second) <==> StartsAs(classes[0], p.second))
  {
    if classes != [] {
      ClassEdges(p, classes[0]);
    }
  }

  lemma NoMatchConcat(p: Pattern, a: seq<string>, b: seq<string>)
    requires a != []
    ensures NoMatch(p, a + b) <==> NoMatch(p, a) && NoMatch(p, b) && !Edge(p, a[|a| - 1], b)
  {
    var all := a + b;
    if NoMatch(p, all) {
      forall i: nat | i < |a| ensures !MatchesAt(p, a, i) {
        assert !MatchesAt(p, all, i);
      }
      forall i: nat | i < |b| ensures !MatchesAt(p, b, i) {
        assert !MatchesAt(p, all, |a| + i);
      }
      assert !MatchesAt(p, all, |a| - 1);
    } else {
      var i: nat :| i < |all| && MatchesAt(p, all, i);
      assert i + 1 < |a| ==> MatchesAt(p, a, i);
      assert i >= |a| ==> MatchesAt(p, b, i - |a|);
    }
  }

  // ------------------------------------------------------- one value

  /** A class value that leaves something for a pattern: its two halves stay, apart, all the classes
      between them go, and the tokens that come in stand before them or are none. */
  ghost predicate Leaves(table: seq<Mapping>, p: Pattern, value: string) {
    var present := ClassSet(Split(value));
    HasClearGap(p, Split(value), Consumed(table, present), Inserts(table, present))
  }

  lemma InsertsAreNoHalf(table: seq<Mapping>, present: set<string>, p: Pattern)
    requires GoodTable(table) && GoodPattern(p)
    ensures NoHalf(p, Inserts(table, present))
  {
    var inserts := Inserts(table, present);
    InsertsAreNames(table, present);
    forall i | 0 <= i < |inserts| ensures !EndsAs(inserts[i], p.first) && !StartsAs(inserts[i], p.second) {
      WordEndsAs(inserts[i], p.first);
      if StartsAs(inserts[i], p.second) {
        StartsDark(inserts[i], p.second);
      }
    }
  }

  /** After the set-based pass a class value in which the pattern did not match matches it exactly when
      it left something. */
  lemma ValueMatchIff(table: seq<Mapping>, p: Pattern, value: string)
    requires GoodTable(table) && GoodPattern(p) && NoMatch(p, Words(value))
    ensures NoMatch(p, Words(TransformedValue(table, value).0)) <==> !Leaves(table, p, value)
  {
    var classes := Split(value);
    var present := ClassSet(classes);
    var consumed, inserts := Consumed(table, present), Inserts(table, present);
    var out := Transformed(table, classes).0;
    WordsOfSplit(value);
    ClassMatchIff(p, classes);
    InsertsAreNoHalf(table, present, p);
    SpliceMatchIff(p, classes, consumed, inserts);
    TransformedClasses(table, classes);
    ClassMatchIff(p, out);
    WordsOfJoin(out);
    SpliceNothing(classes, inserts);
  }

  // ------------------------------------------------------ whole texts

  lemma QuoteIsNoHalf(p: Pattern)
    requires IsRun(p.first) && IsRun(p.second)
    ensures NoHalf(p, ["\""])
  {
    var q := "\"";
    assert !IsRunChar(q[0]) && p.first[0] != q[0] && p.second[0] != q[0];
    WordEndsAs(q, p.first);
    assert q[..1] == q;
    assert !EndsAs(q, p.first) && !StartsAs(q, p.second);
  }

  /** No pattern matches across the quotes of an attribute. */
  lemma AttrMatchIff(p: Pattern, a: Attribute)
    requires IsRun(p.first) && IsRun(p.second)
    ensures NoMatch(p, Words(Whole(a))) <==>
            NoMatch(p, Words(a.lead + "class=")) && NoMatch(p, Words(a.value)) && NoMatch(p, Words(a.behind))
  {
    var l, q, v, b := Words(a.lead + "class="), ["\""], Words(a.value), Words(a.behind);
    WordsOfAttr(a);
    QuoteIsNoHalf(p);
    NoMatchAround(p, l + q + v, q, b);
    NoMatchAround(p, l, q, v);
  }

  /** Where a pattern matched nowhere, it matches after the set-based pass exactly when some class
      value of the text left something for it. */
  lemma {:induction false} TextMatchIff(table: seq<Mapping>, p: Pattern, text: string)
    requires GoodTable(table) && GoodPattern(p) && NoMatch(p, Words(text))
    ensures NoMatch(p, Words(AttrPass(table, text).0)) <==> forall v | v in Values(text) :: !Leaves(table, p, v)
    decreases |text|
  {
    if HasAttr(text) {
      var a := Cut(text);
      var out := Attribute(a.lead, TransformedValue(table, a.value).0, AttrPass(table, a.behind).0);
      AttrMatchIff(p, a);
      AttrMatchIff(p, out);
      ValueMatchIff(table, p, a.value);
      TextMatchIff(table, p, a.behind);
      ValuesOf(text);
    }
  }

  lemma ValuesOf(text: string)
    requires HasAttr(text)
    ensures forall v :: v in Values(text) <==> v == Cut(text).value || v in Values(Cut(text).behind)
  {
  }

  /** Some class value of the text leaves something for some pattern. */
  ghost predicate TextLeaves(table: seq<Mapping>, text: string) {
    exists k, v :: 0 <= k < |Patterns(table)| && v in Values(text) && Leaves(table, Patterns(table)[k], v)
  }

  lemma AttrPassCleanIff(table: seq<Mapping>, text: string)
    requires GoodTable(table) && Clean(Patterns(table), text)
    ensures Clean(Patterns(table), AttrPass(table, text).0) <==> !TextLeaves(table, text)
  {
    var ps := Patterns(table);
    PatternsAreGood(table);
    forall k | 0 <= k < |ps|
      ensures NoMatch(ps[k], Words(AttrPass(table, text).0)) <==>
              forall v | v in Values(text) :: !Leaves(table, ps[k], v)
    {
      assert GoodPattern(ps[k]) && NoMatch(ps[k], Words(text));
      TextMatchIff(table, ps[k], text);
    }
  }

  /** A second pass finds something exactly when a pattern matches somewhere in what the first left. */
  lemma SecondPassFindsIff(table: seq<Mapping>, text: string)
    requires GoodTable(table)
    ensures Processed(table, Processed(table, text).0).1 == 0 <==> Clean(Patterns(table), Processed(table, text).0)
  {
    var out := Processed(table, text).0;
    PatternsAreGood(table);
    CleanIff(Patterns(table), out);
    AttrPassIdempotent(table, LiteralText(Patterns(table), text).0);
  }

  /** One pass is the last exactly when, in the text the literal pass leaves, no class value holds the
      two halves of a pattern apart by nothing but classes that are taken out. */
  lemma OnePassIsEnoughIff(table: seq<Mapping>, text: string)
    requires GoodTable(table)
    ensures Processed(table, Processed(table, text).0).1 == 0 <==>
            !TextLeaves(table, LiteralText(Patterns(table), text).0)
  {
    PatternsAreGood(table);
    LiteralPassCleans(Patterns(table), text);
    AttrPassCleanIff(table, LiteralText(Patterns(table), text).0);
    SecondPassFindsIff(table, text);
  }

  /** A second pass can find something only where the first took a class out of an attribute: when the
      set-based pass found nothing, one pass is all it takes. */
  lemma OnePassIsEnough(table: seq<Mapping>, text: string)
    requires GoodTable(table) && AttrPass(table, LiteralText(Patterns(table), text).0).1 == 0
    ensures var out := Processed(table, text).0; Processed(table, out) == (out, 0)
  {
    var work := LiteralText(Patterns(table), text).0;
    LiteralPassIdempotent(table, text);
    AttrPassLowers(table, work);
    AttrPassIdempotent(table, work);
  }
}
