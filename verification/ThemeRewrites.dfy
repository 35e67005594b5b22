/**
 What the two passes of the theme codemod write (scripts/theme_codemod.py, `literal_pass`, `transform`,
 `process`), said of the text itself: the pieces that are kept, and what stands between them.
 */
module ThemeRewrites {
  import opened ThemeText
  import opened ThemeTable
  import opened ThemeLiteral
  import opened ThemeCodemod

  // ---------------------------------------------------- the literal pass

  /** The characters of `[\w:/-]`. */
  predicate Inside(c: char) {
    'a' <= c <= 'z' || 'A' <= c <= 'Z' || '0' <= c <= '9' || c in "_:/-"
  }

  /** A text with pairs of the pattern in it: `kept` around them, `gaps` inside them. */
  function WithPairs(p: Pattern, kept: seq<string>, gaps: seq<string>): string
    requires |kept| == |gaps| + 1
  {
    if gaps == [] then kept[0]
    else kept[0] + (p.first + (gaps[0] + (p.second + WithPairs(p, kept[1..], gaps[1..]))))
  }

  /** The same text with `token` for each of them. */
  function WithToken(token: string, kept: seq<string>): string
    requires kept != []
  {
    if |kept| == 1 then kept[0] else kept[0] + (token + WithToken(token, kept[1..]))
  }

  /** The `i`-th pair stands behind no character of a class, has white space inside, and has none of a
      class but a colon behind it. With `open` unset a class ends where the text starts. */
  predicate GuardedAt(kept: seq<string>, gaps: seq<string>, open: bool, i: nat)
    requires |kept| == |gaps| + 1 && i < |gaps|
  {
    && gaps[i] != "" && AllSpace(gaps[i])
    && (if kept[i] == "" then i == 0 && open else !Inside(kept[i][|kept[i]| - 1]))
    && MayFollow(kept[i + 1])
  }

  predicate MayFollow(s: string) {
    s == "" || s[0] == ':' || !Inside(s[0])
  }

  predicate Guarded(kept: seq<string>, gaps: seq<string>, open: bool)
    requires |kept| == |gaps| + 1
  {
    forall i: nat | i < |gaps| :: GuardedAt(kept, gaps, open, i)
  }

  lemma GuardedFirst(gap: string, kept: seq<string>, gaps: seq<string>)
    requires |kept| == |gaps| + 1 && Guarded(kept, gaps, false) && gap != "" && AllSpace(gap) && MayFollow(kept[0])
    ensures Guarded([""] + kept, [gap] + gaps, true)
  {
    forall i: nat | i < |gaps| + 1 ensures GuardedAt([""] + kept, [gap] + gaps, true, i) {
      if i > 0 { assert GuardedAt(kept, gaps, false, i - 1); }
    }
  }

  lemma GuardedLonger(c: char, kept: seq<string>, gaps: seq<string>, open: bool)
    requires |kept| == |gaps| + 1 && Guarded(kept, gaps, !Inside(c))
    ensures Guarded(kept[0 := [c] + kept[0]], gaps, open)
  {
    var more := kept[0 := [c] + kept[0]];
    forall i: nat | i < |gaps| ensures GuardedAt(more, gaps, open, i) {
      assert GuardedAt(kept, gaps, !Inside(c), i);
    }
  }

  lemma PairInFront(p: Pattern, gap: string, kept: seq<string>, gaps: seq<string>)
    requires |kept| == |gaps| + 1
    ensures WithPairs(p, [""] + kept, [gap] + gaps) == p.first + (gap + (p.second + WithPairs(p, kept, gaps)))
  {
    assert ([""] + kept)[1..] == kept && ([gap] + gaps)[1..] == gaps;
    NothingInFront(p.first + (gap + (p.second + WithPairs(p, kept, gaps))));
  }

  lemma TokenInFront(token: string, kept: seq<string>)
    requires kept != []
    ensures WithToken(token, [""] + kept) == token + WithToken(token, kept)
  {
    assert ([""] + kept)[1..] == kept;
    NothingInFront(token + WithToken(token, kept));
  }

  lemma NothingInFront(s: string)
    ensures "" + s == s
  {
  }

  lemma CharInFront(p: Pattern, c: char, kept: seq<string>, gaps: seq<string>)
    requires |kept| == |gaps| + 1
    ensures WithPairs(p, kept[0 := [c] + kept[0]], gaps) == [c] + WithPairs(p, kept, gaps)
  {
    var more := kept[0 := [c] + kept[0]];
    assert more[1..] == kept[1..];
    if gaps != [] {
      OneInFront(c, kept[0], p.first + (gaps[0] + (p.second + WithPairs(p, kept[1..], gaps[1..]))));
    }
  }

  lemma CharBeforeTokens(token: string, c: char, kept: seq<string>)
    requires kept != []
    ensures WithToken(token, kept[0 := [c] + kept[0]]) == [c] + WithToken(token, kept)
  {
    var more := kept[0 := [c] + kept[0]];
    assert more[1..] == kept[1..];
    if |kept| > 1 {
      OneInFront(c, kept[0], token + WithToken(token, kept[1..]));
    }
  }

  lemma OneInFront(c: char, a: string, b: string)
    ensures [c] + a + b == [c] + (a + b)
  {
  }

  /** The text from a match on, up to what stands behind it. */
  lemma MatchIs(p: Pattern, text: string) returns (gap: string, rest: string)
    requires MatchLength(p, text) > 0
    ensures text == p.first + (gap + (p.second + rest)) && text[MatchLength(p, text)..] == rest && |rest| < |text|
    ensures gap != "" && AllSpace(gap) && MayFollow(rest)
  {
    var behind := text[|p.first|..];
    var n := SpaceLength(behind);
    gap, rest := behind[..n], behind[n..][|p.second|..];
    PrefixAndRest(p.first, text);
    PrefixAndRest(gap, behind);
    PrefixAndRest(p.second, behind[n..]);
  }

  lemma PrefixAndRest(a: string, s: string)
    requires |a| <= |s| && s[..|a|] == a
    ensures s == a + s[|a|..]
  {
  }

  /** The substitution: the text is cut at guarded pairs, one for each hit, and each is replaced by the
      replacement while every character between them stays. */
  lemma {:induction false} SubTextIs(p: Pattern, text: string, open: bool)
    returns (kept: seq<string>, gaps: seq<string>)
    ensures |kept| == |gaps| + 1 && Guarded(kept, gaps, open) && text == WithPairs(p, kept, gaps)
    ensures SubText(p, text, open).0 == WithToken(Join(p.replacement), kept) && SubText(p, text, open).1 == |gaps|
    ensures kept[0] != "" ==> text != "" && kept[0][0] == text[0]
    decreases |text|
  {
    if text == "" {
      kept, gaps := [""], [];
    } else if open && MatchLength(p, text) > 0 {
      var gap, rest := MatchIs(p, text);
      kept, gaps := SubTextIs(p, rest, false);
      GuardedFirst(gap, kept, gaps);
      PairInFront(p, gap, kept, gaps);
      TokenInFront(Join(p.replacement), kept);
      kept, gaps := [""] + kept, [gap] + gaps;
    } else {
      kept, gaps := SubTextIs(p, text[1..], !IsRunChar(text[0]));
      SubTextSkips(p, text, open);
      GuardedLonger(text[0], kept, gaps, open);
      CharInFront(p, text[0], kept, gaps);
      CharBeforeTokens(Join(p.replacement), text[0], kept);
      kept := kept[0 := [text[0]] + kept[0]];
    }
  }

  lemma SubTextSkips(p: Pattern, text: string, open: bool)
    requires text != "" && !(open && MatchLength(p, text) > 0)
    ensures var rest := SubText(p, text[1..], !IsRunChar(text[0]));
            SubText(p, text, open).0 == [text[0]] + rest.0 && SubText(p, text, open).1 == rest.1
    ensures text == [text[0]] + text[1..]
  {
  }

  /** The patterns: light and dark of each mapping in turn, then the two that have a dark half only. */
  lemma PatternsAre(table: seq<Mapping>)
    ensures |Patterns(table)| == |table| + 2
    ensures forall i | 0 <= i < |table| ::
              Patterns(table)[i] == Pattern(table[i].light, table[i].dark, [table[i].token])
    ensures Patterns(table)[|table|]
            == Pattern("dark:bg-gray-700", "dark:text-white", ["bg-input", "text-foreground"])
    ensures Patterns(table)[|table| + 1]
            == Pattern("font-medium", "dark:text-white", ["font-medium", "text-foreground"])
  {
  }

  // -------------------------------------------------------- a class value

  /** Joining puts one blank between two lists. */
  lemma {:induction false} JoinIs(a: seq<string>, b: seq<string>)
    requires a != [] && b != []
    ensures Join(a + b) == Join(a) + " " + Join(b)
    ensures |a| == 1 ==> Join(a) == a[0]
  {
    var all := a + b;
    if |a| == 1 {
      assert all[1..] == b && a[0] + (" " + Join(b)) == a[0] + " " + Join(b);
    } else {
      assert all[1..] == a[1..] + b;
      JoinIs(a[1..], b);
      assert a[0] + (" " + (Join(a[1..]) + " " + Join(b))) == a[0] + (" " + Join(a[1..])) + " " + Join(b);
    }
  }

  /** What is taken out is taken out one by one. */
  lemma {:induction false} RestIs(a: seq<string>, b: seq<string>, consumed: set<string>)
    ensures Rest(a + b, consumed) == Rest(a, consumed) + Rest(b, consumed)
    ensures |a| == 1 ==> Rest(a, consumed) == if a[0] in consumed then [] else a
  {
    if a == [] {
      assert a + b == b;
    } else {
      assert (a + b)[0] == a[0] && (a + b)[1..] == a[1..] + b;
      RestIs(a[1..], b, consumed);
      var head := if a[0] in consumed then [] else [a[0]];
      assert head + (Rest(a[1..], consumed) + Rest(b, consumed)) == head + Rest(a[1..], consumed) + Rest(b, consumed);
    }
  }

  predicate FoundAt(table: seq<Mapping>, present: set<string>, i: nat) {
    i < |table| && table[i].light in present && table[i].dark in present
  }

  /** The hits are counted by mapping. */
  lemma {:induction false} HitsCount(table: seq<Mapping>, present: set<string>)
    ensures Hits(table, present) == |set i: nat | i < |table| && FoundAt(table, present, i)|
  {
    var all := set i: nat | i < |table| && FoundAt(table, present, i);
    if table == [] {
      assert all == {};
    } else {
      var n := |table| - 1;
      HitsCount(table[..n], present);
      var before := set i: nat | i < n && FoundAt(table[..n], present, i);
      assert forall i: nat | i < n :: FoundAt(table[..n], present, i) <==> FoundAt(table, present, i);
      assert all == before + (if FoundAt(table, present, n) then {n} else {});
    }
  }

  /** `i` is the first pair found that gives the token `t`. */
  predicate FirstFor(table: seq<Mapping>, present: set<string>, t: string, i: nat) {
    && FoundAt(table, present, i) && table[i].token == t
    && forall j: nat | j < i && FoundAt(table, present, j) :: table[j].token != t
  }

  /** The inserts stand in the order of the table, each where its first pair stands there. */
  lemma {:induction false} InsertsInOrder(table: seq<Mapping>, present: set<string>) returns (from: seq<nat>)
    ensures |from| == |Inserts(table, present)|
    ensures forall k | 0 <= k < |from| :: FirstFor(table, present, Inserts(table, present)[k], from[k])
    ensures forall k, l | 0 <= k < l < |from| :: from[k] < from[l]
  {
    if table == [] {
      from := [];
    } else {
      var n := |table| - 1;
      from := InsertsInOrder(table[..n], present);
      InsertsAre(table[..n], present);
      var before, m := Inserts(table[..n], present), table[n];
      forall k | 0 <= k < |from| ensures FirstFor(table, present, before[k], from[k]) {
        FirstForLonger(table, present, before[k], from[k]);
      }
      if Present(m, present) && m.token !in before && m.token !in present {
        forall j: nat | j < n && FoundAt(table, present, j) ensures table[j].token != m.token {
          assert table[..n][j] == table[j] && table[j] in table[..n];
        }
        from := from + [n];
      }
    }
  }

  lemma FirstForLonger(table: seq<Mapping>, present: set<string>, t: string, i: nat)
    requires table != [] && FirstFor(table[..|table| - 1], present, t, i)
    ensures FirstFor(table, present, t, i)
  {
    forall j: nat | j < i && FoundAt(table, present, j) ensures table[j].token != t {
      assert FoundAt(table[..|table| - 1], present, j);
    }
  }

  /** A class value in which no pair is found stays as it is written. */
  lemma NoPairStays(table: seq<Mapping>, value: string)
    requires forall i: nat | i < |table| :: !FoundAt(table, ClassSet(Split(value)), i)
    ensures TransformedValue(table, value) == (value, 0)
  {
    var present := ClassSet(Split(value));
    ConsumedIs(table, present);
    forall m | m in table ensures !Present(m, present) {
      var i: nat :| i < |table| && table[i] == m;
      assert !FoundAt(table, present, i);
    }
  }

  /** In any other the classes come out in their order, joined by one blank, without the halves of the
      pairs found, and with the inserts where the first half stood. */
  lemma PairsAreReplaced(table: seq<Mapping>, value: string, k: nat)
    requires var classes := Split(value);
             var consumed := Consumed(table, ClassSet(classes));
             k < |classes| && classes[k] in consumed && forall i | 0 <= i < k :: classes[i] !in consumed
    ensures var classes := Split(value);
            var consumed, inserts := Consumed(table, ClassSet(classes)), Inserts(table, ClassSet(classes));
            TransformedValue(table, value).0 == Join(classes[..k] + inserts + Rest(classes[k + 1..], consumed))
  {
    var classes := Split(value);
    SpliceInOrder(classes, Consumed(table, ClassSet(classes)), Inserts(table, ClassSet(classes)), k);
  }

  // ------------------------------------------------- the class attributes

  /** No opening `class="` starts inside `lead`, if one stands behind it. */
  predicate NoOpening(lead: string) {
    forall k | 0 <= k < |lead| :: !("class=\"" <= (lead + "class=\"")[k..])
  }

  /** Each class attribute in turn has its value transformed, and everything around the values stays. */
  lemma AttrPassIs(table: seq<Mapping>, lead: string, value: string, behind: string)
    requires NoOpening(lead) && '"' !in value
    ensures var text := lead + ("class=\"" + (value + ("\"" + behind)));
            var (now, n) := TransformedValue(table, value);
            var (rest, m) := AttrPass(table, behind);
            && AttrPass(table, text).0 == lead + ("class=\"" + (now + ("\"" + rest)))
            && AttrPass(table, text).1 == n + m
  {
    var a := Attribute(lead, value, behind);
    assert LeadFree(lead) by {
      forall k | 0 <= k < |lead| ensures !Opens((lead + OPEN)[k..]) {
        assert !("class=\"" <= (lead + "class=\"")[k..]);
      }
    }
    CutIs(a);
  }

  /** A text in which no quote closes an opening stays as it is. */
  lemma NoAttributeStays(table: seq<Mapping>, text: string)
    requires forall k | 0 <= k < |text| :: "class=\"" <= text[k..] ==> '"' !in text[k + 7..]
    ensures AttrPass(table, text) == (text, 0)
  {
    if HasAttr(text) {
      ClosedOpening(text, NextAttr(text));
    }
  }

  lemma ClosedOpening(text: string, n: nat)
    requires n < |text| && AttrAt(text[n..])
    ensures "class=\"" <= text[n..] && '"' in text[n + 7..]
  {
    assert text[n..][7..] == text[n + 7..];
  }
}
