/**
 Class values that need a second pass of the theme codemod (scripts/theme_codemod.py, `process` and
 `_DARK_ONLY_PAIRS`), under the real table.
 */
module ThemeExamples {
  import opened ThemeText
  import opened ThemeTable
  import opened ThemeLiteral
  import opened ThemeCodemod
  import opened ThemeSecondPass

  /** A file that is one class attribute: `class="..."`. */
  function Lone(classes: seq<string>): string {
    Whole(Attribute("", Join(classes), ""))
  }

  predicate NoQuote(classes: seq<string>) {
    forall c | c in classes :: '"' !in c
  }

  lemma CutOfLone(classes: seq<string>)
    requires NoQuote(classes)
    ensures HasAttr(Lone(classes)) && Cut(Lone(classes)) == Attribute("", Join(classes), "") && !HasAttr("")
  {
    JoinKeeps(classes);
    CutIs(Attribute("", Join(classes), ""));
  }

  /** In such a file a pattern matches where two of its classes do. */
  lemma LoneMatchIff(p: Pattern, classes: seq<string>)
    requires GoodPattern(p) && AreClasses(classes)
    ensures NoMatch(p, Words(Lone(classes))) <==> NoMatch(p, classes)
  {
    AttrMatchIff(p, Attribute("", Join(classes), ""));
    LeadHasNoPair(p);
    WordsOfJoin(classes);
    ClassMatchIff(p, classes);
  }

  lemma LeadHasNoPair(p: Pattern)
    requires GoodPattern(p)
    ensures NoMatch(p, Words("" + "class=")) && NoMatch(p, Words(""))
  {
    assert "" + "class=" == "class=" && "class="[0] == 'c';
    ClassEdges(p, "class=");
  }

  lemma LoneTransformed(table: seq<Mapping>, classes: seq<string>)
    requires AreClasses(classes) && NoQuote(classes) && Consumed(table, ClassSet(classes)) != {}
    ensures AttrPass(table, Lone(classes)).0 == Lone(Transformed(table, classes).0)
  {
    CutOfLone(classes);
    SplitJoin(classes);
    assert AttrPass(table, "") == ("", 0);
  }

  // A card: `left` ends in `font-medium` and `right` starts in `dark:text-white`.

  function Card(left: string, right: string): seq<string> {
    ["bg-white", left, "dark:bg-gray-800", right]
  }

  predicate IsCard(left: string, right: string) {
    && IsClass(left) && EndsAs(left, "font-medium") && !IsDark(left) && '"' !in left
    && IsClass(right) && StartsAs(right, "dark:text-white") && '"' !in right
  }

  /** Of the pairs of the table, only `bg-white` with `dark:bg-gray-800` is in the card. */
  predicate OneIn(table: seq<Mapping>, classes: seq<string>) {
    && WHITE_CARD in table
    && forall i | 0 <= i < |table| :: Present(table[i], ClassSet(classes)) ==> table[i] == WHITE_CARD
  }

  lemma CardIsClasses(left: string, right: string)
    requires IsCard(left, right)
    ensures AreClasses(Card(left, right)) && NoQuote(Card(left, right))
    ensures AreClasses(["bg-surface", left, right]) && NoQuote(["bg-surface", left, right])
  {
    SurfaceNames();
    DarkSurfaceNames();
    RunIsClass("bg-white");
    RunIsClass("dark:bg-gray-800");
    RunIsClass("bg-surface");
    NoQuoteInRun("bg-white");
    NoQuoteInRun("dark:bg-gray-800");
    NoQuoteInRun("bg-surface");
  }

  lemma NoQuoteInRun(s: string)
    requires IsRun(s)
    ensures '"' !in s
  {
  }

  lemma CardHasNoPair(table: seq<Mapping>, k: nat, left: string, right: string)
    requires GoodTable(table) && k < |Patterns(table)| && IsCard(left, right)
    ensures NoMatch(Patterns(table)[k], Card(left, right))
  {
    var p, c := Patterns(table)[k], Card(left, right);
    PatternsAreGood(table);
    if StartsAs(left, p.second) { StartsDark(left, p.second); }
    if k < |table| {
      assert GoodMapping(table[k]) && p == Pattern(table[k].light, table[k].dark, [table[k].token]);
      LightsAreElsewhere(p, left);
    } else {
      assert p == DARK_ONLY[k - |table|];
      DarkOnlyElsewhere(k - |table|, left);
    }
    assert !MatchesAt(p, c, 0) && !MatchesAt(p, c, 1) && !MatchesAt(p, c, 2);
  }

  lemma EndsTheSame(s: string, a: string, b: string)
    requires EndsAs(s, a) && EndsAs(s, b) && |a| >= 2 && |b| >= 2
    ensures a[|a| - 1] == b[|b| - 1] && a[|a| - 2] == b[|b| - 2]
  {
    assert s[|s| - |a|..][|a| - 1] == s[|s| - 1] && s[|s| - |a|..][|a| - 2] == s[|s| - 2];
    assert s[|s| - |b|..][|b| - 1] == s[|s| - 1] && s[|s| - |b|..][|b| - 2] == s[|s| - 2];
  }

  lemma LightsAreElsewhere(p: Pattern, left: string)
    requires GoodPattern(p) && LightLike(p.first) && !IsDark(p.first) && EndsAs(left, "font-medium")
    ensures !EndsAs(left, p.first) && !EndsAs("dark:bg-gray-800", p.first)
  {
    DarkSurfaceNames();
    EndsInUm(left, p.first);
    WordEndsAs("dark:bg-gray-800", p.first);
    assert IsDark("dark:bg-gray-800");
  }

  lemma EndsInUm(left: string, first: string)
    requires EndsAs(left, "font-medium") && LightLike(first)
    ensures !EndsAs(left, first)
  {
    assert EndsIn("font-medium", 'u', 'm');
    if EndsAs(left, first) { EndsTheSame(left, "font-medium", first); }
  }

  lemma DarkOnlyElsewhere(d: nat, left: string)
    requires d < |DARK_ONLY| && EndsAs(left, "font-medium")
    ensures !EndsAs(left, DARK_ONLY[d].first) || !StartsAs("dark:bg-gray-800", DARK_ONLY[d].second)
    ensures !EndsAs("dark:bg-gray-800", DARK_ONLY[d].first)
  {
    DarkOnlyNames();
    DarkSurfaceNames();
    WordEndsAs("dark:bg-gray-800", DARK_ONLY[d].first);
    assert "dark:bg-gray-800"[13] == '8' && DARK_ONLY[0].first[13] == '7' && DARK_ONLY[1].first[0] == 'f';
    var n := |"dark:text-white"|;
    assert n <= |"dark:bg-gray-800"| && "dark:bg-gray-800"[..n][5] == 'b' && "dark:text-white"[5] == 't';
  }

  lemma CardIsClean(table: seq<Mapping>, left: string, right: string)
    requires GoodTable(table) && IsCard(left, right)
    ensures Clean(Patterns(table), Lone(Card(left, right)))
  {
    PatternsAreGood(table);
    CardIsClasses(left, right);
    forall k | 0 <= k < |Patterns(table)| ensures NoMatch(Patterns(table)[k], Words(Lone(Card(left, right)))) {
      LoneMatchIff(Patterns(table)[k], Card(left, right));
      CardHasNoPair(table, k, left, right);
    }
  }

  lemma CardConsumed(table: seq<Mapping>, classes: seq<string>)
    requires OneIn(table, classes) && "bg-white" in classes && "dark:bg-gray-800" in classes
    ensures Consumed(table, ClassSet(classes)) == {"bg-white", "dark:bg-gray-800"}
  {
    var present := ClassSet(classes);
    ConsumedIs(table, present);
    forall m | m in table && Present(m, present) ensures m == WHITE_CARD {
      var i :| 0 <= i < |table| && table[i] == m;
    }
    assert Present(WHITE_CARD, present);
  }

  lemma {:induction false} CardInserts(table: seq<Mapping>, present: set<string>)
    requires forall i | 0 <= i < |table| :: Present(table[i], present) ==> table[i] == WHITE_CARD
    requires Present(WHITE_CARD, present) && "bg-surface" !in present
    ensures Inserts(table, present) == if WHITE_CARD in table then ["bg-surface"] else []
  {
    if table != [] {
      var n := |table| - 1;
      assert table == table[..n] + [table[n]];
      CardInserts(table[..n], present);
    }
  }

  lemma CardSplice(left: string, right: string)
    requires var consumed := {"bg-white", "dark:bg-gray-800"}; left !in consumed && right !in consumed
    ensures Splice(Card(left, right), {"bg-white", "dark:bg-gray-800"}, ["bg-surface"]) == ["bg-surface", left, right]
  {
    var classes, consumed := Card(left, right), {"bg-white", "dark:bg-gray-800"};
    var rest := classes[1..];
    assert rest == [left, "dark:bg-gray-800", right];
    assert rest[1..] == ["dark:bg-gray-800", right];
    assert rest[1..][1..] == [right];
    assert rest[1..][1..][1..] == [];
    assert Rest(rest[1..][1..], consumed) == [right];
    assert Rest(rest[1..], consumed) == [right];
    assert Rest(rest, consumed) == [left, right];
  }

  lemma LeftStays(left: string)
    requires EndsAs(left, "font-medium")
    ensures left != "bg-white" && left != "dark:bg-gray-800" && left != "bg-surface"
  {
    assert left[|left| - |"font-medium"|..][|"font-medium"| - 1] == left[|left| - 1];
    assert "font-medium"[10] == 'm' && "bg-white"[7] == 'e' && "dark:bg-gray-800"[15] == '0' && "bg-surface"[9] == 'e';
  }

  lemma RightStays(right: string)
    requires StartsAs(right, "dark:text-white")
    ensures right != "bg-white" && right != "dark:bg-gray-800" && right != "bg-surface"
  {
    assert right[..|"dark:text-white"|][5] == right[5];
    assert "dark:text-white"[5] == 't' && "bg-white"[5] == 'i';
    assert "dark:bg-gray-800"[5] == 'b' && "bg-surface"[5] == 'r';
  }

  /** What the set-based pass makes of a card. */
  lemma CardTransformed(table: seq<Mapping>, left: string, right: string)
    requires IsCard(left, right) && OneIn(table, Card(left, right))
    ensures Consumed(table, ClassSet(Card(left, right))) != {}
    ensures Transformed(table, Card(left, right)).0 == ["bg-surface", left, right]
  {
    var classes := Card(left, right);
    LeftStays(left);
    RightStays(right);
    assert classes[0] in classes && classes[2] in classes;
    CardConsumed(table, classes);
    CardInserts(table, ClassSet(classes));
    CardSplice(left, right);
  }

  /** One pass over a card takes the pair out and puts its sides together; the next finds them. */
  lemma CardTakesTwoPasses(table: seq<Mapping>, left: string, right: string)
    requires GoodTable(table) && IsCard(left, right) && OneIn(table, Card(left, right))
    ensures var out := Processed(table, Lone(Card(left, right))).0;
            out == Lone(["bg-surface", left, right]) && Processed(table, out).1 > 0
  {
    var classes := Card(left, right);
    PatternsAreGood(table);
    CardIsClasses(left, right);
    CardIsClean(table, left, right);
    CleanIff(Patterns(table), Lone(classes));
    CardTransformed(table, left, right);
    LoneTransformed(table, classes);
    SidesMatch(table, left, right);
    SecondPassFindsIff(table, Lone(classes));
  }

  lemma SidesMatch(table: seq<Mapping>, left: string, right: string)
    requires IsCard(left, right)
    ensures !Clean(Patterns(table), Lone(["bg-surface", left, right]))
  {
    var out, k := ["bg-surface", left, right], |table| + 1;
    CardIsClasses(left, right);
    DarkOnlyIsGood();
    assert Patterns(table)[k] == DARK_ONLY[1];
    assert MatchesAt(DARK_ONLY[1], out, 1);
    LoneMatchIff(DARK_ONLY[1], out);
    assert !NoMatch(Patterns(table)[k], Words(Lone(out)));
  }

  lemma PlainIsCard()
    ensures IsCard("font-medium", "dark:text-white")
  {
    var left, right := "font-medium", "dark:text-white";
    DarkOnlyNames();
    RunIsClass(left);
    RunIsClass(right);
    NoQuoteInRun(left);
    NoQuoteInRun(right);
    assert left[0..] == left && right[..|right|] == right && left[0] == 'f';
  }

  lemma PlainIsOne(table: seq<Mapping>)
    requires OnlyCard(table) && WHITE_CARD in table
    ensures OneIn(table, Card("font-medium", "dark:text-white"))
  {
    assert ClassSet(Card("font-medium", "dark:text-white")) == CARD;
  }

  const GLUED_LEFT := "x?'font-medium"
  const GLUED_RIGHT := "dark:text-white':''"

  lemma GluedLeft()
    ensures IsClass(GLUED_LEFT) && EndsAs(GLUED_LEFT, "font-medium") && !IsDark(GLUED_LEFT) && '"' !in GLUED_LEFT
  {
    assert GLUED_LEFT[3..] == "font-medium" && GLUED_LEFT[2] == '\'' && GLUED_LEFT[0] == 'x';
  }

  lemma GluedRight()
    ensures IsClass(GLUED_RIGHT) && StartsAs(GLUED_RIGHT, "dark:text-white") && '"' !in GLUED_RIGHT
  {
    assert GLUED_RIGHT[..15] == "dark:text-white" && GLUED_RIGHT[15] == '\'';
  }

  lemma GluedIsOne(table: seq<Mapping>)
    requires GoodTable(table) && OnlyCard(table) && WHITE_CARD in table
    ensures OneIn(table, Card(GLUED_LEFT, GLUED_RIGHT))
  {
    forall i | 0 <= i < |table| && Present(table[i], ClassSet(Card(GLUED_LEFT, GLUED_RIGHT)))
      ensures table[i] == WHITE_CARD
    {
      GluedPresent(table[i]);
    }
  }

  lemma GluedPresent(m: Mapping)
    requires GoodMapping(m) && Present(m, ClassSet(Card(GLUED_LEFT, GLUED_RIGHT)))
    ensures Present(m, CARD)
  {
    GluedIsNoName(m.light);
    GluedIsNoName(m.dark);
  }

  lemma GluedIsNoName(name: string)
    requires IsRun(name)
    ensures name != GLUED_LEFT && name != GLUED_RIGHT
  {
    assert GLUED_LEFT[1] == '?' && GLUED_RIGHT[15] == '\'';
  }

  /** Class values one pass leaves short of the end, written out in the attribute or glued to the quotes
      of a JavaScript string: taking the pair out puts `font-medium` beside `dark:text-white`, which the
      next pass replaces. */
  lemma OnePassIsNotEnough()
    ensures GoodTable(MAPPINGS)
    ensures var out := Processed(MAPPINGS, Lone(["bg-white", "font-medium", "dark:bg-gray-800", "dark:text-white"])).0;
            out == Lone(["bg-surface", "font-medium", "dark:text-white"]) && Processed(MAPPINGS, out).1 > 0
    ensures var out := Processed(MAPPINGS, Lone(["bg-white", GLUED_LEFT, "dark:bg-gray-800", GLUED_RIGHT])).0;
            out == Lone(["bg-surface", GLUED_LEFT, GLUED_RIGHT]) && Processed(MAPPINGS, out).1 > 0
  {
    MappingsAreGood();
    PlainIsCard();
    OneCardPair();
    PlainIsOne(MAPPINGS);
    CardTakesTwoPasses(MAPPINGS, "font-medium", "dark:text-white");
    GluedLeft();
    GluedRight();
    GluedIsOne(MAPPINGS);
    CardTakesTwoPasses(MAPPINGS, GLUED_LEFT, GLUED_RIGHT);
  }
}
