/**
 The theme codemod (scripts/theme_codemod.py, `transform`, `process`, `main`): the set-based pass inside
 `class="..."` attributes, and both passes over the text of a file.
 */
module ThemeCodemod {
  import opened ThemeText
  import opened ThemeTable
  import opened ThemeLiteral
  import T = Text

  // ------------------------------------------------------------ transform

  function Consumed(table: seq<Mapping>, present: set<string>): set<string> {
    if table == [] then {}
    else
      var m := table[|table| - 1];
      Consumed(table[..|table| - 1], present) + (if Present(m, present) then {m.light, m.dark} else {})
  }

  function Inserts(table: seq<Mapping>, present: set<string>): seq<string> {
    if table == [] then []
    else
      var m := table[|table| - 1];
      var before := Inserts(table[..|table| - 1], present);
      if Present(m, present) && m.token !in before && m.token !in present then before + [m.token] else before
  }

  function Hits(table: seq<Mapping>, present: set<string>): nat {
    if table == [] then 0
    else Hits(table[..|table| - 1], present) + (if Present(table[|table| - 1], present) then 1 else 0)
  }

  function ClassSet(classes: seq<string>): set<string> {
    set c | c in classes
  }

  /** The classes that stay, in order. */
  function Rest(classes: seq<string>, consumed: set<string>): seq<string> {
    if classes == [] then []
    else (if classes[0] in consumed then [] else [classes[0]]) + Rest(classes[1..], consumed)
  }

  /** The inserts stand where the first consumed class stood. */
  function Splice(classes: seq<string>, consumed: set<string>, inserts: seq<string>): seq<string> {
    if classes == [] then []
    else if classes[0] in consumed then inserts + Rest(classes[1..], consumed)
    else [classes[0]] + Splice(classes[1..], consumed, inserts)
  }

  function Transformed(table: seq<Mapping>, classes: seq<string>): (seq<string>, nat) {
    var present := ClassSet(classes);
    (Splice(classes, Consumed(table, present), Inserts(table, present)), Hits(table, present))
  }

  method FindPairs(present: set<string>, table: seq<Mapping>)
    returns (consumed: set<string>, inserts: seq<string>, hits: nat)
    ensures consumed == Consumed(table, present) && inserts == Inserts(table, present) && hits == Hits(table, present)
  {
    consumed, inserts, hits := {}, [], 0;
    for i := 0 to |table|
      invariant consumed == Consumed(table[..i], present)
      invariant inserts == Inserts(table[..i], present)
      invariant hits == Hits(table[..i], present)
    {
      var m := table[i];
      assert table[..i + 1][..i] == table[..i];
      if m.light in present && m.dark in present {
        consumed := consumed + {m.light, m.dark};
        if m.token !in inserts && m.token !in present { inserts := inserts + [m.token]; }
        hits := hits + 1;
      }
    }
    assert table[..|table|] == table;
  }

  /** What is still to be written once the inserts have been, or have not. */
  function Remaining(classes: seq<string>, consumed: set<string>, inserts: seq<string>, spliced: bool): seq<string> {
    if spliced then Rest(classes, consumed) else Splice(classes, consumed, inserts)
  }

  lemma RemainingStep(classes: seq<string>, consumed: set<string>, inserts: seq<string>,
                      spliced: bool)
    requires classes != []
    ensures Remaining(classes, consumed, inserts, spliced) ==
            if classes[0] in consumed then
              (if spliced then [] else inserts) + Remaining(classes[1..], consumed, inserts, true)
            else [classes[0]] + Remaining(classes[1..], consumed, inserts, spliced)
  {
  }

  lemma Regroup(a: seq<string>, b: seq<string>, c: seq<string>)
    ensures a + (b + c) == a + b + c
    ensures b == [] ==> a + (b + c) == a + c
  {
  }

  method Rebuild(classes: seq<string>, consumed: set<string>, inserts: seq<string>) returns (out: seq<string>)
    ensures out == Splice(classes, consumed, inserts)
  {
    out := [];
    var spliced := false;
    for i := 0 to |classes|
      invariant out + Remaining(classes[i..], consumed, inserts, spliced) == Splice(classes, consumed, inserts)
    {
      var c := classes[i];
      assert classes[i..][0] == c && classes[i..][1..] == classes[i + 1..];
      RemainingStep(classes[i..], consumed, inserts, spliced);
      if c in consumed {
        if !spliced {
          Regroup(out, inserts, Remaining(classes[i + 1..], consumed, inserts, true));
          out := out + inserts;
          spliced := true;
        } else {
          Regroup(out, [], Remaining(classes[i + 1..], consumed, inserts, true));
        }
        continue;
      }
      Regroup(out, [c], Remaining(classes[i + 1..], consumed, inserts, spliced));
      out := out + [c];
    }
    assert classes[|classes|..] == [] && out + [] == out;
  }

  /** A class value and the number of pairs found in it; without one the value stays as written. */
  function TransformedValue(table: seq<Mapping>, value: string): (string, nat) {
    var classes := Split(value);
    var (out, n) := Transformed(table, classes);
    (if Consumed(table, ClassSet(classes)) == {} then value else Join(out), n)
  }

  method Transform(value: string, table: seq<Mapping>) returns (out: string, hits: nat)
    ensures out == TransformedValue(table, value).0 && hits == TransformedValue(table, value).1
  {
    var classes := Split(value);
    var present := ClassSet(classes);
    var consumed, inserts;
    consumed, inserts, hits := FindPairs(present, table);
    if consumed == {} {
      return value, hits;
    }
    var rebuilt := Rebuild(classes, consumed, inserts);
    out := Join(rebuilt);
  }

  lemma {:induction false} SpliceNothing(classes: seq<string>, inserts: seq<string>)
    ensures Splice(classes, {}, inserts) == classes
  {
    if classes != [] {
      SpliceNothing(classes[1..], inserts);
      assert classes == [classes[0]] + classes[1..];
    }
  }

  // What the three accumulators mean.

  lemma {:induction false} ConsumedIs(table: seq<Mapping>, present: set<string>)
    ensures forall c :: c in Consumed(table, present) <==>
              exists m :: m in table && Present(m, present) && (c == m.light || c == m.dark)
    ensures Consumed(table, present) <= present
    ensures Hits(table, present) == 0 <==> Consumed(table, present) == {}
  {
    if table != [] {
      var n := |table| - 1;
      assert table == table[..n] + [table[n]];
      ConsumedIs(table[..n], present);
      assert Present(table[n], present) ==> table[n].light in Consumed(table, present);
    }
  }

  lemma {:induction false} InsertsAre(table: seq<Mapping>, present: set<string>)
    ensures forall t :: t in Inserts(table, present) <==>
              t !in present && exists m :: m in table && Present(m, present) && m.token == t
    ensures forall i, j | 0 <= i < j < |Inserts(table, present)| ::
              Inserts(table, present)[i] != Inserts(table, present)[j]
  {
    if table != [] {
      var n := |table| - 1;
      assert table == table[..n] + [table[n]];
      InsertsAre(table[..n], present);
      var before := Inserts(table[..n], present);
      assert forall i | 0 <= i < |before| :: before[i] in before;
    }
  }

  lemma {:induction false} SpliceMembers(classes: seq<string>, consumed: set<string>, inserts: seq<string>)
    ensures forall c :: c in Rest(classes, consumed) <==> c in classes && c !in consumed
    ensures forall c :: c in Splice(classes, consumed, inserts) <==>
              (c in classes && c !in consumed)
              || (c in inserts && exists d :: d in classes && d in consumed)
  {
    if classes != [] {
      SpliceMembers(classes[1..], consumed, inserts);
      assert classes == [classes[0]] + classes[1..];
      assert classes[0] in classes;
      if d :| d in classes[1..] && d in consumed { assert d in classes; }
    }
  }

  /** The class set is what was there, less both halves of every pair found, plus the token of
      each. */
  lemma TransformClassSet(table: seq<Mapping>, classes: seq<string>)
    requires GoodTable(table)
    ensures var present := ClassSet(classes);
            ClassSet(Transformed(table, classes).0) ==
              (present - Consumed(table, present)) + (set m | m in table && Present(m, present) :: m.token)
  {
    var present := ClassSet(classes);
    var consumed, inserts := Consumed(table, present), Inserts(table, present);
    ConsumedIs(table, present);
    InsertsAre(table, present);
    SpliceMembers(classes, consumed, inserts);
    forall m | m in table && Present(m, present)
      ensures m.token !in consumed && m.light in classes && m.light in consumed
    {
      TokenNotConsumed(table, present, m);
    }
  }

  lemma TokenNotConsumed(table: seq<Mapping>, present: set<string>, m: Mapping)
    requires GoodTable(table) && m in table
    ensures m.token !in Consumed(table, present)
  {
    ConsumedIs(table, present);
    var i :| 0 <= i < |table| && table[i] == m;
    assert GoodMapping(table[i]);
    forall n | n in table ensures m.token != n.light && m.token != n.dark {
      var j :| 0 <= j < |table| && table[j] == n;
      assert GoodMapping(table[j]);
    }
  }

  /** Everything not consumed keeps its place, and the inserts stand together where the first
      consumed class was. */
  lemma {:induction false} SpliceInOrder(classes: seq<string>, consumed: set<string>, inserts: seq<string>, k: nat)
    requires k < |classes| && classes[k] in consumed && forall i | 0 <= i < k :: classes[i] !in consumed
    ensures Splice(classes, consumed, inserts) == classes[..k] + inserts + Rest(classes[k + 1..], consumed)
  {
    if k > 0 {
      assert forall i | 0 <= i < k - 1 :: classes[1..][i] == classes[i + 1];
      SpliceInOrder(classes[1..], consumed, inserts, k - 1);
      assert classes[..k] == [classes[0]] + classes[1..][..k - 1];
      assert classes[1..][k..] == classes[k + 1..];
    }
  }

  lemma ClassesIdempotent(table: seq<Mapping>, classes: seq<string>)
    requires GoodTable(table)
    ensures var out := Transformed(table, classes).0;
            Transformed(table, out) == (out, 0)
  {
    var present := ClassSet(classes);
    var consumed := Consumed(table, present);
    var out := Transformed(table, classes).0;
    var after := ClassSet(out);
    TransformClassSet(table, classes);
    ConsumedIs(table, present);
    ConsumedIs(table, after);
    forall m | m in table ensures !Present(m, after) {
      TokenNotHalf(table, m, m.light);
      TokenNotHalf(table, m, m.dark);
      assert m.light in after ==> m.light in present && m.light !in consumed;
      assert m.dark in after ==> m.dark in present;
      assert Present(m, present) ==> m.light in consumed;
    }
    SpliceNothing(out, Inserts(table, after));
  }

  lemma TokenNotHalf(table: seq<Mapping>, m: Mapping, half: string)
    requires GoodTable(table) && m in table && (half == m.light || half == m.dark)
    ensures forall n | n in table :: n.token != half
  {
    var i :| 0 <= i < |table| && table[i] == m;
    assert GoodMapping(table[i]);
    forall n | n in table ensures n.token != half {
      var j :| 0 <= j < |table| && table[j] == n;
      assert GoodMapping(table[j]);
    }
  }

  // ----------------------------------------------- fewer dark classes

  lemma {:induction false} RestDarks(classes: seq<string>, consumed: set<string>)
    ensures Darks(WordsAll(Rest(classes, consumed))) <= Darks(WordsAll(classes))
  {
    if classes != [] {
      RestDarks(classes[1..], consumed);
      DarksOfHead(classes, consumed);
    }
  }

  lemma DarksOfHead(classes: seq<string>, consumed: set<string>)
    requires classes != []
    ensures Darks(WordsAll(classes)) == Darks(Words(classes[0])) + Darks(WordsAll(classes[1..]))
    ensures Darks(WordsAll(Rest(classes, consumed))) ==
            (if classes[0] in consumed then 0 else Darks(Words(classes[0])))
            + Darks(WordsAll(Rest(classes[1..], consumed)))
  {
    var c, tail := classes[0], classes[1..];
    DarksConcat(Words(c), WordsAll(tail));
    DarksConcat(Words(c), WordsAll(Rest(tail, consumed)));
    if c in consumed {
      assert Rest(classes, consumed) == Rest(tail, consumed);
    } else {
      WordsAllHead(c, Rest(tail, consumed));
    }
  }

  lemma {:induction false} RestLosesDark(classes: seq<string>, consumed: set<string>, dark: string)
    requires dark in classes && dark in consumed && IsDark(dark) && IsRun(dark)
    ensures Darks(WordsAll(Rest(classes, consumed))) < Darks(WordsAll(classes))
  {
    DarksOfHead(classes, consumed);
    if classes[0] == dark {
      WordsOfName(dark);
      RestDarks(classes[1..], consumed);
    } else {
      RestLosesDark(classes[1..], consumed, dark);
    }
  }

  lemma WordsOfName(name: string)
    requires IsRun(name)
    ensures Words(name) == [name] && Darks(Words(name)) == if IsDark(name) then 1 else 0
  {
    WordsOfRun(name, "");
    assert name + "" == name && [name] + [] == [name];
    assert [name][1..] == [];
  }

  lemma WordsAllHead(c: string, rest: seq<string>)
    ensures WordsAll([c] + rest) == Words(c) + WordsAll(rest)
  {
    assert ([c] + rest)[1..] == rest;
  }

  lemma {:induction false} SpliceDarks(classes: seq<string>, consumed: set<string>, inserts: seq<string>)
    requires Darks(WordsAll(inserts)) == 0
    ensures Darks(WordsAll(Splice(classes, consumed, inserts))) <= Darks(WordsAll(Rest(classes, consumed)))
  {
    if classes != [] {
      var c, tail := classes[0], classes[1..];
      if c in consumed {
        WordsAllConcat(inserts, Rest(tail, consumed));
        DarksConcat(WordsAll(inserts), WordsAll(Rest(tail, consumed)));
        assert Rest(classes, consumed) == Rest(tail, consumed);
      } else {
        SpliceDarks(tail, consumed, inserts);
        WordsAllHead(c, Splice(tail, consumed, inserts));
        WordsAllHead(c, Rest(tail, consumed));
        DarksConcat(Words(c), WordsAll(Splice(tail, consumed, inserts)));
        DarksConcat(Words(c), WordsAll(Rest(tail, consumed)));
      }
    }
  }

  lemma {:induction false} NamesHaveNoDarks(names: seq<string>)
    requires forall i | 0 <= i < |names| :: IsRun(names[i]) && !IsDark(names[i])
    ensures Darks(WordsAll(names)) == 0
  {
    if names != [] {
      WordsOfName(names[0]);
      NamesHaveNoDarks(names[1..]);
      DarksConcat(Words(names[0]), WordsAll(names[1..]));
    }
  }

  lemma MappingIn(table: seq<Mapping>, m: Mapping)
    requires GoodTable(table) && m in table
    ensures GoodMapping(m)
  {
    var j :| 0 <= j < |table| && table[j] == m;
  }

  lemma InsertsAreNames(table: seq<Mapping>, present: set<string>)
    requires GoodTable(table)
    ensures forall i | 0 <= i < |Inserts(table, present)| ::
              var t := Inserts(table, present)[i]; IsRun(t) && TokenLike(t) && |t| >= 6
  {
    var inserts := Inserts(table, present);
    InsertsAre(table, present);
    forall i | 0 <= i < |inserts| ensures IsRun(inserts[i]) && TokenLike(inserts[i]) && |inserts[i]| >= 6 {
      assert inserts[i] in inserts;
      var m :| m in table && Present(m, present) && m.token == inserts[i];
      MappingIn(table, m);
    }
  }

  lemma SomeDarkConsumed(table: seq<Mapping>, present: set<string>) returns (dark: string)
    requires GoodTable(table) && Consumed(table, present) != {}
    ensures dark in Consumed(table, present) && dark in present && IsDark(dark) && IsRun(dark)
  {
    ConsumedIs(table, present);
    var c :| c in Consumed(table, present);
    var m :| m in table && Present(m, present) && (c == m.light || c == m.dark);
    MappingIn(table, m);
    dark := m.dark;
  }

  /** A hit lowers the number of dark classes; no hit leaves the value as it was. */
  lemma TransformLowers(table: seq<Mapping>, value: string)
    requires GoodTable(table)
    ensures var (out, n) := TransformedValue(table, value);
            && (n > 0 ==> Darks(Words(out)) < Darks(Words(value)))
            && (n == 0 ==> out == value)
  {
    var classes := Split(value);
    var present := ClassSet(classes);
    var consumed, inserts := Consumed(table, present), Inserts(table, present);
    ConsumedIs(table, present);
    if consumed != {} {
      var dark := SomeDarkConsumed(table, present);
      InsertsAreNames(table, present);
      NamesHaveNoDarks(inserts);
      RestLosesDark(classes, consumed, dark);
      SpliceDarks(classes, consumed, inserts);
      TransformedClasses(table, classes);
      WordsOfSplit(value);
      WordsOfJoin(Transformed(table, classes).0);
    }
  }

  /** What is rebuilt is classes again. */
  lemma TransformedClasses(table: seq<Mapping>, classes: seq<string>)
    requires GoodTable(table) && AreClasses(classes)
    ensures AreClasses(Transformed(table, classes).0)
  {
    var present := ClassSet(classes);
    var out := Transformed(table, classes).0;
    InsertsAreNames(table, present);
    SpliceMembers(classes, Consumed(table, present), Inserts(table, present));
    forall i | 0 <= i < |out| ensures IsClass(out[i]) {
      assert out[i] in out;
      if out[i] in Inserts(table, present) {
        RunIsClass(out[i]);
      }
    }
  }

  /** Transforming a class value twice finds nothing more and changes nothing, to the character. */
  lemma TransformIdempotent(table: seq<Mapping>, value: string)
    requires GoodTable(table)
    ensures var out := TransformedValue(table, value).0;
            TransformedValue(table, out) == (out, 0)
  {
    var classes := Split(value);
    var out := Transformed(table, classes).0;
    ConsumedIs(table, ClassSet(classes));
    ConsumedIs(table, ClassSet(out));
    if Consumed(table, ClassSet(classes)) != {} {
      TransformedClasses(table, classes);
      SplitJoin(out);
      ClassesIdempotent(table, classes);
    }
  }

  // ---------------------------------------------------- class attributes

  const OPEN := "class=\""

  predicate Opens(text: string) {
    OPEN <= text
  }

  /** The pattern of a class attribute matches from here on: an opening, and a quote that closes it. */
  predicate AttrAt(text: string) {
    Opens(text) && '"' in text[|OPEN|..]
  }

  function NextAttr(text: string): (n: nat)
    ensures n <= |text| && (n < |text| ==> AttrAt(text[n..]))
  {
    if text == "" || AttrAt(text) then 0
    else
      var n := NextAttr(text[1..]);
      assert n < |text| - 1 ==> text[1..][n..] == text[n + 1..];
      n + 1
  }

  lemma {:induction false} NoneBefore(text: string, k: nat)
    requires k < NextAttr(text)
    ensures !AttrAt(text[k..])
  {
    if k > 0 {
      NoneBefore(text[1..], k - 1);
      assert text[1..][k - 1..] == text[k..];
    }
  }

  lemma {:induction false} FirstIs(text: string, n: nat)
    requires n < |text| && AttrAt(text[n..]) && forall k | 0 <= k < n :: !AttrAt(text[k..])
    ensures NextAttr(text) == n
  {
    if n > 0 {
      assert !AttrAt(text[0..]) && text[0..] == text;
      forall k | 0 <= k < n - 1 ensures !AttrAt(text[1..][k..]) {
        assert text[1..][k..] == text[k + 1..];
      }
      assert text[1..][n - 1..] == text[n..];
      FirstIs(text[1..], n - 1);
    }
  }

  predicate HasAttr(text: string) {
    NextAttr(text) < |text|
  }

  /** A text with a class attribute in it. */
  datatype Attribute = Attribute(lead: string, value: string, behind: string)

  function Whole(a: Attribute): string {
    a.lead + (OPEN + (a.value + ("\"" + a.behind)))
  }

  /** The first class attribute of a text. */
  function Cut(text: string): (a: Attribute)
    requires HasAttr(text)
    ensures text == Whole(a) && '"' !in a.value && |a.behind| < |text| && |a.lead| == NextAttr(text)
  {
    var n := NextAttr(text);
    var rest := text[n..][|OPEN|..];
    var e := T.IndexOf(rest, '"');
    QuoteInside(rest, e);
    OpenInside(text, OPEN, n);
    Attribute(text[..n], rest[..e], rest[e + 1..])
  }

  lemma OpenInside(text: string, open: string, n: nat)
    requires n <= |text| && open <= text[n..]
    ensures text == text[..n] + (open + text[n..][|open|..])
  {
    assert text == text[..n] + text[n..];
  }

  lemma QuoteInside(rest: string, e: nat)
    requires '"' in rest && e <= |rest| && '"' !in rest[..e] && (e < |rest| ==> rest[e] == '"')
    ensures e < |rest| && rest == rest[..e] + ("\"" + rest[e + 1..])
  {
    assert rest[..|rest|] == rest;
  }

  /** `CLASS_ATTR_RE.sub`: every class attribute in turn, each value transformed on its own. */
  function AttrPass(table: seq<Mapping>, text: string): (string, nat)
    decreases |text|
  {
    if !HasAttr(text) then (text, 0)
    else
      var a := Cut(text);
      var value := TransformedValue(table, a.value);
      var rest := AttrPass(table, a.behind);
      (Whole(Attribute(a.lead, value.0, rest.0)), value.1 + rest.1)
  }

  /** The class values of a text. */
  function Values(text: string): seq<string>
    decreases |text|
  {
    if !HasAttr(text) then [] else [Cut(text).value] + Values(Cut(text).behind)
  }

  function Front(lead: string, value: string): string {
    lead + (OPEN + (value + "\""))
  }

  lemma InFrontOf(out: string, open: string, lead: string, value: string, rest: string)
    ensures out + (lead + (open + (value + ("\"" + rest)))) == out + (lead + (open + (value + "\""))) + rest
  {
  }

  lemma AttrPassStep(table: seq<Mapping>, text: string, out: string, value: string, n: nat)
    requires HasAttr(text)
    requires value == TransformedValue(table, Cut(text).value).0 && n == TransformedValue(table, Cut(text).value).1
    ensures var rest := AttrPass(table, Cut(text).behind);
            && out + AttrPass(table, text).0 == out + Front(Cut(text).lead, value) + rest.0
            && AttrPass(table, text).1 == n + rest.1
  {
    InFrontOf(out, OPEN, Cut(text).lead, value, AttrPass(table, Cut(text).behind).0);
  }

  method TransformAttributes(text: string, table: seq<Mapping>) returns (out: string, hits: nat)
    ensures out == AttrPass(table, text).0 && hits == AttrPass(table, text).1
  {
    out, hits := "", 0;
    var rest := text;
    while HasAttr(rest)
      invariant out + AttrPass(table, rest).0 == AttrPass(table, text).0
      invariant hits + AttrPass(table, rest).1 == AttrPass(table, text).1
      decreases |rest|
    {
      var a := Cut(rest);
      var value, n := Transform(a.value, table);
      AttrPassStep(table, rest, out, value, n);
      out, hits, rest := out + Front(a.lead, value), hits + n, a.behind;
    }
    out := out + rest;
  }

  /** The words of a text with a class attribute in it. */
  lemma WordsOfAttr(a: Attribute)
    ensures Words(Whole(a)) == Words(a.lead + "class=") + ["\""] + Words(a.value) + ["\""] + Words(a.behind)
  {
    var tail := a.value + ("\"" + a.behind);
    assert Whole(a) == (a.lead + "class=") + ("\"" + tail);
    WordsConcat(a.lead + "class=", "\"" + tail);
    WordsOfQuote(tail);
    WordsConcat(a.value, "\"" + a.behind);
    WordsOfQuote(a.behind);
    assert Words(a.lead + "class=") + (["\""] + (Words(a.value) + (["\""] + Words(a.behind)))) ==
           Words(a.lead + "class=") + ["\""] + Words(a.value) + ["\""] + Words(a.behind);
  }

  lemma WordsOfQuote(behind: string)
    ensures Words("\"" + behind) == ["\""] + Words(behind)
  {
    assert ("\"" + behind)[1..] == behind;
    StartsWithOther("\"" + behind);
  }

  /** As many dark classes as the text around the attribute, its value and the rest have. */
  lemma DarksOfAttr(a: Attribute)
    ensures Darks(Words(Whole(a))) == Darks(Words(a.lead + "class=")) + Darks(Words(a.value)) + Darks(Words(a.behind))
  {
    var l, q, v, b := Words(a.lead + "class="), ["\""], Words(a.value), Words(a.behind);
    WordsOfAttr(a);
    DarksConcat(l + q + v + q, b);
    DarksConcat(l + q + v, q);
    DarksConcat(l + q, v);
    DarksConcat(l, q);
    NoDarks(q);
  }

  lemma {:induction false} AttrPassLowers(table: seq<Mapping>, text: string)
    requires GoodTable(table)
    ensures var (out, n) := AttrPass(table, text);
            && Darks(Words(out)) <= Darks(Words(text))
            && (n > 0 ==> Darks(Words(out)) < Darks(Words(text)))
            && (n == 0 ==> out == text)
    decreases |text|
  {
    if HasAttr(text) {
      var a := Cut(text);
      AttrPassLowers(table, a.behind);
      TransformLowers(table, a.value);
      DarksOfAttr(a);
      DarksOfAttr(Attribute(a.lead, TransformedValue(table, a.value).0, AttrPass(table, a.behind).0));
    }
  }

  // An attribute stays where it is whatever its value and the text behind it become.

  predicate LeadFree(lead: string) {
    forall k | 0 <= k < |lead| :: !Opens((lead + OPEN)[k..])
  }

  /** Where an opening shows in front of an attribute, it shows in what stands in front of its value,
      and the quote that ends the opening would close it. */
  lemma OpensBefore(lead: string, open: string, rest: string, k: nat)
    requires k < |lead| && EndsQuoted(open)
    ensures var text := lead + (open + rest);
            (open <= text[k..] && '"' in text[k..][|open|..]) <==> open <= (lead + open)[k..]
  {
    var text := lead + (open + rest);
    assert text[k..][..|open|] == (lead + open)[k..][..|open|];
    assert text[k..][|open|..][|lead| - k - 1] == '"';
  }

  predicate EndsQuoted(s: string) {
    s != "" && s[|s| - 1] == '"'
  }

  lemma CutIsLeadFree(text: string)
    requires HasAttr(text)
    ensures LeadFree(Cut(text).lead)
  {
    var a := Cut(text);
    forall k | 0 <= k < |a.lead| ensures !Opens((a.lead + OPEN)[k..]) {
      OpensBefore(a.lead, OPEN, a.value + ("\"" + a.behind), k);
      NoneBefore(text, k);
    }
  }

  lemma NextAttrIs(lead: string, rest: string)
    requires LeadFree(lead) && '"' in rest
    ensures NextAttr(lead + (OPEN + rest)) == |lead|
  {
    var text := lead + (OPEN + rest);
    forall k | 0 <= k < |lead| ensures !AttrAt(text[k..]) {
      OpensBefore(lead, OPEN, rest, k);
      assert !Opens((lead + OPEN)[k..]);
    }
    assert text[|lead|..] == OPEN + rest;
    AttrStarts(OPEN, rest);
    FirstIs(text, |lead|);
  }

  lemma AttrStarts(open: string, rest: string)
    ensures open <= open + rest && (open + rest)[|open|..] == rest
  {
  }

  lemma CutIs(a: Attribute)
    requires LeadFree(a.lead) && '"' !in a.value
    ensures HasAttr(Whole(a)) && Cut(Whole(a)).lead == a.lead
    ensures Cut(Whole(a)).value == a.value && Cut(Whole(a)).behind == a.behind
  {
    var rest := a.value + ("\"" + a.behind);
    assert rest[|a.value|] == '"';
    NextAttrIs(a.lead, rest);
    AttrInside(a.lead, OPEN, a.value, a.behind);
    CutAt(Whole(a), |a.lead|, rest, |a.value|);
    QuoteAt(a.value, a.behind);
  }

  lemma QuoteAt(value: string, behind: string)
    requires '"' !in value
    ensures T.IndexOf(value + ("\"" + behind), '"') == |value|
  {
    T.IndexOfFirst(value, '"', behind);
    assert value + ['"'] + behind == value + ("\"" + behind);
  }

  lemma CutAt(text: string, n: nat, rest: string, e: nat)
    requires n < |text| && NextAttr(text) == n && text[n..][|OPEN|..] == rest && e < |rest|
    ensures var a := Cut(text);
            T.IndexOf(rest, '"') == e ==> a.lead == text[..n] && a.value == rest[..e] && a.behind == rest[e + 1..]
  {
  }

  lemma AttrInside(lead: string, open: string, value: string, behind: string)
    ensures var rest := value + ("\"" + behind);
            var text := lead + (open + rest);
            && text[..|lead|] == lead && text[|lead|..][|open|..] == rest
            && rest[..|value|] == value && rest[|value| + 1..] == behind
  {
  }

  lemma ValueHasNoQuote(table: seq<Mapping>, value: string)
    requires GoodTable(table) && '"' !in value
    ensures '"' !in TransformedValue(table, value).0
  {
    var classes := Split(value);
    var out := Transformed(table, classes).0;
    SplitKeeps(value);
    InsertsAreNames(table, ClassSet(classes));
    SpliceMembers(classes, Consumed(table, ClassSet(classes)), Inserts(table, ClassSet(classes)));
    forall c | c in out ensures '"' !in c {
    }
    JoinKeeps(out);
  }

  lemma {:induction false} SplitKeeps(s: string)
    ensures forall c, x | c in Split(s) && x in c :: x in s
    decreases |s|
  {
    if s != "" {
      if IsSpace(s[0]) {
        SplitKeeps(s[1..]);
      } else {
        SplitKeeps(s[VisibleLength(s)..]);
      }
    }
  }

  lemma {:induction false} JoinKeeps(classes: seq<string>)
    requires forall c | c in classes :: '"' !in c
    ensures '"' !in Join(classes)
  {
    if |classes| > 1 {
      JoinKeeps(classes[1..]);
    }
  }

  lemma {:induction false} AttrPassIdempotent(table: seq<Mapping>, text: string)
    requires GoodTable(table)
    ensures var out := AttrPass(table, text).0;
            AttrPass(table, out) == (out, 0)
    decreases |text|
  {
    if HasAttr(text) {
      var a := Cut(text);
      AttrPassIdempotent(table, a.behind);
      TransformIdempotent(table, a.value);
      ValueHasNoQuote(table, a.value);
      CutIsLeadFree(text);
      CutIs(Attribute(a.lead, TransformedValue(table, a.value).0, AttrPass(table, a.behind).0));
    }
  }

  // -------------------------------------------------------------- process

  /** One pass over a file: what it becomes and how many pairs were found. */
  function Processed(table: seq<Mapping>, text: string): (string, nat) {
    var work := LiteralText(Patterns(table), text);
    var out := AttrPass(table, work.0);
    (out.0, work.1 + out.1)
  }

  /** Every pass that reports a hit strictly lowers the number of dark classes, and one that
      reports none leaves the text as it is, to the character. */
  lemma ProcessLowers(table: seq<Mapping>, text: string)
    requires GoodTable(table)
    ensures var (out, n) := Processed(table, text);
            && (n > 0 ==> Darks(Words(out)) < Darks(Words(text)))
            && (n == 0 ==> out == text)
  {
    LiteralLowers(table, text);
    AttrPassLowers(table, LiteralText(Patterns(table), text).0);
  }

  class File {
    var text: string

    constructor (text: string)
      ensures this.text == text
    {
      this.text := text;
    }

    /** Writes only when asked to, and only when something changed. */
    method Process(table: seq<Mapping>, apply: bool) returns (hits: nat)
      requires GoodTable(table)
      modifies this
      ensures hits == Processed(table, old(text)).1
      ensures apply ==> text == Processed(table, old(text)).0
      ensures !apply ==> text == old(text)
    {
      var work, literalHits := LiteralPass(text, table);
      var out, attrHits := TransformAttributes(work, table);
      hits := literalHits + attrHits;
      if apply && out != text { text := out; }
    }

    /** Repeating `--apply` ends, after no more passes than there are dark classes, in a file
        `--check` accepts and leaves alone. */
    method ApplyUntilClean(table: seq<Mapping>) returns (passes: nat)
      requires GoodTable(table)
      modifies this
      ensures Processed(table, text) == (text, 0)
      ensures passes <= Darks(Words(old(text))) + 1
    {
      var hits := Process(table, true);
      ProcessLowers(table, old(text));
      passes := 1;
      while hits > 0
        invariant passes + Darks(Words(text)) <= Darks(Words(old(text))) + (if hits > 0 then 0 else 1)
        invariant hits == 0 ==> Processed(table, text) == (text, 0)
        decreases Darks(Words(text)), hits
      {
        ghost var before := text;
        hits := Process(table, true);
        ProcessLowers(table, before);
        passes := passes + 1;
      }
    }
  }
}
