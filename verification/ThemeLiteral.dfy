/**
 The literal pass of the theme codemod (scripts/theme_codemod.py, `_LITERAL_PAIRS`, `_DARK_ONLY_PAIRS`,
 `literal_pass`): each guarded pattern substituted through the whole text of a file. `SubText` is the
 substitution on characters; `Sub` is what it does to the words of the text.
 */
module ThemeLiteral {
  import opened ThemeText
  import opened ThemeTable

  // ------------------------------------------------------------- patterns

  /** Two classes with white space between them, and what replaces them. */
  datatype Pattern = Pattern(first: string, second: string, replacement: seq<string>)

  const DARK_ONLY := [
    Pattern("dark:bg-gray-700", "dark:text-white", ["bg-input", "text-foreground"]),
    Pattern("font-medium", "dark:text-white", ["font-medium", "text-foreground"])]

  function Literal(table: seq<Mapping>): (r: seq<Pattern>)
    ensures |r| == |table|
  {
    seq(|table|, i requires 0 <= i < |table| => Pattern(table[i].light, table[i].dark, [table[i].token]))
  }

  function Patterns(table: seq<Mapping>): seq<Pattern> {
    Literal(table) + DARK_ONLY
  }

  /** What can be the left class of a pattern. */
  predicate GoodFirst(s: string) {
    (LightLike(s) || IsDark(s) || EndsIn(s, 'u', 'm')) && EarlyColon(s)
  }

  /** A replacement removes a dark class, adds none, and its last class cannot be the left half of
      any pattern. */
  predicate GoodPattern(p: Pattern) {
    && IsRun(p.first) && GoodFirst(p.first) && IsRun(p.second) && IsDark(p.second)
    && 1 <= |p.replacement| <= 2
    && (forall i | 0 <= i < |p.replacement| ::
          IsRun(p.replacement[i]) && |p.replacement[i]| >= 6 && !IsDark(p.replacement[i]))
    && !GoodFirst(p.replacement[|p.replacement| - 1])
  }

  predicate GoodPatterns(ps: seq<Pattern>) {
    forall i | 0 <= i < |ps| :: GoodPattern(ps[i])
  }

  lemma PatternsAreGood(table: seq<Mapping>)
    requires GoodTable(table)
    ensures GoodPatterns(Patterns(table))
  {
    var ps := Patterns(table);
    forall i | 0 <= i < |ps| ensures GoodPattern(ps[i]) {
      if i < |table| {
        assert GoodMapping(table[i]);
        assert ps[i] == Pattern(table[i].light, table[i].dark, [table[i].token]);
      } else {
        DarkOnlyIsGood();
        assert ps[i] == DARK_ONLY[i - |table|];
      }
    }
  }

  lemma DarkOnlyNames()
    ensures IsRun("dark:bg-gray-700") && EarlyColon("dark:bg-gray-700")
    ensures IsRun("font-medium") && EarlyColon("font-medium")
    ensures IsRun("dark:text-white") && IsRun("bg-input") && IsRun("text-foreground")
  {
  }

  lemma DarkOnlyIsGood()
    ensures GoodPattern(DARK_ONLY[0]) && GoodPattern(DARK_ONLY[1])
  {
    DarkOnlyNames();
  }

  // --------------------------------------------------------- substitution

  /** `s` ends in the class `first`: nothing of a longer class stands before it. */
  predicate EndsAs(s: string, first: string) {
    && |first| <= |s| && s[|s| - |first|..] == first
    && (|first| < |s| ==> !IsRunChar(s[|s| - |first| - 1]))
  }

  /** `s` starts in the class `second`: neither more of a class nor an opacity stands behind it, but a
      colon may. */
  predicate StartsAs(s: string, second: string) {
    && |second| <= |s| && s[..|second|] == second
    && (|second| < |s| ==> s[|second|] == ':' || !IsRunChar(s[|second|]))
  }

  function SpaceLength(s: string): (n: nat)
    ensures n <= |s| && AllSpace(s[..n]) && (n < |s| ==> !IsSpace(s[n]))
  {
    if s == "" || !IsSpace(s[0]) then 0 else 1 + SpaceLength(s[1..])
  }

  /** How much of `text` the pattern matches from its start on, or 0. */
  function MatchLength(p: Pattern, text: string): (n: nat)
    ensures n <= |text|
  {
    if |p.first| <= |text| && text[..|p.first|] == p.first then
      var behind := text[|p.first|..];
      var gap := SpaceLength(behind);
      if gap > 0 && StartsAs(behind[gap..], p.second) then |p.first| + gap + |p.second| else 0
    else 0
  }

  /** `pattern.subn` from some place on. `open` says that no character of a class stands before that
      place, as the guard demands. Behind a match one does. */
  function SubText(p: Pattern, text: string, open: bool): (string, nat)
    decreases |text|
  {
    if text == "" then ("", 0)
    else if open && MatchLength(p, text) > 0 then
      var (rest, n) := SubText(p, text[MatchLength(p, text)..], false);
      (Join(p.replacement) + rest, n + 1)
    else
      var (rest, n) := SubText(p, text[1..], !IsRunChar(text[0]));
      ([text[0]] + rest, n)
  }

  /** The substitutions one after the other. */
  function LiteralText(ps: seq<Pattern>, text: string): (string, nat) {
    if ps == [] then (text, 0)
    else
      var before := LiteralText(ps[..|ps| - 1], text);
      var last := SubText(ps[|ps| - 1], before.0, true);
      (last.0, before.1 + last.1)
  }

  lemma {:induction false} NoHitNoChange(p: Pattern, text: string, open: bool)
    ensures SubText(p, text, open).1 == 0 ==> SubText(p, text, open).0 == text
    decreases |text|
  {
    if text != "" && !(open && MatchLength(p, text) > 0) {
      NoHitNoChange(p, text[1..], !IsRunChar(text[0]));
    }
  }

  // ------------------------------------------- where the pattern matches

  /** The pattern matches `text` behind `before`: white space and nothing else between the classes,
      and neither is part of a longer word. */
  predicate Occurs(text: string, p: Pattern, before: string, gap: string, behind: string) {
    && text == before + (p.first + (gap + behind))
    && gap != "" && AllSpace(gap) && StartsAs(behind, p.second)
    && (before != "" ==> !IsRunChar(before[|before| - 1]))
  }

  ghost predicate Matches(text: string, p: Pattern) {
    exists before, gap, behind :: Occurs(text, p, before, gap, behind)
  }

  lemma {:induction false} SpaceLengthIs(gap: string, behind: string)
    requires AllSpace(gap) && (behind != "" ==> !IsSpace(behind[0]))
    ensures SpaceLength(gap + behind) == |gap|
  {
    if gap == "" {
      assert gap + behind == behind;
    } else {
      assert (gap + behind)[1..] == gap[1..] + behind;
      SpaceLengthIs(gap[1..], behind);
    }
  }

  lemma MatchLengthIs(p: Pattern, text: string, gap: string, behind: string)
    requires IsRun(p.first) && IsRun(p.second) && Occurs(text, p, "", gap, behind)
    ensures MatchLength(p, text) == |p.first| + |gap| + |p.second|
  {
    assert text == p.first + (gap + behind);
    assert text[..|p.first|] == p.first && text[|p.first|..] == gap + behind;
    assert behind[0] == p.second[0];
    RunIsNoSpace(p.second[0]);
    SpaceLengthIs(gap, behind);
    assert (gap + behind)[|gap|..] == behind;
  }

  /** A match, taken apart. */
  lemma MatchParts(p: Pattern, text: string) returns (gap: string, behind: string)
    requires MatchLength(p, text) > 0
    ensures Occurs(text, p, "", gap, behind) && text[MatchLength(p, text)..] == behind[|p.second|..]
    ensures |p.first| < |text|
  {
    var rest := text[|p.first|..];
    var n := SpaceLength(rest);
    gap, behind := rest[..n], rest[n..];
    assert gap + behind == rest && "" + (p.first + (gap + behind)) == text;
  }

  lemma OccursBehind(p: Pattern, text: string, before: string, gap: string, behind: string)
    requires text != "" && Occurs(text[1..], p, before, gap, behind) && (before == "" ==> !IsRunChar(text[0]))
    ensures Occurs(text, p, [text[0]] + before, gap, behind)
  {
    assert text == [text[0]] + text[1..];
  }

  lemma {:induction false} FoundOccurs(p: Pattern, text: string, open: bool)
    returns (before: string, gap: string, behind: string)
    requires IsRun(p.first) && IsRun(p.second) && SubText(p, text, open).1 > 0
    ensures Occurs(text, p, before, gap, behind) && (before == "" ==> open)
    decreases |text|
  {
    if open && MatchLength(p, text) > 0 {
      gap, behind := MatchParts(p, text);
      before := "";
    } else {
      before, gap, behind := FoundOccurs(p, text[1..], !IsRunChar(text[0]));
      OccursBehind(p, text, before, gap, behind);
      before := [text[0]] + before;
    }
  }

  lemma {:induction false} OccursFound(p: Pattern, text: string, open: bool,
                                       before: string, gap: string, behind: string)
    requires IsRun(p.first) && IsRun(p.second) && Occurs(text, p, before, gap, behind) && (before == "" ==> open)
    ensures SubText(p, text, open).1 > 0
    decreases |text|
  {
    if before == "" {
      MatchLengthIs(p, text, gap, behind);
    } else if !(open && MatchLength(p, text) > 0) {
      assert text[1..] == before[1..] + (p.first + (gap + behind)) && text[0] == before[0];
      OccursFound(p, text[1..], !IsRunChar(text[0]), before[1..], gap, behind);
    }
  }

  /** The substitution reports a hit exactly where the guarded pattern matches somewhere, whatever
      quotes or punctuation stand around the pair, and without one the text stays. */
  lemma FoundIff(p: Pattern, text: string)
    requires IsRun(p.first) && IsRun(p.second)
    ensures SubText(p, text, true).1 > 0 <==> Matches(text, p)
    ensures !Matches(text, p) ==> SubText(p, text, true) == (text, 0)
  {
    NoHitNoChange(p, text, true);
    if SubText(p, text, true).1 > 0 {
      var before, gap, behind := FoundOccurs(p, text, true);
    }
    if Matches(text, p) {
      var before, gap, behind :| Occurs(text, p, before, gap, behind);
      OccursFound(p, text, true, before, gap, behind);
    }
  }

  // ------------------------------------------------------------- on words

  predicate MatchesAt(p: Pattern, words: seq<string>, i: nat) {
    i + 1 < |words| && EndsAs(words[i], p.first) && StartsAs(words[i + 1], p.second)
  }

  /** The replacement with what stood glued behind the pair. */
  function Glued(replacement: seq<string>, tail: string): seq<string> {
    if replacement == [] then [tail]
    else replacement[..|replacement| - 1] + [replacement[|replacement| - 1] + tail]
  }

  /** The substitution on words: a word that ends in the class is the class. */
  function Sub(p: Pattern, words: seq<string>): (seq<string>, nat)
    decreases |words|
  {
    if words == [] then ([], 0)
    else if MatchesAt(p, words, 0) then
      var (rest, n) := Sub(p, words[2..]);
      (Glued(p.replacement, words[1][|p.second|..]) + rest, n + 1)
    else
      var (rest, n) := Sub(p, words[1..]);
      ([words[0]] + rest, n)
  }

  function SubAll(ps: seq<Pattern>, words: seq<string>): (seq<string>, nat) {
    if ps == [] then (words, 0)
    else
      var (work, n) := SubAll(ps[..|ps| - 1], words);
      var (out, m) := Sub(ps[|ps| - 1], work);
      (out, n + m)
  }

  lemma WordEndsAs(w: string, first: string)
    requires IsWord(w) && IsRun(first)
    ensures EndsAs(w, first) <==> w == first
  {
    if EndsAs(w, first) {
      assert w[|w| - |first|..][|first| - 1] == w[|w| - 1];
      assert first[|first| - 1] == w[|w| - 1];
      assert |first| == |w|;
      assert w[0..] == w;
    }
  }

  lemma SubSkip(p: Pattern, text: string, behind: string, open: bool)
    requires text != "" && text[1..] == behind && IsRunChar(text[0]) && (open ==> MatchLength(p, text) == 0)
    ensures SubText(p, text, open).0 == [text[0]] + SubText(p, behind, false).0
    ensures SubText(p, text, open).1 == SubText(p, behind, false).1
  {
  }

  /** Inside a class nothing matches, up to its end. */
  lemma {:induction false} SubInRun(p: Pattern, run: string, rest: string)
    requires (forall i | 0 <= i < |run| :: IsRunChar(run[i])) && (rest != "" ==> !IsRunChar(rest[0]))
    requires IsRun(p.first)
    ensures SubText(p, run + rest, false).0 == run + SubText(p, rest, true).0
    ensures SubText(p, run + rest, false).1 == SubText(p, rest, true).1
  {
    var out := SubText(p, rest, true).0;
    if run == "" {
      assert run + rest == rest && run + out == out;
      OpenEitherWay(p, rest);
    } else {
      assert (run + rest)[1..] == run[1..] + rest;
      SubInRun(p, run[1..], rest);
      SubSkip(p, run + rest, run[1..] + rest, false);
      assert [run[0]] + (run[1..] + out) == run + out;
    }
  }

  lemma OpenEitherWay(p: Pattern, text: string)
    requires IsRun(p.first) && (text != "" ==> !IsRunChar(text[0]))
    ensures SubText(p, text, true) == SubText(p, text, false)
    ensures text != "" ==> SubText(p, text, true).0 == [text[0]] + SubText(p, text[1..], true).0
                           && SubText(p, text, true).1 == SubText(p, text[1..], true).1
  {
    assert 0 < |p.first| <= |text| ==> text[..|p.first|][0] == text[0];
  }

  lemma OtherFirst(p: Pattern, text: string)
    requires GoodPattern(p) && text != "" && !IsRunChar(text[0])
    requires var (out, n) := SubText(p, text[1..], true);
             Words(out) == Sub(p, Words(text[1..])).0 && n == Sub(p, Words(text[1..])).1
    ensures var (out, n) := SubText(p, text, true);
            Words(out) == Sub(p, Words(text)).0 && n == Sub(p, Words(text)).1
  {
    OpenEitherWay(p, text);
    var c := text[0];
    var rest := SubText(p, text[1..], true).0;
    assert ([c] + rest)[0] == c && ([c] + rest)[1..] == rest;
    if IsSpace(c) {
      StartsWithSpace(text);
      StartsWithSpace([c] + rest);
    } else {
      StartsWithOther(text);
      StartsWithOther([c] + rest);
      WordEndsAs([c], p.first);
      assert Words(text)[1..] == Words(text[1..]);
    }
  }

  lemma RunConcat(a: string, b: string)
    requires IsRun(a) && forall i | 0 <= i < |b| :: IsRunChar(b[i])
    ensures IsRun(a + b)
  {
  }

  /** Two words with white space between them. */
  lemma WordsOfTwo(a: string, gap: string, b: string, rest: string)
    requires IsRun(a) && IsRun(b) && gap != "" && AllSpace(gap) && (rest != "" ==> !IsRunChar(rest[0]))
    ensures Words(a + (gap + (b + rest))) == [a, b] + Words(rest)
  {
    var behind := gap + (b + rest);
    RunIsNoSpace(gap[0]);
    WordsOfRun(a, behind);
    WordsOfGap(gap, b + rest);
    WordsOfRun(b, rest);
  }

  lemma GluedOfOne(r: seq<string>, tail: string, rest: string)
    requires |r| == 1 && IsRun(r[0] + tail) && (rest != "" ==> !IsRunChar(rest[0]))
    ensures Words(Join(r) + (tail + rest)) == Glued(r, tail) + Words(rest)
  {
    assert Join(r) + (tail + rest) == r[0] + tail + rest;
    WordsOfRun(r[0] + tail, rest);
    assert Glued(r, tail) == [r[0] + tail];
  }

  lemma GluedOfTwo(r: seq<string>, tail: string, rest: string)
    requires |r| == 2 && IsRun(r[0]) && IsRun(r[1] + tail) && (rest != "" ==> !IsRunChar(rest[0]))
    ensures Words(Join(r) + (tail + rest)) == Glued(r, tail) + Words(rest)
  {
    assert r[1..] == [r[1]];
    assert Join(r) + (tail + rest) == r[0] + (" " + (r[1] + tail + rest));
    WordsOfTwo(r[0], " ", r[1] + tail, rest);
    assert Glued(r, tail) == [r[0], r[1] + tail];
  }

  lemma WordsOfGlued(r: seq<string>, tail: string, rest: string)
    requires 1 <= |r| <= 2 && forall i | 0 <= i < |r| :: IsRun(r[i])
    requires (forall i | 0 <= i < |tail| :: IsRunChar(tail[i])) && (rest != "" ==> !IsRunChar(rest[0]))
    ensures Words(Join(r) + (tail + rest)) == Glued(r, tail) + Words(rest)
  {
    RunConcat(r[|r| - 1], tail);
    if |r| == 1 {
      GluedOfOne(r, tail, rest);
    } else {
      GluedOfTwo(r, tail, rest);
    }
  }

  /** The right class of a match with what is glued to it, and the rest. */
  lemma CutTail(second: string, behind: string) returns (tail: string, after: string)
    requires IsRun(second) && StartsAs(behind, second)
    ensures behind == second + tail + after && behind[|second|..] == tail + after && |after| < |behind|
    ensures (forall i | 0 <= i < |tail| :: IsRunChar(tail[i])) && (after != "" ==> !IsRunChar(after[0]))
    ensures tail != "" ==> tail[0] == ':'
  {
    var rest := behind[|second|..];
    var n := RunLength(rest);
    tail, after := rest[..n], rest[n..];
    assert behind == second + rest && rest == tail + after;
    assert rest != "" ==> rest[0] == behind[|second|];
  }

  lemma StartsWithTail(second: string, tail: string)
    requires tail != "" ==> tail[0] == ':'
    ensures StartsAs(second + tail, second) && (second + tail)[|second|..] == tail
  {
    assert (second + tail)[..|second|] == second;
  }

  lemma SubStep(p: Pattern, text: string, behind: string)
    requires MatchLength(p, text) > 0 && text[MatchLength(p, text)..] == behind
    ensures SubText(p, text, true).0 == Join(p.replacement) + SubText(p, behind, false).0
    ensures SubText(p, text, true).1 == SubText(p, behind, false).1 + 1
  {
  }

  lemma SubAtMatch(p: Pattern, text: string, tail: string, after: string)
    requires IsRun(p.first) && MatchLength(p, text) > 0 && text[MatchLength(p, text)..] == tail + after
    requires (forall i | 0 <= i < |tail| :: IsRunChar(tail[i])) && (after != "" ==> !IsRunChar(after[0]))
    ensures SubText(p, text, true).0 == Join(p.replacement) + (tail + SubText(p, after, true).0)
    ensures SubText(p, text, true).1 == SubText(p, after, true).1 + 1
  {
    SubInRun(p, tail, after);
    SubStep(p, text, tail + after);
  }

  lemma SubWordsAtMatch(p: Pattern, text: string) returns (tail: string, after: string)
    requires GoodPattern(p) && MatchLength(p, text) > 0
    ensures |after| < |text| && (tail != "" ==> tail[0] == ':')
    ensures (forall i | 0 <= i < |tail| :: IsRunChar(tail[i])) && (after != "" ==> !IsRunChar(after[0]))
    ensures Words(text) == [p.first, p.second + tail] + Words(after)
    ensures text[MatchLength(p, text)..] == tail + after
  {
    var gap, behind := MatchParts(p, text);
    tail, after := CutTail(p.second, behind);
    RunConcat(p.second, tail);
    WordsOfTwo(p.first, gap, p.second + tail, after);
    assert text == p.first + (gap + (p.second + tail + after));
  }

  lemma SubAtPair(p: Pattern, tail: string, rest: seq<string>)
    requires tail != "" ==> tail[0] == ':'
    ensures var words := [p.first, p.second + tail] + rest;
            Sub(p, words).0 == Glued(p.replacement, tail) + Sub(p, rest).0 && Sub(p, words).1 == Sub(p, rest).1 + 1
  {
    var words := [p.first, p.second + tail] + rest;
    StartsWithTail(p.second, tail);
    assert words[2..] == rest && words[1] == p.second + tail;
    assert p.first[|p.first| - |p.first|..] == p.first;
    assert MatchesAt(p, words, 0);
  }

  lemma SubAtRun(p: Pattern, text: string, run: string, rest: string)
    requires IsRun(p.first) && IsRun(run) && text == run + rest && (rest != "" ==> !IsRunChar(rest[0]))
    requires MatchLength(p, text) == 0
    ensures SubText(p, text, true).0 == run + SubText(p, rest, true).0
    ensures SubText(p, text, true).1 == SubText(p, rest, true).1
    ensures var out := SubText(p, rest, true).0; out != "" ==> !IsRunChar(out[0])
  {
    assert text[1..] == run[1..] + rest;
    SubInRun(p, run[1..], rest);
    SubSkip(p, text, run[1..] + rest, true);
    assert [text[0]] + (run[1..] + SubText(p, rest, true).0) == run + SubText(p, rest, true).0;
    OpenEitherWay(p, rest);
  }

  lemma SubWordsAtRun(p: Pattern, text: string) returns (run: string, rest: string)
    requires GoodPattern(p) && text != "" && IsRunChar(text[0]) && MatchLength(p, text) == 0
    ensures |rest| < |text| && Words(text) == [run] + Words(rest) && !MatchesAt(p, Words(text), 0)
    ensures SubText(p, text, true).0 == run + SubText(p, rest, true).0
    ensures SubText(p, text, true).1 == SubText(p, rest, true).1
    ensures var out := SubText(p, rest, true).0; Words(run + out) == [run] + Words(out)
  {
    run, rest := StartsWithRun(text);
    SubAtRun(p, text, run, rest);
    WordsOfRun(run, SubText(p, rest, true).0);
    WordEndsAs(run, p.first);
    if run == p.first && Words(rest) != [] {
      NoPairAtRun(p, text, rest);
    }
  }

  lemma NoPairAtRun(p: Pattern, text: string, rest: string)
    requires GoodPattern(p) && text == p.first + rest && (rest != "" ==> !IsRunChar(rest[0]))
    requires MatchLength(p, text) == 0
    requires Words(rest) != []
    ensures !StartsAs(Words(rest)[0], p.second)
  {
    var w := Words(rest)[0];
    if StartsAs(w, p.second) {
      WordsAreWords(rest);
      assert w[..|p.second|][0] == w[0];
      var gap, after := FirstWord(rest);
      assert (w + after)[0] == w[0];
      assert (w + after)[..|p.second|] == w[..|p.second|];
      assert text == "" + (p.first + (gap + (w + after)));
      assert Occurs(text, p, "", gap, w + after);
      MatchLengthIs(p, text, gap, w + after);
    }
  }

  /** The words of the text after the substitution are the words before it, substituted, and both
      count the same hits. */
  lemma {:induction false} SubWords(p: Pattern, text: string)
    requires GoodPattern(p)
    ensures var (out, n) := SubText(p, text, true);
            Words(out) == Sub(p, Words(text)).0 && n == Sub(p, Words(text)).1
    decreases |text|
  {
    if text == "" {
    } else if !IsRunChar(text[0]) {
      SubWords(p, text[1..]);
      OtherFirst(p, text);
    } else if MatchLength(p, text) > 0 {
      var tail, after := SubWordsAtMatch(p, text);
      SubWords(p, after);
      SubAtMatch(p, text, tail, after);
      OpenEitherWay(p, after);
      WordsOfGlued(p.replacement, tail, SubText(p, after, true).0);
      SubAtPair(p, tail, Words(after));
    } else {
      var run, rest := SubWordsAtRun(p, text);
      SubWords(p, rest);
      assert Words(text)[1..] == Words(rest);
    }
  }

  lemma {:induction false} LiteralWords(ps: seq<Pattern>, text: string)
    requires GoodPatterns(ps)
    ensures var (out, n) := LiteralText(ps, text);
            Words(out) == SubAll(ps, Words(text)).0 && n == SubAll(ps, Words(text)).1 && (n == 0 ==> out == text)
  {
    if ps != [] {
      var work := LiteralText(ps[..|ps| - 1], text).0;
      LiteralWords(ps[..|ps| - 1], text);
      SubWords(ps[|ps| - 1], work);
      NoHitNoChange(ps[|ps| - 1], work, true);
    }
  }

  // -------------------------------------------------------------- measure

  /** How many `dark:` classes there are. */
  function Darks(words: seq<string>): nat {
    if words == [] then 0 else (if IsDark(words[0]) then 1 else 0) + Darks(words[1..])
  }

  lemma {:induction false} DarksConcat(a: seq<string>, b: seq<string>)
    ensures Darks(a + b) == Darks(a) + Darks(b)
  {
    if a == [] {
      assert a + b == b;
    } else {
      assert (a + b)[1..] == a[1..] + b;
      DarksConcat(a[1..], b);
    }
  }

  lemma {:induction false} NoDarks(words: seq<string>)
    requires forall i | 0 <= i < |words| :: !IsDark(words[i])
    ensures Darks(words) == 0
  {
    if words != [] { NoDarks(words[1..]); }
  }

  /** Each hit removes at least one dark class. */
  lemma {:induction false} SubLowers(p: Pattern, words: seq<string>)
    requires GoodPattern(p)
    ensures var (out, n) := Sub(p, words); Darks(out) + n <= Darks(words)
    decreases |words|
  {
    if words != [] {
      if MatchesAt(p, words, 0) {
        var tail := words[1][|p.second|..];
        SubLowers(p, words[2..]);
        assert words[1..][1..] == words[2..];
        StartsDark(words[1], p.second);
        DarksConcat(Glued(p.replacement, tail), Sub(p, words[2..]).0);
        GluedIsNotDark(p, tail);
        NoDarks(Glued(p.replacement, tail));
      } else {
        SubLowers(p, words[1..]);
        assert ([words[0]] + Sub(p, words[1..]).0)[1..] == Sub(p, words[1..]).0;
      }
    }
  }

  lemma StartsDark(s: string, second: string)
    requires StartsAs(s, second) && IsDark(second)
    ensures IsDark(s)
  {
    assert forall i | 0 <= i < |second| :: s[i] == s[..|second|][i];
  }

  lemma GluedIsNotDark(p: Pattern, tail: string)
    requires GoodPattern(p)
    ensures forall i | 0 <= i < |p.replacement| :: !IsDark(Glued(p.replacement, tail)[i])
  {
  }

  lemma {:induction false} SubAllLowers(ps: seq<Pattern>, words: seq<string>)
    requires GoodPatterns(ps)
    ensures var (out, n) := SubAll(ps, words); Darks(out) + n <= Darks(words)
  {
    if ps != [] {
      SubAllLowers(ps[..|ps| - 1], words);
      SubLowers(ps[|ps| - 1], SubAll(ps[..|ps| - 1], words).0);
    }
  }

  /** Every literal hit removes at least one dark class; no hit changes nothing. */
  lemma LiteralLowers(table: seq<Mapping>, text: string)
    requires GoodTable(table)
    ensures var (work, n) := LiteralText(Patterns(table), text);
            Darks(Words(work)) + n <= Darks(Words(text)) && (n == 0 ==> work == text)
  {
    PatternsAreGood(table);
    LiteralWords(Patterns(table), text);
    SubAllLowers(Patterns(table), Words(text));
  }

  lemma LiteralStep(before: seq<Pattern>, p: Pattern, ps: seq<Pattern>, text: string)
    requires ps != [] && before == ps[..|ps| - 1] && p == ps[|ps| - 1]
    ensures var last := SubText(p, LiteralText(before, text).0, true);
            LiteralText(ps, text).0 == last.0 && LiteralText(ps, text).1 == LiteralText(before, text).1 + last.1
  {
  }

  method LiteralPass(text: string, table: seq<Mapping>) returns (work: string, hits: nat)
    requires GoodTable(table)
    ensures work == LiteralText(Patterns(table), text).0 && hits == LiteralText(Patterns(table), text).1
    ensures Darks(Words(work)) + hits <= Darks(Words(text))
    ensures hits == 0 ==> work == text
  {
    LiteralLowers(table, text);
    var ps := Patterns(table);
    work, hits := text, 0;
    for i := 0 to |ps|
      invariant work == LiteralText(ps[..i], text).0 && hits == LiteralText(ps[..i], text).1
    {
      assert ps[..i + 1][..i] == ps[..i];
      LiteralStep(ps[..i], ps[i], ps[..i + 1], text);
      var (out, n) := SubText(ps[i], work, true);
      work, hits := out, hits + n;
    }
    assert ps[..|ps|] == ps;
  }

  // ------------------------------------- the literal pass leaves no pair

  predicate NoMatch(p: Pattern, words: seq<string>) {
    forall i: nat | i < |words| :: !MatchesAt(p, words, i)
  }

  lemma NoMatchCons(p: Pattern, w: string, rest: seq<string>)
    ensures NoMatch(p, [w] + rest) <==>
            NoMatch(p, rest) && !(rest != [] && EndsAs(w, p.first) && StartsAs(rest[0], p.second))
  {
    var all := [w] + rest;
    if NoMatch(p, all) {
      assert !MatchesAt(p, all, 0);
      forall i: nat | i < |rest| ensures !MatchesAt(p, rest, i) {
        assert !MatchesAt(p, all, i + 1);
      }
    }
    if NoMatch(p, rest) && !(rest != [] && EndsAs(w, p.first) && StartsAs(rest[0], p.second)) {
      forall i: nat | i < |all| ensures !MatchesAt(p, all, i) {
        if i > 0 { assert !MatchesAt(p, rest, i - 1); }
      }
    }
  }

  /** What the last class of a replacement becomes is no left half of a pattern. */
  lemma GluedIsNoFirst(p: Pattern, q: Pattern, tail: string)
    requires GoodPattern(p) && GoodPattern(q)
    requires (tail == "" || tail[0] == ':') && forall i | 0 <= i < |tail| :: IsRunChar(tail[i])
    ensures !EndsAs(p.replacement[|p.replacement| - 1] + tail, q.first)
  {
    var last := p.replacement[|p.replacement| - 1];
    var w := last + tail;
    assert IsRun(w);
    WordEndsAs(w, q.first);
    if tail == "" {
      assert w == last;
    } else {
      assert w[|last|] == ':';
    }
  }

  /** Putting a replacement in front of words makes no match that was not there. */
  lemma ReplacementMakesNone(p: Pattern, q: Pattern, tail: string, rest: seq<string>)
    requires GoodPattern(p) && GoodPattern(q) && NoMatch(q, rest)
    requires (tail == "" || tail[0] == ':') && forall i | 0 <= i < |tail| :: IsRunChar(tail[i])
    ensures NoMatch(q, Glued(p.replacement, tail) + rest)
    ensures !IsDark((Glued(p.replacement, tail) + rest)[0])
  {
    var r := Glued(p.replacement, tail);
    var last := r[|r| - 1];
    GluedIsNoFirst(p, q, tail);
    GluedIsNotDark(p, tail);
    NoMatchCons(q, last, rest);
    if |r| == 1 {
      assert r + rest == [last] + rest;
    } else {
      if StartsAs(last, q.second) { StartsDark(last, q.second); }
      assert r + rest == [r[0]] + ([last] + rest);
      NoMatchCons(q, r[0], [last] + rest);
    }
  }

  lemma TailIsRun(p: Pattern, w: string)
    requires GoodPattern(p) && IsWord(w) && StartsAs(w, p.second)
    ensures var tail := w[|p.second|..];
            (tail == "" || tail[0] == ':') && forall i | 0 <= i < |tail| :: IsRunChar(tail[i])
  {
    assert w[..|p.second|][0] == w[0];
  }

  lemma NoMatchBehind(q: Pattern, words: seq<string>, n: nat)
    requires n <= |words|
    ensures NoMatch(q, words) ==> NoMatch(q, words[n..])
  {
    if NoMatch(q, words) {
      forall i: nat | i < |words[n..]| ensures !MatchesAt(q, words[n..], i) {
        assert !MatchesAt(q, words, n + i);
      }
    }
  }

  /** What starts the result started the words, or is no dark class. */
  predicate HeadKept(out: seq<string>, words: seq<string>) {
    out != [] ==> words != [] && (out[0] == words[0] || !IsDark(out[0]))
  }

  lemma SubLeavesNoneAtPair(p: Pattern, q: Pattern, words: seq<string>)
    requires GoodPattern(p) && GoodPattern(q) && AreWords(words)
    requires MatchesAt(p, words, 0) && NoMatch(q, Sub(p, words[2..]).0)
    ensures NoMatch(q, Sub(p, words).0) && HeadKept(Sub(p, words).0, words)
  {
    TailIsRun(p, words[1]);
    ReplacementMakesNone(p, q, words[1][|p.second|..], Sub(p, words[2..]).0);
  }

  /** One substitution leaves no match of its own pattern, and brings back none of another. */
  lemma {:induction false} SubLeavesNone(p: Pattern, q: Pattern, words: seq<string>)
    requires GoodPattern(p) && GoodPattern(q) && (q == p || NoMatch(q, words)) && AreWords(words)
    ensures NoMatch(q, Sub(p, words).0) && HeadKept(Sub(p, words).0, words)
    decreases |words|
  {
    if words != [] {
      if MatchesAt(p, words, 0) {
        NoMatchBehind(q, words, 2);
        SubLeavesNone(p, q, words[2..]);
        SubLeavesNoneAtPair(p, q, words);
      } else {
        NoMatchBehind(q, words, 1);
        SubLeavesNone(p, q, words[1..]);
        HeadStaysApart(p, q, words);
      }
    }
  }

  lemma HeadStaysApart(p: Pattern, q: Pattern, words: seq<string>)
    requires GoodPattern(q) && words != [] && !MatchesAt(p, words, 0)
    requires q == p || !MatchesAt(q, words, 0)
    requires NoMatch(q, Sub(p, words[1..]).0) && HeadKept(Sub(p, words[1..]).0, words[1..])
    ensures NoMatch(q, Sub(p, words).0) && HeadKept(Sub(p, words).0, words)
  {
    var out := Sub(p, words[1..]).0;
    assert Sub(p, words).0 == [words[0]] + out;
    NoMatchCons(q, words[0], out);
    if out != [] && StartsAs(out[0], q.second) {
      StartsDark(out[0], q.second);
    }
  }

  lemma {:induction false} SubKeepsWords(p: Pattern, words: seq<string>)
    requires GoodPattern(p) && AreWords(words)
    ensures AreWords(Sub(p, words).0)
    decreases |words|
  {
    if words != [] {
      if MatchesAt(p, words, 0) {
        SubKeepsWords(p, words[2..]);
        TailIsRun(p, words[1]);
        GluedAreWords(p, words[1][|p.second|..], Sub(p, words[2..]).0);
      } else {
        SubKeepsWords(p, words[1..]);
      }
    }
  }

  lemma GluedAreWords(p: Pattern, tail: string, rest: seq<string>)
    requires GoodPattern(p) && AreWords(rest) && forall i | 0 <= i < |tail| :: IsRunChar(tail[i])
    ensures AreWords(Glued(p.replacement, tail) + rest)
  {
    var r := Glued(p.replacement, tail);
    RunConcat(p.replacement[|p.replacement| - 1], tail);
    forall i | 0 <= i < |r + rest| ensures IsWord((r + rest)[i]) {
      if i < |r| - 1 {
        assert r[i] == p.replacement[i];
      }
    }
  }

  lemma SubAllStep(ps: seq<Pattern>, words: seq<string>, before: seq<Pattern>, p: Pattern)
    requires ps != [] && before == ps[..|ps| - 1] && p == ps[|ps| - 1]
    ensures SubAll(ps, words).0 == Sub(p, SubAll(before, words).0).0
  {
  }

  lemma {:induction false} SubAllLeavesNone(ps: seq<Pattern>, words: seq<string>, q: Pattern)
    requires GoodPatterns(ps) && q in ps && AreWords(words)
    ensures NoMatch(q, SubAll(ps, words).0)
  {
    var before, p := ps[..|ps| - 1], ps[|ps| - 1];
    SubAllStep(ps, words, before, p);
    if q != p {
      SubAllLeavesNone(before, words, q);
    }
    SubAllKeepsWords(before, words);
    SubLeavesNone(p, q, SubAll(before, words).0);
  }

  lemma {:induction false} SubAllKeepsWords(ps: seq<Pattern>, words: seq<string>)
    requires GoodPatterns(ps) && AreWords(words)
    ensures AreWords(SubAll(ps, words).0)
  {
    if ps != [] {
      var n := |ps| - 1;
      SubAllKeepsWords(ps[..n], words);
      SubKeepsWords(ps[n], SubAll(ps[..n], words).0);
    }
  }

  lemma {:induction false} SubHitsIff(p: Pattern, words: seq<string>)
    ensures Sub(p, words).1 == 0 <==> NoMatch(p, words)
    ensures NoMatch(p, words) ==> Sub(p, words).0 == words
    decreases |words|
  {
    if words != [] {
      assert words == [words[0]] + words[1..];
      if MatchesAt(p, words, 0) {
        assert !NoMatch(p, words);
      } else {
        SubHitsIff(p, words[1..]);
        NoMatchCons(p, words[0], words[1..]);
        assert |words| > 1 ==> words[1..][0] == words[1];
      }
    }
  }

  /** The patterns find something in a text exactly when one of them matches the words it has. */
  lemma {:induction false} SubAllHitsIff(ps: seq<Pattern>, words: seq<string>)
    ensures SubAll(ps, words).1 == 0 <==> forall k | 0 <= k < |ps| :: NoMatch(ps[k], words)
    ensures SubAll(ps, words).1 == 0 ==> SubAll(ps, words).0 == words
  {
    if ps != [] {
      var n := |ps| - 1;
      SubAllHitsIff(ps[..n], words);
      SubHitsIff(ps[n], SubAll(ps[..n], words).0);
      assert forall k | 0 <= k < n :: ps[..n][k] == ps[k];
    }
  }

  /** No pattern matches anywhere in the text. */
  predicate Clean(ps: seq<Pattern>, text: string) {
    forall k | 0 <= k < |ps| :: NoMatch(ps[k], Words(text))
  }

  /** A literal pass over a text in which no pattern matches finds and changes nothing; over any other
      it finds something. */
  lemma CleanIff(ps: seq<Pattern>, text: string)
    requires GoodPatterns(ps)
    ensures LiteralText(ps, text).1 == 0 <==> Clean(ps, text)
    ensures Clean(ps, text) ==> LiteralText(ps, text) == (text, 0)
  {
    LiteralWords(ps, text);
    SubAllHitsIff(ps, Words(text));
  }

  lemma LiteralPassCleans(ps: seq<Pattern>, text: string)
    requires GoodPatterns(ps)
    ensures Clean(ps, LiteralText(ps, text).0)
  {
    LiteralWords(ps, text);
    WordsAreWords(text);
    forall k | 0 <= k < |ps| ensures NoMatch(ps[k], Words(LiteralText(ps, text).0)) {
      SubAllLeavesNone(ps, Words(text), ps[k]);
    }
  }

  /** The literal pass alone is idempotent, to the character: it leaves no match of any pattern. */
  lemma LiteralPassIdempotent(table: seq<Mapping>, text: string)
    requires GoodTable(table)
    ensures var work := LiteralText(Patterns(table), text).0;
            LiteralText(Patterns(table), work) == (work, 0)
  {
    PatternsAreGood(table);
    LiteralPassCleans(Patterns(table), text);
    CleanIff(Patterns(table), LiteralText(Patterns(table), text).0);
  }
}
