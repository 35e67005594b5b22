/**
 Text as the theme codemod cuts it (scripts/theme_codemod.py): into words, for the guards of its
 patterns (`_LITERAL_PAIRS`), and into classes, for `str.split` and `" ".join`. A word is a run of
 the characters the guards look at; any other visible character stands alone; white space separates.
 */
module ThemeText {

  /** What the guards of the patterns take for the inside of a class. */
  predicate IsRunChar(c: char) {
    'a' <= c <= 'z' || 'A' <= c <= 'Z' || '0' <= c <= '9' || c == '_' || c == ':' || c == '/' || c == '-'
  }

  predicate IsRun(s: string) {
    s != "" && forall i | 0 <= i < |s| :: IsRunChar(s[i])
  }

  /** White space as `\s` and `str.split` know it, in all of Unicode. */
  predicate IsSpace(c: char) {
    var n := c as int;
    || 9 <= n <= 13 || 28 <= n <= 32 || n == 0x85 || n == 0xA0 || n == 0x1680
    || 0x2000 <= n <= 0x200A || n == 0x2028 || n == 0x2029 || n == 0x202F || n == 0x205F || n == 0x3000
  }

  predicate AllSpace(s: string) {
    forall i | 0 <= i < |s| :: IsSpace(s[i])
  }

  lemma RunIsNoSpace(c: char)
    ensures !(IsRunChar(c) && IsSpace(c))
  {
  }

  // ---------------------------------------------------------------- words

  function RunLength(s: string): (n: nat)
    ensures n <= |s| && (forall i | 0 <= i < n :: IsRunChar(s[i])) && (n < |s| ==> !IsRunChar(s[n]))
    ensures s != "" && IsRunChar(s[0]) ==> n > 0
  {
    if s == "" || !IsRunChar(s[0]) then 0 else 1 + RunLength(s[1..])
  }

  function Words(text: string): seq<string>
    decreases |text|
  {
    if text == "" then []
    else if IsSpace(text[0]) then Words(text[1..])
    else if IsRunChar(text[0]) then [text[..RunLength(text)]] + Words(text[RunLength(text)..])
    else [[text[0]]] + Words(text[1..])
  }

  /** What can be a word. */
  predicate IsWord(w: string) {
    IsRun(w) || (|w| == 1 && !IsRunChar(w[0]))
  }

  predicate AreWords(words: seq<string>) {
    forall i | 0 <= i < |words| :: IsWord(words[i])
  }

  lemma {:induction false} WordsAreWords(text: string)
    ensures AreWords(Words(text))
    decreases |text|
  {
    if text != "" {
      if IsSpace(text[0]) || !IsRunChar(text[0]) {
        WordsAreWords(text[1..]);
      } else {
        WordsAreWords(text[RunLength(text)..]);
      }
    }
  }

  lemma {:induction false} RunLengthIs(run: string, rest: string)
    requires IsRun(run) && (rest != "" ==> !IsRunChar(rest[0]))
    ensures RunLength(run + rest) == |run|
  {
    assert (run + rest)[1..] == run[1..] + rest;
    if |run| == 1 {
      assert run[1..] + rest == rest;
    } else {
      RunLengthIs(run[1..], rest);
    }
  }

  /** A whole word in front of a text. */
  lemma WordsOfRun(run: string, rest: string)
    requires IsRun(run) && (rest != "" ==> !IsRunChar(rest[0]))
    ensures Words(run + rest) == [run] + Words(rest)
  {
    RunLengthIs(run, rest);
    assert (run + rest)[0] == run[0] && (run + rest)[..|run|] == run && (run + rest)[|run|..] == rest;
    RunIsNoSpace(run[0]);
  }

  /** A text that starts with a word is that word and the rest. */
  lemma StartsWithRun(text: string) returns (run: string, rest: string)
    requires text != "" && IsRunChar(text[0])
    ensures IsRun(run) && text == run + rest && (rest != "" ==> !IsRunChar(rest[0]))
    ensures Words(text) == [run] + Words(rest) && |rest| < |text| && |run| == RunLength(text)
  {
    var n := RunLength(text);
    run, rest := text[..n], text[n..];
    WordsOfRun(run, rest);
  }

  lemma StartsWithSpace(text: string)
    requires text != "" && IsSpace(text[0])
    ensures Words(text) == Words(text[1..]) && !IsRunChar(text[0])
  {
    RunIsNoSpace(text[0]);
  }

  lemma StartsWithOther(text: string)
    requires text != "" && !IsSpace(text[0]) && !IsRunChar(text[0])
    ensures Words(text) == [[text[0]]] + Words(text[1..]) && !IsRun([text[0]])
  {
    assert [text[0]][0] == text[0];
  }

  lemma {:induction false} WordsOfGap(gap: string, rest: string)
    requires AllSpace(gap)
    ensures Words(gap + rest) == Words(rest)
  {
    if gap == "" {
      assert gap + rest == rest;
    } else {
      assert (gap + rest)[0] == gap[0] && (gap + rest)[1..] == gap[1..] + rest;
      StartsWithSpace(gap + rest);
      WordsOfGap(gap[1..], rest);
    }
  }

  /** Words are found one by one, so a text can be cut where no word goes on. */
  lemma {:induction false} WordsConcat(a: string, b: string)
    requires a != "" && b != "" ==> !(IsRunChar(a[|a| - 1]) && IsRunChar(b[0]))
    ensures Words(a + b) == Words(a) + Words(b)
    decreases |a|
  {
    if a == "" {
      assert a + b == b;
    } else if IsRunChar(a[0]) {
      var run, rest := StartsWithRun(a);
      LastOf(run, rest);
      WordsConcat(rest, b);
      RunInFront(run, rest, b);
      Regrouped(run, Words(rest), Words(b));
    } else {
      OtherConcat(a, b);
      WordsConcat(a[1..], b);
    }
  }

  lemma LastOf(run: string, rest: string)
    requires IsRun(run)
    ensures (run + rest)[|run + rest| - 1] == if rest == "" then run[|run| - 1] else rest[|rest| - 1]
  {
  }

  lemma RunInFront(run: string, rest: string, b: string)
    requires IsRun(run) && (rest != "" ==> !IsRunChar(rest[0])) && (rest == "" && b != "" ==> !IsRunChar(b[0]))
    ensures Words(run + rest + b) == [run] + Words(rest + b)
  {
    var behind := rest + b;
    assert run + rest + b == run + behind;
    assert behind != "" ==> behind[0] == if rest == "" then b[0] else rest[0];
    WordsOfRun(run, behind);
  }

  lemma Regrouped<T>(x: T, a: seq<T>, b: seq<T>)
    ensures [x] + (a + b) == [x] + a + b
  {
  }

  lemma OtherConcat(a: string, b: string)
    requires a != "" && !IsRunChar(a[0])
    ensures Words(a + b) == (if IsSpace(a[0]) then [] else [[a[0]]]) + Words(a[1..] + b)
    ensures Words(a) == (if IsSpace(a[0]) then [] else [[a[0]]]) + Words(a[1..])
  {
    assert (a + b)[0] == a[0] && (a + b)[1..] == a[1..] + b;
    if IsSpace(a[0]) {
      StartsWithSpace(a);
      StartsWithSpace(a + b);
    } else {
      StartsWithOther(a);
      StartsWithOther(a + b);
    }
  }

  /** The first word, if it is a run, stands behind white space. */
  lemma {:induction false} FirstWord(text: string) returns (gap: string, after: string)
    requires Words(text) != [] && IsRun(Words(text)[0])
    ensures text == gap + (Words(text)[0] + after) && AllSpace(gap) && (after != "" ==> !IsRunChar(after[0]))
    decreases |text|
  {
    if IsSpace(text[0]) {
      StartsWithSpace(text);
      gap, after := FirstWord(text[1..]);
      gap := [text[0]] + gap;
    } else {
      if !IsRunChar(text[0]) { StartsWithOther(text); }
      var run;
      run, after := StartsWithRun(text);
      gap := "";
    }
  }

  // -------------------------------------------------------------- classes

  predicate IsClass(c: string) {
    c != "" && forall i | 0 <= i < |c| :: !IsSpace(c[i])
  }

  predicate AreClasses(classes: seq<string>) {
    forall i | 0 <= i < |classes| :: IsClass(classes[i])
  }

  function VisibleLength(s: string): (n: nat)
    ensures n <= |s| && (forall i | 0 <= i < n :: !IsSpace(s[i])) && (n < |s| ==> IsSpace(s[n]))
    ensures s != "" && !IsSpace(s[0]) ==> n > 0
  {
    if s == "" || IsSpace(s[0]) then 0 else 1 + VisibleLength(s[1..])
  }

  /** `str.split()`. */
  function Split(s: string): (classes: seq<string>)
    ensures AreClasses(classes)
    decreases |s|
  {
    if s == "" then []
    else if IsSpace(s[0]) then Split(s[1..])
    else [s[..VisibleLength(s)]] + Split(s[VisibleLength(s)..])
  }

  /** `" ".join(...)`. */
  function Join(classes: seq<string>): string {
    if classes == [] then ""
    else if |classes| == 1 then classes[0]
    else classes[0] + (" " + Join(classes[1..]))
  }

  lemma RunIsClass(s: string)
    requires IsRun(s)
    ensures IsClass(s)
  {
    forall i | 0 <= i < |s| ensures !IsSpace(s[i]) {
      RunIsNoSpace(s[i]);
    }
  }

  lemma {:induction false} VisibleLengthIs(c: string, rest: string)
    requires IsClass(c) && (rest != "" ==> IsSpace(rest[0]))
    ensures VisibleLength(c + rest) == |c|
  {
    assert (c + rest)[1..] == c[1..] + rest;
    if |c| == 1 {
      assert c[1..] + rest == rest;
    } else {
      VisibleLengthIs(c[1..], rest);
    }
  }

  lemma SplitOfClass(c: string, rest: string)
    requires IsClass(c) && (rest != "" ==> IsSpace(rest[0]))
    ensures Split(c + rest) == [c] + Split(rest)
  {
    VisibleLengthIs(c, rest);
    assert (c + rest)[0] == c[0] && (c + rest)[..|c|] == c && (c + rest)[|c|..] == rest;
  }

  /** What is joined is split into the same classes. */
  lemma {:induction false} SplitJoin(classes: seq<string>)
    requires AreClasses(classes)
    ensures Split(Join(classes)) == classes
  {
    if |classes| == 1 {
      SplitOfClass(classes[0], "");
      assert classes[0] + "" == classes[0];
    } else if classes != [] {
      var behind := Join(classes[1..]);
      SplitJoin(classes[1..]);
      SplitOfClass(classes[0], " " + behind);
      assert (" " + behind)[1..] == behind;
    }
  }

  /** The words of each class in turn. */
  function WordsAll(classes: seq<string>): seq<string> {
    if classes == [] then [] else Words(classes[0]) + WordsAll(classes[1..])
  }

  lemma {:induction false} WordsAllConcat(a: seq<string>, b: seq<string>)
    ensures WordsAll(a + b) == WordsAll(a) + WordsAll(b)
  {
    if a == [] {
      assert a + b == b;
    } else {
      assert (a + b)[0] == a[0] && (a + b)[1..] == a[1..] + b;
      WordsAllConcat(a[1..], b);
    }
  }

  /** No word goes across white space. */
  lemma {:induction false} WordsOfSplit(s: string)
    ensures Words(s) == WordsAll(Split(s))
    decreases |s|
  {
    if s == "" {
    } else if IsSpace(s[0]) {
      StartsWithSpace(s);
      WordsOfSplit(s[1..]);
    } else {
      var n := VisibleLength(s);
      var c, rest := s[..n], s[n..];
      assert s == c + rest;
      if rest != "" { RunIsNoSpace(rest[0]); }
      WordsConcat(c, rest);
      WordsOfSplit(rest);
    }
  }

  lemma WordsOfJoin(classes: seq<string>)
    requires AreClasses(classes)
    ensures Words(Join(classes)) == WordsAll(classes)
  {
    SplitJoin(classes);
    WordsOfSplit(Join(classes));
  }
}
