/** Strings as Python's standard library handles them: ordering, sorting, stripping, line splitting. */
module Text {

  // ------------------------------------------------------------- ordering

  predicate LexLe(a: string, b: string) {
    a == "" || (b != "" && (a[0] < b[0] || (a[0] == b[0] && LexLe(a[1..], b[1..]))))
  }

  lemma {:induction false} LexTotal(a: string, b: string)
    ensures LexLe(a, b) || LexLe(b, a)
    ensures LexLe(a, b) && LexLe(b, a) ==> a == b
  {
    if a != "" && b != "" {
      LexTotal(a[1..], b[1..]);
      assert a == [a[0]] + a[1..] && b == [b[0]] + b[1..];
    }
  }

  lemma {:induction false} LexTransitive(a: string, b: string, c: string)
    requires LexLe(a, b) && LexLe(b, c)
    ensures LexLe(a, c)
  {
    if a != "" && b != "" && c != "" && a[0] == b[0] == c[0] {
      LexTransitive(a[1..], b[1..], c[1..]);
    }
  }

  /** The order of strings: a prefix comes first, and otherwise the first difference decides. */
  lemma {:induction false} LexLeIff(a: string, b: string)
    ensures LexLe(a, b) <==>
            a <= b || exists i :: 0 <= i < |a| && i < |b| && a[..i] == b[..i] && (a[i] as int) < b[i] as int
  {
    if a != "" && b != "" && a[0] == b[0] {
      LexLeIff(a[1..], b[1..]);
      if i :| 0 <= i < |a| - 1 && i < |b| - 1 && a[1..][..i] == b[1..][..i] && a[1..][i] < b[1..][i] {
        assert a[..i + 1] == [a[0]] + a[1..][..i] && b[..i + 1] == [b[0]] + b[1..][..i];
      }
      if i :| 0 <= i < |a| && i < |b| && a[..i] == b[..i] && a[i] < b[i] {
        assert a[1..][..i - 1] == a[..i][1..] && b[1..][..i - 1] == b[..i][1..];
        assert a[1..][i - 1] < b[1..][i - 1];
      }
      assert a == [a[0]] + a[1..] && b == [b[0]] + b[1..];
      assert a <= b <==> a[1..] <= b[1..];
    } else if a != "" && b != "" {
      assert a[..0] == b[..0];
    }
  }

  predicate IsLeast(x: string, s: set<string>) {
    x in s && forall y | y in s :: LexLe(x, y)
  }

  lemma {:induction false} LeastExists(s: set<string>)
    requires s != {}
    ensures exists x :: IsLeast(x, s)
    ensures forall x, y | IsLeast(x, s) && IsLeast(y, s) :: x == y
    decreases |s|
  {
    var x :| x in s;
    var rest := s - {x};
    if rest == {} {
      assert s == {x};
      LexTotal(x, x);
      assert IsLeast(x, s);
    } else {
      LeastExists(rest);
      var y :| IsLeast(y, rest);
      LexTotal(x, y);
      LexTotal(x, x);
      if LexLe(x, y) {
        forall z | z in s ensures LexLe(x, z) {
          if z != x { LexTransitive(x, y, z); }
        }
        assert IsLeast(x, s);
      } else {
        assert IsLeast(y, s);
      }
    }
    forall a, b | IsLeast(a, s) && IsLeast(b, s) ensures a == b {
      LexTotal(a, b);
    }
  }

  function Least(s: set<string>): (x: string)
    requires s != {}
    ensures IsLeast(x, s)
  {
    LeastExists(s);
    var x :| IsLeast(x, s);
    x
  }

  predicate StrictlySorted(xs: seq<string>) {
    forall i, j | 0 <= i < j < |xs| :: LexLe(xs[i], xs[j]) && xs[i] != xs[j]
  }

  /** `sorted(set(...))`: every element once, in order. */
  function Sorted(s: set<string>): (xs: seq<string>)
    ensures forall x :: x in xs <==> x in s
    ensures |xs| == |s|
    decreases |s|
  {
    if s == {} then []
    else
      var x := Least(s);
      [x] + Sorted(s - {x})
  }

  lemma LeastInFront(x: string, rest: seq<string>, s: set<string>)
    requires IsLeast(x, s) && StrictlySorted(rest) && forall y | y in rest :: y in s && y != x
    ensures StrictlySorted([x] + rest)
  {
    var xs := [x] + rest;
    forall i, j | 0 <= i < j < |xs| ensures LexLe(xs[i], xs[j]) && xs[i] != xs[j] {
      assert xs[j] == rest[j - 1] && rest[j - 1] in rest;
    }
  }

  lemma {:induction false} SortedInOrder(s: set<string>)
    ensures StrictlySorted(Sorted(s))
    decreases |s|
  {
    if s != {} {
      var x := Least(s);
      var rest := Sorted(s - {x});
      SortedInOrder(s - {x});
      LeastInFront(x, rest, s);
    }
  }

  // ------------------------------------------------------------ stripping

  predicate IsSpace(c: char) {
    c == ' ' || c == '\t' || c == '\n' || c == '\r' || c == 11 as char || c == 12 as char
  }

  predicate IsDigit(c: char) {
    '0' <= c <= '9'
  }

  predicate AllSpace(s: string) {
    forall i | 0 <= i < |s| :: IsSpace(s[i])
  }

  function LStrip(s: string): string {
    if s != "" && IsSpace(s[0]) then LStrip(s[1..]) else s
  }

  function RStrip(s: string): string {
    if s != "" && IsSpace(s[|s| - 1]) then RStrip(s[..|s| - 1]) else s
  }

  function Strip(s: string): string {
    RStrip(LStrip(s))
  }

  predicate EndsWith(s: string, c: char) {
    s != "" && s[|s| - 1] == c
  }

  lemma {:induction false} LStripPad(pad: string, core: string)
    requires AllSpace(pad) && (core != "" ==> !IsSpace(core[0]))
    ensures LStrip(pad + core) == core
  {
    if pad == "" {
      assert pad + core == core;
    } else {
      assert (pad + core)[1..] == pad[1..] + core;
      LStripPad(pad[1..], core);
    }
  }

  lemma {:induction false} RStripPad(core: string, pad: string)
    requires AllSpace(pad) && (core != "" ==> !IsSpace(core[|core| - 1]))
    ensures RStrip(core + pad) == core
  {
    if pad == "" {
      assert core + pad == core;
    } else {
      var n := |pad| - 1;
      assert (core + pad)[..|core + pad| - 1] == core + pad[..n];
      RStripPad(core, pad[..n]);
    }
  }

  /** A core that starts and ends in a visible character is what stripping leaves. */
  lemma StripPad(left: string, core: string, right: string)
    requires AllSpace(left) && AllSpace(right) && core != ""
    requires !IsSpace(core[0]) && !IsSpace(core[|core| - 1])
    ensures Strip(left + core + right) == core
  {
    assert left + core + right == left + (core + right);
    LStripPad(left, core + right);
    RStripPad(core, right);
  }

  lemma {:induction false} LStripVisible(s: string)
    ensures LStrip(s) != "" ==> !IsSpace(LStrip(s)[0])
    ensures forall c | c in LStrip(s) :: c in s
  {
    if s != "" && IsSpace(s[0]) {
      LStripVisible(s[1..]);
    }
  }

  lemma {:induction false} RStripVisible(s: string)
    ensures RStrip(s) != "" ==> !IsSpace(RStrip(s)[|RStrip(s)| - 1]) && RStrip(s)[0] == s[0]
    ensures forall c | c in RStrip(s) :: c in s
  {
    if s != "" && IsSpace(s[|s| - 1]) {
      RStripVisible(s[..|s| - 1]);
    }
  }

  /** Only white space is stripped, and all of it. */
  lemma {:induction false} LStripParts(s: string) returns (pad: string)
    ensures s == pad + LStrip(s) && AllSpace(pad) && (LStrip(s) != "" ==> !IsSpace(LStrip(s)[0]))
  {
    if s != "" && IsSpace(s[0]) {
      pad := LStripParts(s[1..]);
      pad := [s[0]] + pad;
    } else {
      pad := "";
    }
  }

  lemma {:induction false} RStripParts(s: string) returns (pad: string)
    ensures s == RStrip(s) + pad && AllSpace(pad) && (RStrip(s) != "" ==> !IsSpace(RStrip(s)[|RStrip(s)| - 1]))
  {
    if s != "" && IsSpace(s[|s| - 1]) {
      pad := RStripParts(s[..|s| - 1]);
      pad := pad + [s[|s| - 1]];
    } else {
      pad := "";
    }
  }

  lemma StripParts(s: string) returns (left: string, right: string)
    ensures s == left + Strip(s) + right && AllSpace(left) && AllSpace(right)
    ensures Strip(s) != "" ==> !IsSpace(Strip(s)[0]) && !IsSpace(Strip(s)[|Strip(s)| - 1])
  {
    left := LStripParts(s);
    right := RStripParts(LStrip(s));
    if Strip(s) != "" { assert Strip(s)[0] == LStrip(s)[0]; }
  }

  lemma BlankIff(s: string)
    ensures Strip(s) == "" <==> AllSpace(s)
  {
    var left, right := StripParts(s);
    if Strip(s) != "" {
      assert s[|left|] == Strip(s)[0];
    }
  }

  // ---------------------------------------------------------------- lines

  /** The text before the first occurrence of `c`, and where it is. */
  function IndexOf(s: string, c: char): (n: nat)
    ensures n <= |s|
    ensures c !in s[..n]
    ensures n < |s| ==> s[n] == c
  {
    if s == "" || s[0] == c then 0 else 1 + IndexOf(s[1..], c)
  }

  function SplitLines(text: string): (lines: seq<string>)
    decreases |text|
  {
    if text == "" then []
    else
      var n := IndexOf(text, '\n');
      [text[..n]] + (if n < |text| then SplitLines(text[n + 1..]) else [])
  }

  function Unlines(lines: seq<string>): string {
    if lines == [] then "" else lines[0] + "\n" + Unlines(lines[1..])
  }

  predicate OneLine(s: string) {
    '\n' !in s
  }

  lemma {:induction false} IndexOfFirst(before: string, c: char, after: string)
    requires c !in before
    ensures IndexOf(before + [c] + after, c) == |before|
  {
    if before != "" {
      var s := before + [c] + after;
      assert s[1..] == before[1..] + [c] + after && s[0] == before[0] && before[0] in before;
      IndexOfFirst(before[1..], c, after);
    }
  }

  lemma SplitFirst(line: string, rest: string)
    requires OneLine(line)
    ensures SplitLines(line + "\n" + rest) == [line] + SplitLines(rest)
  {
    var text := line + "\n" + rest;
    IndexOfFirst(line, '\n', rest);
    assert text[..|line|] == line && text[|line| + 1..] == rest;
  }

  lemma {:induction false} SplitUnlines(lines: seq<string>)
    requires forall l | l in lines :: OneLine(l)
    ensures SplitLines(Unlines(lines)) == lines
  {
    if lines != [] {
      assert lines[0] in lines;
      SplitFirst(lines[0], Unlines(lines[1..]));
      SplitUnlines(lines[1..]);
    }
  }

  /** A text without a newline at its end has a last line none the less. */
  lemma {:induction false} SplitLast(lines: seq<string>, last: string)
    requires (forall l | l in lines :: OneLine(l)) && OneLine(last) && last != ""
    ensures SplitLines(Unlines(lines) + last) == lines + [last]
  {
    if lines == [] {
      assert Unlines(lines) + last == last;
      assert IndexOf(last, '\n') == |last| && last[..|last|] == last;
    } else {
      assert lines[0] in lines;
      assert Unlines(lines) + last == lines[0] + "\n" + (Unlines(lines[1..]) + last);
      SplitFirst(lines[0], Unlines(lines[1..]) + last);
      SplitLast(lines[1..], last);
    }
  }

  lemma {:induction false} SplitOneLine(text: string)
    ensures forall l | l in SplitLines(text) :: OneLine(l)
    decreases |text|
  {
    if text != "" {
      var n := IndexOf(text, '\n');
      if n < |text| { SplitOneLine(text[n + 1..]); }
    }
  }
}
