/**
 The dependency lockfile: what is printed and what is read back (scripts/lockfile.py,
 `normalize`, `read_entries`, `render`, `render_constraints`). The headers are arbitrary
 comment lines; the pins, hashes and continuation backslashes are the script's own.
 */
module Lockfile {
  import opened Wrappers
  import opened Text

  // ---------------------------------------------------------------- names

  predicate IsNameChar(c: char) {
    'A' <= c <= 'Z' || 'a' <= c <= 'z' || IsDigit(c) || IsSeparator(c)
  }

  predicate IsSeparator(c: char) { c == '.' || c == '_' || c == '-' }

  predicate IsVersionChar(c: char) { !IsSpace(c) && c != ';' && c != '#' }

  function Lower(c: char): char {
    if 'A' <= c <= 'Z' then (c as int + 32) as char else c
  }

  function DropSeparators(s: string): (r: string)
    ensures |r| <= |s|
    ensures r != "" ==> !IsSeparator(r[0])
  {
    if s != "" && IsSeparator(s[0]) then DropSeparators(s[1..]) else s
  }

  /** PEP 503: each run of separators is one hyphen, and case does not count. */
  function Normalize(name: string): string
    decreases |name|
  {
    if name == "" then ""
    else if IsSeparator(name[0]) then "-" + Normalize(DropSeparators(name))
    else [Lower(name[0])] + Normalize(name[1..])
  }

  /** A name in normal form: lower case, no separator but single hyphens. */
  predicate Normal(s: string) {
    && (forall i | 0 <= i < |s| :: s[i] == Lower(s[i]) && (IsSeparator(s[i]) ==> s[i] == '-'))
    && (forall i | 0 < i < |s| :: IsSeparator(s[i]) ==> !IsSeparator(s[i - 1]))
  }

  predicate AllName(s: string) {
    s != "" && forall i | 0 <= i < |s| :: IsNameChar(s[i])
  }

  lemma {:induction false} NormalizeIsNormal(name: string)
    ensures Normal(Normalize(name))
    ensures name != "" ==> Normalize(name) != ""
    ensures name != "" && !IsSeparator(name[0]) ==> !IsSeparator(Normalize(name)[0])
    ensures AllName(name) ==> AllName(Normalize(name))
    decreases |name|
  {
    if name != "" {
      if IsSeparator(name[0]) {
        var rest := DropSeparators(name);
        DropIsSuffix(name);
        NormalizeIsNormal(rest);
      } else {
        NormalizeIsNormal(name[1..]);
        assert AllName(name) && name[1..] != "" ==> AllName(name[1..]);
      }
    }
  }

  lemma {:induction false} DropIsSuffix(s: string)
    ensures forall i | 0 <= i < |DropSeparators(s)| :: DropSeparators(s)[i] in s
    ensures AllName(s) && DropSeparators(s) != "" ==> AllName(DropSeparators(s))
  {
    if s != "" && IsSeparator(s[0]) {
      DropIsSuffix(s[1..]);
    }
  }

  lemma {:induction false} NormalIsFixed(s: string)
    requires Normal(s)
    ensures Normalize(s) == s
    decreases |s|
  {
    if s != "" {
      assert Normal(s[1..]);
      if IsSeparator(s[0]) {
        assert s[0] == '-';
        if |s| > 1 {
          var next := s[1];
          assert !IsSeparator(next);
          assert DropSeparators(s[1..]) == s[1..];
        }
      }
      NormalIsFixed(s[1..]);
      assert s == [s[0]] + s[1..];
    }
  }

  /** Normalising twice is normalising once. */
  lemma NormalizeIdempotent(name: string)
    ensures Normalize(Normalize(name)) == Normalize(name)
  {
    NormalizeIsNormal(name);
    NormalIsFixed(Normalize(name));
  }

  // What normalising does, piece by piece.

  predicate NoSeparators(s: string) {
    forall i | 0 <= i < |s| :: s[i] != '.' && s[i] != '_' && s[i] != '-'
  }

  predicate AllSeparators(s: string) {
    s != "" && forall i | 0 <= i < |s| :: s[i] == '.' || s[i] == '_' || s[i] == '-'
  }

  /** `low` is `s` with its capital letters in lower case. */
  predicate Lowered(s: string, low: string) {
    && |low| == |s|
    && forall i | 0 <= i < |s| ::
         if 'A' <= s[i] <= 'Z' then low[i] as int == s[i] as int + 'a' as int - 'A' as int else low[i] == s[i]
  }

  lemma {:induction false} DropIs(seps: string, rest: string)
    requires (forall i | 0 <= i < |seps| :: IsSeparator(seps[i])) && (rest != "" ==> !IsSeparator(rest[0]))
    ensures DropSeparators(seps + rest) == rest
  {
    if seps == "" {
      assert seps + rest == rest;
    } else {
      assert (seps + rest)[1..] == seps[1..] + rest;
      DropIs(seps[1..], rest);
    }
  }

  lemma NormalizeSeparators(seps: string, rest: string)
    requires AllSeparators(seps) && (rest != "" ==> !IsSeparator(rest[0]))
    ensures Normalize(seps + rest) == "-" + Normalize(rest)
  {
    DropIs(seps, rest);
  }

  lemma {:induction false} NormalizeWord(word: string, rest: string) returns (low: string)
    requires NoSeparators(word)
    ensures Lowered(word, low) && Normalize(word + rest) == low + Normalize(rest)
  {
    if word == "" {
      low := "";
      assert word + rest == rest && "" + Normalize(rest) == Normalize(rest);
    } else {
      low := NormalizeWord(word[1..], rest);
      var all := word + rest;
      assert all[0] == word[0] && all[1..] == word[1..] + rest && !IsSeparator(word[0]);
      assert [Lower(word[0])] + (low + Normalize(rest)) == [Lower(word[0])] + low + Normalize(rest);
      LoweredLonger(word, low);
      low := [Lower(word[0])] + low;
    }
  }

  lemma LoweredLonger(word: string, low: string)
    requires word != "" && Lowered(word[1..], low)
    ensures Lowered(word, [Lower(word[0])] + low)
  {
    assert forall i | 1 <= i < |word| :: word[i] == word[1..][i - 1];
  }

  /** A name is normalised from left to right: a piece without separators is lowered, and the whole run of
      separators behind it is one hyphen. This fixes the result for every name. */
  lemma NormalizeByPieces(word: string, seps: string, rest: string)
    requires NoSeparators(word) && AllSeparators(seps) && (rest != "" ==> NoSeparators(rest[..1]))
    ensures exists low :: Lowered(word, low) && Normalize(word + (seps + rest)) == low + ("-" + Normalize(rest))
    ensures Lowered(word, Normalize(word))
  {
    if rest != "" { assert rest[..1][0] == rest[0]; }
    NormalizeSeparators(seps, rest);
    var low := NormalizeWord(word, seps + rest);
    var alone := NormalizeWord(word, "");
    assert word + "" == word && alone + Normalize("") == alone;
  }

  /** Every name is such pieces. */
  lemma {:induction false} NamePieces(name: string) returns (word: string, seps: string, rest: string)
    ensures name == word + seps + rest && NoSeparators(word) && (rest != "" ==> seps != "" && NoSeparators(rest[..1]))
    ensures seps != "" ==> AllSeparators(seps)
  {
    if name == "" {
      word, seps, rest := "", "", "";
    } else if IsSeparator(name[0]) {
      var n := |name| - |DropSeparators(name)|;
      DropSplits(name);
      word, seps, rest := "", name[..n], name[n..];
    } else {
      word, seps, rest := NamePieces(name[1..]);
      word := [name[0]] + word;
    }
  }

  lemma {:induction false} DropSplits(s: string)
    ensures var n := |s| - |DropSeparators(s)|;
            s[n..] == DropSeparators(s) && forall i | 0 <= i < n :: IsSeparator(s[i])
  {
    if s != "" && IsSeparator(s[0]) {
      DropSplits(s[1..]);
    }
  }

  // -------------------------------------------------------------- reading

  function NameRun(s: string): (n: nat)
    ensures n <= |s|
    ensures forall i | 0 <= i < n :: IsNameChar(s[i])
    ensures n < |s| ==> !IsNameChar(s[n])
  {
    if s == "" || !IsNameChar(s[0]) then 0 else 1 + NameRun(s[1..])
  }

  predicate AllVersion(s: string) {
    s != "" && forall i | 0 <= i < |s| :: IsVersionChar(s[i])
  }

  datatype Pin = Pin(name: string, version: string)

  /** `name==version` and nothing else but trailing space. */
  function ParsePin(line: string): (p: Option<Pin>)
    ensures p.Some? ==> AllName(p.value.name) && AllVersion(p.value.version)
  {
    var n := NameRun(line);
    if n == 0 || |line| < n + 2 || line[n..n + 2] != "==" then None
    else
      var version := RStrip(line[n + 2..]);
      if AllVersion(version) then Some(Pin(line[..n], version)) else None
  }

  const HASH_OPTION := "--hash="
  const SHA256 := "sha256:"

  predicate IsHexChar(c: char) { IsDigit(c) || 'a' <= c <= 'f' }

  predicate IsHash(s: string) {
    |s| == 71 && s[..7] == SHA256 && forall i | 7 <= i < 71 :: IsHexChar(s[i])
  }

  function ParseHash(line: string): (h: Option<string>)
    ensures h.Some? ==> IsHash(h.value)
  {
    if HASH_OPTION <= line && IsHash(line[7..]) then Some(line[7..]) else None
  }

  lemma {:induction false} NameRunOf(name: string, rest: string)
    requires (forall i | 0 <= i < |name| :: IsNameChar(name[i])) && (rest != "" ==> !IsNameChar(rest[0]))
    ensures NameRun(name + rest) == |name|
  {
    if name == "" {
      assert name + rest == rest;
    } else {
      assert (name + rest)[1..] == name[1..] + rest;
      NameRunOf(name[1..], rest);
    }
  }

  /** `name==version` and white space: the name of letters, digits and separators, the version of anything
      visible but `;` and `#`. */
  ghost predicate IsPinLine(line: string, name: string, version: string) {
    && name != "" && version != ""
    && (forall i | 0 <= i < |name| ::
          || 'A' <= name[i] <= 'Z' || 'a' <= name[i] <= 'z' || '0' <= name[i] <= '9'
          || name[i] == '.' || name[i] == '_' || name[i] == '-')
    && (forall i | 0 <= i < |version| :: !IsSpace(version[i]) && version[i] != ';' && version[i] != '#')
    && exists pad :: AllSpace(pad) && line == name + ("==" + (version + pad))
  }

  lemma PinLineIsParsed(line: string, name: string, version: string)
    requires IsPinLine(line, name, version)
    ensures ParsePin(line) == Some(Pin(name, version))
  {
    var pad :| AllSpace(pad) && line == name + ("==" + (version + pad));
    NameRunOf(name, "==" + (version + pad));
    assert line[..|name|] == name && line[|name|..|name| + 2] == "==" && line[|name| + 2..] == version + pad;
    RStripPad(version, pad);
  }

  lemma ParsedIsPinLine(line: string)
    requires ParsePin(line).Some?
    ensures var pin := ParsePin(line).value; IsPinLine(line, pin.name, pin.version)
  {
    var n := NameRun(line);
    var pin := ParsePin(line).value;
    var pad := RStripParts(line[n + 2..]);
    assert line[n + 2..] == pin.version + pad;
    assert line == line[..n] + (line[n..n + 2] + line[n + 2..]);
  }

  /** Exactly such lines are pins. */
  lemma ParsePinIff(line: string, name: string, version: string)
    ensures ParsePin(line) == Some(Pin(name, version)) <==> IsPinLine(line, name, version)
  {
    if ParsePin(line) == Some(Pin(name, version)) {
      ParsedIsPinLine(line);
    }
    if IsPinLine(line, name, version) {
      PinLineIsParsed(line, name, version);
    }
  }

  /** Exactly `--hash=sha256:` and 64 lower-case hexadecimal digits are a hash line. */
  lemma ParseHashIff(line: string, hash: string)
    ensures ParseHash(line) == Some(hash) <==>
            && line == "--hash=" + hash && |hash| == 71 && hash[..7] == "sha256:"
            && forall i | 7 <= i < 71 :: '0' <= hash[i] <= '9' || 'a' <= hash[i] <= 'f'
  {
    if ParseHash(line) == Some(hash) {
      assert line == line[..7] + line[7..];
    }
    if line == "--hash=" + hash {
      assert line[7..] == hash;
    }
  }

  /** A line without its comment, its surrounding space and one continuation backslash. */
  function Clean(raw: string): string {
    var line := Strip(raw[..IndexOf(raw, '#')]);
    if EndsWith(line, '\\') then Strip(line[..|line| - 1]) else line
  }

  /** No white space at either end. */
  predicate Trimmed(s: string) {
    s != "" ==> !IsSpace(s[0]) && !IsSpace(s[|s| - 1])
  }

  lemma TrimmedStrip(left: string, core: string, right: string)
    requires AllSpace(left) && AllSpace(right) && Trimmed(core)
    ensures Strip(left + core + right) == core
  {
    if core == "" {
      assert left + core + right == left + right;
      BlankIff(left + right);
    } else {
      StripPad(left, core, right);
    }
  }

  lemma BeforeComment(text: string, comment: string)
    requires '#' !in text && (comment != "" ==> comment[0] == '#')
    ensures (text + comment)[..IndexOf(text + comment, '#')] == text
  {
    var raw := text + comment;
    var n := IndexOf(raw, '#');
    if comment == "" {
      assert raw == text;
    } else {
      IndexOfFirst(text, '#', comment[1..]);
      assert raw == text + ['#'] + comment[1..];
    }
  }

  /** A comment goes, with the white space around what is left; and so does one backslash at its end, with
      the white space before it. */
  lemma CleanIs(left: string, core: string, gap: string, right: string, comment: string)
    requires AllSpace(left) && AllSpace(gap) && AllSpace(right) && Trimmed(core) && '#' !in core
    requires comment != "" ==> comment[0] == '#'
    ensures !EndsWith(core, '\\') ==> Clean(left + core + right + comment) == core
    ensures Clean(left + (core + (gap + "\\")) + right + comment) == core
  {
    BeforeComment(left + core + right, comment);
    TrimmedStrip(left, core, right);
    var more := core + (gap + "\\");
    assert '#' !in more;
    BeforeComment(left + more + right, comment);
    assert more[|more| - 1] == '\\' && (core == "" && gap != "" ==> IsSpace(more[0]));
    ContinuedIs(left, core, gap, right);
  }

  lemma ContinuedIs(left: string, core: string, gap: string, right: string)
    requires AllSpace(left) && AllSpace(gap) && AllSpace(right) && Trimmed(core)
    ensures var line := Strip(left + (core + (gap + "\\")) + right);
            EndsWith(line, '\\') && Strip(line[..|line| - 1]) == core
  {
    var more := core + (gap + "\\");
    if core == "" {
      assert more == gap + "\\" && left + more + right == (left + gap) + "\\" + right;
      StripPad(left + gap, "\\", right);
      assert "\\"[..0] == "";
    } else {
      StripPad(left, more, right);
      assert more[..|more| - 1] == "" + core + gap;
      StripPad("", core, gap);
    }
  }

  datatype Entry = Entry(version: string, hashes: seq<string>)

  /** The reader's state: the entries so far and the pin its next hash belongs to. */
  datatype Reading = Reading(entries: map<string, Entry>, current: Option<string>)

  predicate Consistent(st: Reading) {
    st.current.Some? ==> st.current.value in st.entries
  }

  function ReadLine(st: Reading, raw: string): (r: Reading)
    requires Consistent(st)
    ensures Consistent(r)
  {
    var line := Clean(raw);
    var hash := ParseHash(line);
    var pin := ParsePin(line);
    if line == "" then st
    else if hash.Some? then
      if st.current.Some? then
        var e := st.entries[st.current.value];
        st.(entries := st.entries[st.current.value := e.(hashes := e.hashes + [hash.value])])
      else st
    else if pin.Some? then
      var name := Normalize(pin.value.name);
      Reading(st.entries[name := Entry(pin.value.version, [])], Some(name))
    else st.(current := None)
  }

  function ReadLines(st: Reading, lines: seq<string>): (r: Reading)
    requires Consistent(st)
    ensures Consistent(r)
    decreases |lines|
  {
    if lines == [] then st else ReadLines(ReadLine(st, lines[0]), lines[1..])
  }

  const START := Reading(map[], None)

  function EntriesOf(text: string): map<string, Entry> {
    ReadLines(START, SplitLines(text)).entries
  }

  method ReadEntries(text: string) returns (entries: map<string, Entry>)
    ensures entries == EntriesOf(text)
  {
    entries := map[];
    var current: Option<string> := None;
    var lines := SplitLines(text);
    for i := 0 to |lines|
      invariant Consistent(Reading(entries, current))
      invariant ReadLines(START, lines) == ReadLines(Reading(entries, current), lines[i..])
    {
      assert lines[i..][0] == lines[i] && lines[i..][1..] == lines[i + 1..];
      ghost var before := Reading(entries, current);
      var line := Strip(lines[i][..IndexOf(lines[i], '#')]);
      if EndsWith(line, '\\') { line := Strip(line[..|line| - 1]); }
      assert line == Clean(lines[i]);
      if line == "" { continue; }
      var hashed := ParseHash(line);
      if hashed.Some? {
        if current.Some? {
          var e := entries[current.value];
          entries := entries[current.value := Entry(e.version, e.hashes + [hashed.value])];
        }
        continue;
      }
      var pin := ParsePin(line);
      if pin.Some? {
        current := Some(Normalize(pin.value.name));
        entries := entries[current.value := Entry(pin.value.version, [])];
      } else {
        current := None;
      }
    }
    assert lines[|lines|..] == [];
  }

  lemma {:induction false} ReadConcat(st: Reading, a: seq<string>, b: seq<string>)
    requires Consistent(st)
    ensures ReadLines(st, a + b) == ReadLines(ReadLines(st, a), b)
    decreases |a|
  {
    if a == [] {
      assert a + b == b;
    } else {
      assert (a + b)[1..] == a[1..] + b;
      ReadConcat(ReadLine(st, a[0]), a[1..], b);
    }
  }

  /** What the reader can ever return. */
  predicate WellFormed(entries: map<string, Entry>) {
    forall n | n in entries ::
      && AllName(n) && Normal(n) && AllVersion(entries[n].version)
      && forall h | h in entries[n].hashes :: IsHash(h)
  }

  lemma {:induction false} ReadIsWellFormed(st: Reading, lines: seq<string>)
    requires Consistent(st) && WellFormed(st.entries)
    ensures WellFormed(ReadLines(st, lines).entries)
    decreases |lines|
  {
    if lines != [] {
      var pin := ParsePin(Clean(lines[0]));
      if pin.Some? {
        NormalizeIsNormal(pin.value.name);
      }
      ReadIsWellFormed(ReadLine(st, lines[0]), lines[1..]);
    }
  }
}
