/**
 Printing a lockfile and its constraints file, and what reading them back gives
 (scripts/lockfile.py, `render` and `render_constraints`).
 */
module LockfilePrint {
  import opened Wrappers
  import opened Text
  import opened Lockfile

  function ToSet(xs: seq<string>): set<string> {
    set x | x in xs
  }

  /** `{normalize(name): version ...}`: when two names normalise alike the later one stays. */
  function NormalPins(resolved: seq<(string, string)>): map<string, string> {
    if resolved == [] then map[]
    else
      var (name, version) := resolved[|resolved| - 1];
      NormalPins(resolved[..|resolved| - 1])[Normalize(name) := version]
  }

  function NormalHashes(hashes: seq<(string, seq<string>)>): map<string, seq<string>> {
    if hashes == [] then map[]
    else
      var (name, found) := hashes[|hashes| - 1];
      NormalHashes(hashes[..|hashes| - 1])[Normalize(name) := Sorted(ToSet(found))]
  }

  function Found(hashes: map<string, seq<string>>, name: string): seq<string> {
    if name in hashes then hashes[name] else []
  }

  const INDENT := "    "
  const CONTINUED := " \\"

  function HashLines(found: seq<string>): seq<string> {
    if found == [] then []
    else if |found| == 1 then [INDENT + (HASH_OPTION + found[0])]
    else [INDENT + (HASH_OPTION + found[0]) + CONTINUED] + HashLines(found[1..])
  }

  /** One pin: alone on its line, or continued by one indented line for each hash. */
  function PinLines(name: string, version: string, found: seq<string>): seq<string> {
    if found == [] then [name + "==" + version]
    else [name + "==" + version + CONTINUED] + HashLines(found)
  }

  function Body(names: seq<string>, pins: map<string, string>, hashes: map<string, seq<string>>): seq<string>
    requires forall n | n in names :: n in pins
  {
    if names == [] then []
    else PinLines(names[0], pins[names[0]], Found(hashes, names[0])) + Body(names[1..], pins, hashes)
  }

  function Print(header: seq<string>, pins: map<string, string>, hashes: map<string, seq<string>>): string {
    Unlines(header + [""] + Body(Sorted(pins.Keys), pins, hashes))
  }

  /** `render`, for any header made of comment lines. */
  function Render(header: seq<string>, resolved: seq<(string, string)>, hashes: seq<(string, seq<string>)>): string {
    Print(header, NormalPins(resolved), NormalHashes(hashes))
  }

  function RenderConstraints(header: seq<string>, resolved: seq<(string, string)>): string {
    Print(header, NormalPins(resolved), map[])
  }

  // ------------------------------------------------- what is printed, as text

  /** A pin as it stands in the file: its hashes are joined by a backslash, a newline and an indent. */
  function Joined(found: seq<string>): string {
    if found == [] then "" else " \\\n    --hash=" + found[0] + Joined(found[1..])
  }

  function Printed(names: seq<string>, pins: map<string, string>, hashes: map<string, seq<string>>): string
    requires forall n | n in names :: n in pins
  {
    if names == [] then ""
    else
      var found := if names[0] in hashes then hashes[names[0]] else [];
      names[0] + "==" + pins[names[0]] + Joined(found) + "\n" + Printed(names[1..], pins, hashes)
  }

  lemma {:induction false} UnlinesConcat(a: seq<string>, b: seq<string>)
    ensures Unlines(a + b) == Unlines(a) + Unlines(b)
  {
    if a == [] {
      assert a + b == b;
    } else {
      assert (a + b)[1..] == a[1..] + b;
      UnlinesConcat(a[1..], b);
      assert a[0] + "\n" + (Unlines(a[1..]) + Unlines(b)) == a[0] + "\n" + Unlines(a[1..]) + Unlines(b);
    }
  }

  lemma UnlinesCons(line: string, rest: seq<string>)
    ensures Unlines([line] + rest) == line + "\n" + Unlines(rest)
  {
    assert ([line] + rest)[1..] == rest;
  }

  lemma Regroup(line: string, h: string, rest: string)
    ensures line + (" \\\n    --hash=" + h + rest) + "\n" ==
            line + CONTINUED + "\n" + (INDENT + (HASH_OPTION + h) + rest + "\n")
  {
    assert " \\\n    --hash=" == CONTINUED + "\n" + INDENT + HASH_OPTION;
  }

  lemma {:induction false} HashesJoin(line: string, found: seq<string>)
    ensures line + Joined(found) + "\n" ==
            Unlines(if found == [] then [line] else [line + CONTINUED] + HashLines(found))
    decreases |found|
  {
    if found == [] {
      UnlinesCons(line, []);
      assert [line] + [] == [line];
      assert line + "" == line && line + "\n" + "" == line + "\n";
    } else {
      HashesJoin(INDENT + (HASH_OPTION + found[0]), found[1..]);
      UnlinesCons(line + CONTINUED, HashLines(found));
      Regroup(line, found[0], Joined(found[1..]));
    }
  }

  lemma PinJoins(name: string, version: string, found: seq<string>)
    ensures Unlines(PinLines(name, version, found)) == name + "==" + version + Joined(found) + "\n"
  {
    HashesJoin(name + "==" + version, found);
  }

  lemma {:induction false} BodyPrints(names: seq<string>, pins: map<string, string>, hashes: map<string, seq<string>>)
    requires forall n | n in names :: n in pins
    ensures Unlines(Body(names, pins, hashes)) == Printed(names, pins, hashes)
  {
    if names != [] {
      var n := names[0];
      BodyPrints(names[1..], pins, hashes);
      PinJoins(n, pins[n], Found(hashes, n));
      UnlinesConcat(PinLines(n, pins[n], Found(hashes, n)), Body(names[1..], pins, hashes));
    }
  }

  lemma UnderHeader(header: seq<string>, body: seq<string>)
    ensures Unlines(header + [""] + body) == Unlines(header) + "\n" + Unlines(body)
  {
    UnlinesConcat(header, [""] + body);
    assert header + [""] + body == header + ([""] + body);
    UnlinesCons("", body);
    assert "" + "\n" + Unlines(body) == "\n" + Unlines(body);
    assert Unlines(header) + ("\n" + Unlines(body)) == Unlines(header) + "\n" + Unlines(body);
  }

  /** A file is its header, an empty line, and the pins in the order of their names. */
  lemma PrintIs(header: seq<string>, pins: map<string, string>, hashes: map<string, seq<string>>)
    ensures Print(header, pins, hashes) == Unlines(header) + "\n" + Printed(Sorted(pins.Keys), pins, hashes)
    ensures StrictlySorted(Sorted(pins.Keys)) && forall n :: n in Sorted(pins.Keys) <==> n in pins
  {
    var names := Sorted(pins.Keys);
    SortedInOrder(pins.Keys);
    BodyPrints(names, pins, hashes);
    UnderHeader(header, Body(names, pins, hashes));
  }

  /** `i` is the last place whose name normalises to `n`. */
  predicate IsLast<V>(items: seq<(string, V)>, n: string, i: nat) {
    && i < |items| && Normalize(items[i].0) == n
    && forall j | i < j < |items| :: Normalize(items[j].0) != n
  }

  /** A pin is kept for each normalised name, with the last version given for it. */
  lemma {:induction false} NormalPinsIff(resolved: seq<(string, string)>, n: string, version: string)
    ensures n in NormalPins(resolved) && NormalPins(resolved)[n] == version <==>
            exists i: nat :: IsLast(resolved, n, i) && resolved[i].1 == version
  {
    if resolved != [] {
      var last := |resolved| - 1;
      NormalPinsIff(resolved[..last], n, version);
      if Normalize(resolved[last].0) == n {
        assert IsLast(resolved, n, last);
      } else {
        forall i: nat ensures IsLast(resolved, n, i) <==> IsLast(resolved[..last], n, i) {
          assert forall j | 0 <= j < last :: resolved[..last][j] == resolved[j];
        }
      }
    }
  }

  /** And its hashes are the last ones given, each once and in order. */
  lemma {:induction false} NormalHashesIff(hashes: seq<(string, seq<string>)>, n: string)
    ensures n in NormalHashes(hashes) <==> exists i: nat :: IsLast(hashes, n, i)
  {
    if hashes != [] {
      var last := |hashes| - 1;
      NormalHashesIff(hashes[..last], n);
      if Normalize(hashes[last].0) == n {
        assert IsLast(hashes, n, last);
      } else {
        forall i: nat ensures IsLast(hashes, n, i) <==> IsLast(hashes[..last], n, i) {
          assert forall j | 0 <= j < last :: hashes[..last][j] == hashes[j];
        }
      }
    }
  }

  lemma {:induction false} NormalHashesAt(hashes: seq<(string, seq<string>)>, n: string, i: nat)
    requires IsLast(hashes, n, i)
    ensures n in NormalHashes(hashes) && StrictlySorted(NormalHashes(hashes)[n])
    ensures forall h :: h in NormalHashes(hashes)[n] <==> h in hashes[i].1
  {
    var last := |hashes| - 1;
    if i == last {
      SortedInOrder(ToSet(hashes[i].1));
    } else {
      assert forall j | 0 <= j < last :: hashes[..last][j] == hashes[j];
      NormalHashesAt(hashes[..last], n, i);
    }
  }

  predicate IsComment(line: string) {
    OneLine(line) && line != "" && line[0] == '#'
  }

  predicate PrintablePins(pins: map<string, string>) {
    forall n | n in pins :: AllName(n) && Normal(n) && AllVersion(pins[n])
  }

  predicate PrintableHashes(hashes: map<string, seq<string>>) {
    forall n | n in hashes :: forall h | h in hashes[n] :: IsHash(h)
  }

  // --------------------------------------------- what reading a line gives

  lemma {:induction false} IndexOfNone(s: string, c: char)
    requires c !in s
    ensures IndexOf(s, c) == |s|
  {
    if s != "" { IndexOfNone(s[1..], c); }
  }

  lemma CommentIsSkipped(st: Reading, line: string)
    requires Consistent(st) && (line == "" || IsComment(line))
    ensures ReadLine(st, line) == st
  {
    assert line[..0] == "";
  }

  lemma {:induction false} CommentsAreSkipped(st: Reading, lines: seq<string>)
    requires Consistent(st) && forall l | l in lines :: l == "" || IsComment(l)
    ensures ReadLines(st, lines) == st
  {
    if lines != [] {
      CommentIsSkipped(st, lines[0]);
      CommentsAreSkipped(st, lines[1..]);
    }
  }

  predicate PinText(s: string, name: string, version: string) {
    AllName(name) && AllVersion(version) && s == name + "==" + version
  }

  lemma PinTextChars(s: string, name: string, version: string)
    requires PinText(s, name, version)
    ensures '#' !in s && OneLine(s) && !IsSpace(s[0]) && !IsSpace(s[|s| - 1])
    ensures s[|s| - 1] == version[|version| - 1]
  {
    forall i | 0 <= i < |s| ensures s[i] != '#' && s[i] != '\n' {
      if i >= |name| + 2 {
        assert s[i] == version[i - |name| - 2];
      }
    }
  }

  lemma NotAHash(s: string, n: nat)
    requires n + 2 <= |s| && s[n] == '=' && s[n + 1] == '=' && forall i | 0 <= i < n :: IsNameChar(s[i])
    ensures ParseHash(s) == None
  {
    if HASH_OPTION <= s && |s| > 7 {
      assert s[6] == HASH_OPTION[6] == '=' && forall i | 0 <= i < 6 :: s[i] == HASH_OPTION[i] != '=';
      assert n == 6;
      var tail := s[7..];
      assert tail[0] != SHA256[0];
      assert |tail| >= 7 ==> tail[..7][0] != SHA256[0];
    }
  }

  lemma ParsePinText(s: string, name: string, version: string)
    requires PinText(s, name, version)
    ensures ParsePin(s) == Some(Pin(name, version)) && ParseHash(s) == None && s != ""
  {
    assert s == name + ("==" + version);
    NameRunOf(name, "==" + version);
    RStripPad(version, "");
    assert version + "" == version && s[|name| + 2..] == version;
    NotAHash(s, |name|);
  }

  lemma ParsePinNothing(s: string, name: string)
    requires AllName(name) && s == name + "=="
    ensures ParsePin(s) == None && ParseHash(s) == None && s != ""
  {
    NameRunOf(name, "==");
    assert s[|name| + 2..] == "";
    NotAHash(s, |name|);
  }

  lemma CleanPlain(s: string)
    requires s != "" && '#' !in s && !IsSpace(s[0]) && !IsSpace(s[|s| - 1])
    ensures s[|s| - 1] != '\\' ==> Clean(s) == s
    ensures s[|s| - 1] == '\\' ==> Clean(s) == Strip(s[..|s| - 1])
  {
    IndexOfNone(s, '#');
    assert s[..|s|] == s && "" + s + "" == s;
    StripPad("", s, "");
  }

  lemma CleanContinued(pad: string, s: string)
    requires AllSpace(pad) && s != "" && '#' !in s && !IsSpace(s[0]) && !IsSpace(s[|s| - 1])
    requires '#' !in pad
    ensures Clean(pad + s + CONTINUED) == s
  {
    var raw := pad + s + CONTINUED;
    IndexOfNone(raw, '#');
    assert raw[..|raw|] == raw;
    assert raw == pad + (s + CONTINUED) + "";
    StripPad(pad, s + CONTINUED, "");
    assert (s + CONTINUED)[..|s| + 1] == "" + s + " ";
    StripPad("", s, " ");
  }

  lemma CleanIndented(pad: string, s: string)
    requires AllSpace(pad) && s != "" && '#' !in s && !IsSpace(s[0]) && !IsSpace(s[|s| - 1])
    requires '#' !in pad && s[|s| - 1] != '\\'
    ensures Clean(pad + s) == s
  {
    var raw := pad + s;
    IndexOfNone(raw, '#');
    assert raw[..|raw|] == raw && raw == pad + s + "";
    StripPad(pad, s, "");
  }

  lemma HashText(h: string)
    requires IsHash(h)
    ensures var s := HASH_OPTION + h;
            && ParseHash(s) == Some(h) && s != "" && '#' !in s && OneLine(s)
            && !IsSpace(s[0]) && !IsSpace(s[|s| - 1]) && s[|s| - 1] != '\\'
  {
    var s := HASH_OPTION + h;
    assert s[7..] == h;
    forall i | 0 <= i < |s| ensures s[i] != '#' && s[i] != '\n' {
      if 7 <= i < 14 {
        assert s[i] == h[..7][i - 7] == SHA256[i - 7];
      } else if i >= 14 {
        assert IsHexChar(h[i - 7]);
      }
    }
    assert IsHexChar(h[70]);
  }

  // ------------------------------------------------------- the round trip

  /** What comes back of one printed pin. A pin with no hash whose version ends in a backslash
      loses it to the continuation rule, and with it the version when there was nothing else. */
  function Survives(version: string, found: seq<string>): Option<Entry>
    requires version != ""
  {
    if found != [] || !EndsWith(version, '\\') then Some(Entry(version, found))
    else if |version| == 1 then None
    else Some(Entry(version[..|version| - 1], []))
  }

  lemma ReadOne(st: Reading, line: string)
    requires Consistent(st)
    ensures ReadLines(st, [line]) == ReadLine(st, line)
  {
    assert [line][1..] == [];
  }

  function WithHash(st: Reading, name: string, h: string): Reading
    requires name in st.entries
  {
    st.(entries := st.entries[name := st.entries[name].(hashes := st.entries[name].hashes + [h])])
  }

  lemma ReadHashLine(st: Reading, name: string, raw: string, h: string)
    requires st.current == Some(name) && name in st.entries && IsHash(h)
    requires raw == INDENT + (HASH_OPTION + h) || raw == INDENT + (HASH_OPTION + h) + CONTINUED
    ensures ReadLine(st, raw) == WithHash(st, name, h) && OneLine(raw)
  {
    HashText(h);
    CleanContinued(INDENT, HASH_OPTION + h);
    CleanIndented(INDENT, HASH_OPTION + h);
  }

  function WithHashes(st: Reading, name: string, found: seq<string>): Reading
    requires name in st.entries
    decreases |found|
  {
    if found == [] then st else WithHashes(WithHash(st, name, found[0]), name, found[1..])
  }

  lemma {:induction false} WithHashesAppends(st: Reading, name: string, found: seq<string>)
    requires name in st.entries
    ensures WithHashes(st, name, found) ==
            st.(entries := st.entries[name := st.entries[name].(hashes := st.entries[name].hashes + found)])
    decreases |found|
  {
    var e := st.entries[name];
    if found == [] {
      assert e.hashes + [] == e.hashes;
      assert st.entries[name := e] == st.entries;
    } else {
      var next := WithHash(st, name, found[0]);
      WithHashesAppends(next, name, found[1..]);
      assert e.hashes + [found[0]] + found[1..] == e.hashes + found;
      assert next.entries[name := e.(hashes := e.hashes + found)] == st.entries[name := e.(hashes := e.hashes + found)];
    }
  }

  lemma {:induction false} ReadHashLines(st: Reading, name: string, found: seq<string>)
    requires st.current == Some(name) && name in st.entries && forall h | h in found :: IsHash(h)
    ensures ReadLines(st, HashLines(found)) == WithHashes(st, name, found)
    ensures forall l | l in HashLines(found) :: OneLine(l)
    decreases |found|
  {
    if found != [] {
      var line := HashLines(found)[0];
      ReadHashLine(st, name, line, found[0]);
      ReadHashLines(WithHash(st, name, found[0]), name, found[1..]);
      assert HashLines(found) == [line] + HashLines(found[1..]);
      ReadConcat(st, [line], HashLines(found[1..]));
      ReadOne(st, line);
    }
  }

  lemma ReadPinLine(st: Reading, raw: string, name: string, version: string)
    requires Consistent(st) && Normal(name) && PinText(Clean(raw), name, version)
    ensures ReadLine(st, raw) == Reading(st.entries[name := Entry(version, [])], Some(name))
  {
    ParsePinText(Clean(raw), name, version);
    NormalIsFixed(name);
  }

  lemma PinContinued(name: string, version: string)
    requires AllName(name) && AllVersion(version)
    ensures PinText(Clean(name + "==" + version + CONTINUED), name, version)
    ensures OneLine(name + "==" + version + CONTINUED)
  {
    var s := name + "==" + version;
    PinTextChars(s, name, version);
    CleanContinued("", s);
    assert s + CONTINUED == "" + s + CONTINUED;
  }

  lemma {:induction false} ReadHashedPin(st: Reading, first: string, name: string, version: string, found: seq<string>)
    requires Consistent(st) && Normal(name) && PinText(Clean(first), name, version) && OneLine(first)
    requires forall h | h in found :: IsHash(h)
    ensures ReadLines(st, [first] + HashLines(found)).entries == st.entries[name := Entry(version, found)]
    ensures forall l | l in [first] + HashLines(found) :: OneLine(l)
  {
    ReadPinLine(st, first, name, version);
    ReadOne(st, first);
    ReadConcat(st, [first], HashLines(found));
    var next := Reading(st.entries[name := Entry(version, [])], Some(name));
    ReadHashLines(next, name, found);
    WithHashesAppends(next, name, found);
    assert [] + found == found;
    assert next.entries[name := Entry(version, found)] == st.entries[name := Entry(version, found)];
  }

  lemma ReadPinLines(st: Reading, name: string, version: string, found: seq<string>)
    requires Consistent(st) && AllName(name) && Normal(name) && AllVersion(version)
    requires forall h | h in found :: IsHash(h)
    ensures ReadLines(st, PinLines(name, version, found)).entries ==
            match Survives(version, found) case None => st.entries case Some(e) => st.entries[name := e]
    ensures forall l | l in PinLines(name, version, found) :: OneLine(l)
  {
    var s := name + "==" + version;
    PinTextChars(s, name, version);
    if found != [] {
      PinContinued(name, version);
      ReadHashedPin(st, s + CONTINUED, name, version, found);
    } else {
      CleanPlain(s);
      ReadOne(st, s);
      if EndsWith(version, '\\') {
        ReadTruncated(st, name, version);
      } else {
        ReadPinLine(st, s, name, version);
      }
    }
  }

  lemma StripPinText(name: string, kept: string)
    requires AllName(name) && Normal(name) && (kept != "" ==> AllVersion(kept))
    ensures Strip(name + "==" + kept) == name + "==" + kept
  {
    var t := name + "==" + kept;
    if kept == "" {
      assert t == name + "==";
    } else {
      PinTextChars(t, name, kept);
    }
    assert "" + t + "" == t;
    StripPad("", t, "");
  }

  lemma WithoutLast(a: string, b: string)
    requires b != ""
    ensures (a + b)[..|a + b| - 1] == a + b[..|b| - 1]
  {
  }

  lemma TruncatedClean(name: string, version: string)
    requires AllName(name) && Normal(name) && AllVersion(version) && EndsWith(version, '\\')
    ensures Clean(name + "==" + version) == name + "==" + version[..|version| - 1]
  {
    PinTextChars(name + "==" + version, name, version);
    CleanPlain(name + "==" + version);
    WithoutLast(name + "==", version);
    StripPinText(name, version[..|version| - 1]);
  }

  lemma ParseTruncated(name: string, kept: string)
    requires AllName(name) && Normal(name) && (kept != "" ==> AllVersion(kept))
    ensures var t := name + "==" + kept;
            && ParsePin(t) == (if kept == "" then None else Some(Pin(name, kept)))
            && ParseHash(t) == None && t != ""
  {
    var t := name + "==" + kept;
    if kept == "" {
      assert t == name + "==";
      ParsePinNothing(t, name);
    } else {
      PinTextChars(t, name, kept);
      ParsePinText(t, name, kept);
    }
  }

  lemma ReadTruncated(st: Reading, name: string, version: string)
    requires Consistent(st) && AllName(name) && Normal(name) && AllVersion(version) && EndsWith(version, '\\')
    ensures ReadLine(st, name + "==" + version).entries ==
            if |version| == 1 then st.entries else st.entries[name := Entry(version[..|version| - 1], [])]
  {
    TruncatedClean(name, version);
    ParseTruncated(name, version[..|version| - 1]);
    NormalIsFixed(name);
  }

  function Surviving(names: set<string>, pins: map<string, string>, hashes: map<string, seq<string>>)
    : map<string, Entry>
    requires forall n | n in names :: n in pins && pins[n] != ""
  {
    map n | n in names && Survives(pins[n], Found(hashes, n)).Some? :: Survives(pins[n], Found(hashes, n)).value
  }

  lemma SurvivingStep(entries: map<string, Entry>, name: string, rest: set<string>,
                      pins: map<string, string>, hashes: map<string, seq<string>>)
    requires PrintablePins(pins) && name in pins && forall n | n in rest :: n in pins
    ensures (match Survives(pins[name], Found(hashes, name)) case None => entries case Some(e) => entries[name := e])
              + Surviving(rest, pins, hashes)
            == entries + Surviving({name} + rest, pins, hashes)
  {
  }

  lemma NothingSurvives(entries: map<string, Entry>, pins: map<string, string>,
                        hashes: map<string, seq<string>>)
    ensures entries + Surviving(ToSet([]), pins, hashes) == entries
  {
  }

  lemma {:induction false} ReadBody(st: Reading, names: seq<string>, pins: map<string, string>,
                                    hashes: map<string, seq<string>>)
    requires Consistent(st) && PrintablePins(pins) && PrintableHashes(hashes)
    requires forall n | n in names :: n in pins
    ensures ReadLines(st, Body(names, pins, hashes)).entries == st.entries + Surviving(ToSet(names), pins, hashes)
    decreases |names|
  {
    if names == [] {
      NothingSurvives(st.entries, pins, hashes);
    } else {
      var name, rest := names[0], names[1..];
      var lines := PinLines(name, pins[name], Found(hashes, name));
      ReadPinLines(st, name, pins[name], Found(hashes, name));
      ReadBody(ReadLines(st, lines), rest, pins, hashes);
      ReadConcat(st, lines, Body(rest, pins, hashes));
      assert ToSet(names) == {name} + ToSet(rest);
      SurvivingStep(st.entries, name, ToSet(rest), pins, hashes);
    }
  }

  lemma {:induction false} BodyIsLines(names: seq<string>, pins: map<string, string>, hashes: map<string, seq<string>>)
    requires PrintablePins(pins) && PrintableHashes(hashes) && forall n | n in names :: n in pins
    ensures forall l | l in Body(names, pins, hashes) :: OneLine(l)
    decreases |names|
  {
    if names != [] {
      ReadPinLines(START, names[0], pins[names[0]], Found(hashes, names[0]));
      BodyIsLines(names[1..], pins, hashes);
    }
  }

  /** Reading a printed lockfile gives, for every map of well-formed names, versions and hashes,
      each pin as it survives its own line, and nothing else. */
  lemma ReadPrint(header: seq<string>, pins: map<string, string>, hashes: map<string, seq<string>>)
    requires PrintablePins(pins) && PrintableHashes(hashes) && forall l | l in header :: IsComment(l)
    ensures EntriesOf(Print(header, pins, hashes)) == Surviving(pins.Keys, pins, hashes)
  {
    SortedToSet(pins.Keys);
    ReadNames(header, Sorted(pins.Keys), pins, hashes);
  }

  lemma SortedToSet(s: set<string>)
    ensures ToSet(Sorted(s)) == s
  {
  }

  lemma ReadNames(header: seq<string>, names: seq<string>, pins: map<string, string>,
                  hashes: map<string, seq<string>>)
    requires PrintablePins(pins) && PrintableHashes(hashes) && forall l | l in header :: IsComment(l)
    requires forall n | n in names :: n in pins
    ensures EntriesOf(Unlines(header + [""] + Body(names, pins, hashes))) == Surviving(ToSet(names), pins, hashes)
  {
    ReadBody(START, names, pins, hashes);
    BodyIsLines(names, pins, hashes);
    ReadUnderHeader(header, Body(names, pins, hashes));
    NothingBefore(Surviving(ToSet(names), pins, hashes));
  }

  lemma NothingBefore(entries: map<string, Entry>)
    ensures START.entries + entries == entries
  {
  }

  lemma ReadUnderHeader(header: seq<string>, body: seq<string>)
    requires (forall l | l in header :: IsComment(l)) && (forall l | l in body :: OneLine(l))
    ensures EntriesOf(Unlines(header + [""] + body)) == ReadLines(START, body).entries
  {
    var top := header + [""];
    CommentsAreSkipped(START, top);
    ReadConcat(START, top, body);
    SplitUnlines(top + body);
  }

  function Whole(pins: map<string, string>, hashes: map<string, seq<string>>): map<string, Entry> {
    map n | n in pins :: Entry(pins[n], Found(hashes, n))
  }

  lemma SurvivesWholeIff(pins: map<string, string>, hashes: map<string, seq<string>>)
    requires forall n | n in pins :: pins[n] != ""
    ensures Surviving(pins.Keys, pins, hashes) == Whole(pins, hashes) <==>
            forall n | n in pins :: Found(hashes, n) == [] ==> !EndsWith(pins[n], '\\')
  {
    var back := Surviving(pins.Keys, pins, hashes);
    forall n | n in pins && Found(hashes, n) == [] && EndsWith(pins[n], '\\')
      ensures back != Whole(pins, hashes)
    {
      assert Whole(pins, hashes)[n] == Entry(pins[n], []);
      if n in back {
        assert |back[n].version| < |pins[n]|;
      }
    }
  }

  /** The round trip: `read_entries(render(...))` is the normalised pins with their hashes sorted
      and deduplicated, exactly when no pin without a hash has a version ending in a backslash. */
  lemma RoundTripIff(header: seq<string>, resolved: seq<(string, string)>,
                     hashes: seq<(string, seq<string>)>)
    requires forall l | l in header :: IsComment(l)
    requires forall r | r in resolved :: AllName(r.0) && AllVersion(r.1)
    requires forall r | r in hashes :: forall h | h in r.1 :: IsHash(h)
    ensures EntriesOf(Render(header, resolved, hashes)) == Whole(NormalPins(resolved), NormalHashes(hashes)) <==>
            forall n | n in NormalPins(resolved) ::
              Found(NormalHashes(hashes), n) == [] ==> !EndsWith(NormalPins(resolved)[n], '\\')
  {
    NormalPinsPrintable(resolved);
    NormalHashesPrintable(hashes);
    ReadPrint(header, NormalPins(resolved), NormalHashes(hashes));
    SurvivesWholeIff(NormalPins(resolved), NormalHashes(hashes));
  }

  lemma {:induction false} NormalPinsPrintable(resolved: seq<(string, string)>)
    requires forall r | r in resolved :: AllName(r.0) && AllVersion(r.1)
    ensures PrintablePins(NormalPins(resolved))
  {
    if resolved != [] {
      var n := |resolved| - 1;
      NormalPinsPrintable(resolved[..n]);
      assert resolved[n] in resolved;
      NormalizeIsNormal(resolved[n].0);
    }
  }

  lemma {:induction false} NormalHashesPrintable(hashes: seq<(string, seq<string>)>)
    requires forall r | r in hashes :: forall h | h in r.1 :: IsHash(h)
    ensures PrintableHashes(NormalHashes(hashes))
    ensures forall n | n in NormalHashes(hashes) :: StrictlySorted(NormalHashes(hashes)[n])
  {
    if hashes != [] {
      var n := |hashes| - 1;
      NormalHashesPrintable(hashes[..n]);
      assert hashes[n] in hashes;
      SortedInOrder(ToSet(hashes[n].1));
    }
  }

  // -------------------------------------------------------- printing again

  /** The items of a dictionary, in some order. */
  predicate Lists<V(==)>(items: seq<(string, V)>, m: map<string, V>) {
    && (forall r | r in items :: r.0 in m && m[r.0] == r.1)
    && (forall k | k in m :: (k, m[k]) in items)
  }

  /** The items of a dictionary, by name. */
  function Items<V>(m: map<string, V>): (items: seq<(string, V)>)
    ensures forall r | r in items :: r.0 in m && m[r.0] == r.1
  {
    var names := Sorted(m.Keys);
    assert forall i | 0 <= i < |names| :: names[i] in names;
    seq(|names|, i requires 0 <= i < |names| => (names[i], m[names[i]]))
  }

  lemma ItemsList<V>(m: map<string, V>)
    ensures forall k | k in m :: (k, m[k]) in Items(m)
    ensures forall r | r in Items(m) :: r.0 in m && m[r.0] == r.1
  {
    var names := Sorted(m.Keys);
    forall k | k in m ensures (k, m[k]) in Items(m) {
      assert k in names;
      var i :| 0 <= i < |names| && names[i] == k;
      assert Items(m)[i] == (k, m[k]);
    }
  }

  lemma ListedPins(items: seq<(string, string)>, m: map<string, string>)
    requires Lists(items, m)
    ensures (map r | r in items :: r.0 := r.1) == m
  {
    var again := map r | r in items :: r.0 := r.1;
    forall k | k in m ensures k in again && again[k] == m[k] {
      assert (k, m[k]) in items;
    }
    assert forall k | k in again :: k in m;
  }

  lemma ListedHashes(items: seq<(string, seq<string>)>, m: map<string, seq<string>>,
                     sorted: map<string, seq<string>>)
    requires Lists(items, m) && sorted.Keys == m.Keys && forall r | r in items :: sorted[r.0] == Sorted(ToSet(r.1))
    ensures (map r | r in items :: r.0 := Sorted(ToSet(r.1))) == sorted
  {
    var again := map r | r in items :: r.0 := Sorted(ToSet(r.1));
    forall k | k in m ensures k in again && again[k] == sorted[k] {
      assert (k, m[k]) in items;
    }
    assert forall k | k in again :: k in m;
  }

  /** Printing a dictionary of normalised names keeps it. */
  lemma NormalPinsOfItems(items: seq<(string, string)>, m: map<string, string>)
    requires Lists(items, m) && forall k | k in m :: Normal(k)
    ensures NormalPins(items) == m
  {
    PinsOfListing(items, m);
    ListedPins(items, m);
  }

  lemma NormalHashesOfItems(items: seq<(string, seq<string>)>, m: map<string, seq<string>>,
                            sorted: map<string, seq<string>>)
    requires Lists(items, m) && forall k | k in m :: Normal(k)
    requires sorted.Keys == m.Keys && forall r | r in items :: sorted[r.0] == Sorted(ToSet(r.1))
    ensures NormalHashes(items) == sorted
  {
    HashesOfListing(items, m);
    ListedHashes(items, m, sorted);
  }

  lemma {:induction false} PinsOfListing(items: seq<(string, string)>, m: map<string, string>)
    requires forall r | r in items :: r.0 in m && m[r.0] == r.1 && Normal(r.0)
    ensures NormalPins(items) == map r | r in items :: r.0 := r.1
  {
    if items != [] {
      var n := |items| - 1;
      assert items == items[..n] + [items[n]];
      PinsOfListing(items[..n], m);
      NormalIsFixed(items[n].0);
    }
  }

  lemma {:induction false} HashesOfListing(items: seq<(string, seq<string>)>, m: map<string, seq<string>>)
    requires forall r | r in items :: r.0 in m && m[r.0] == r.1 && Normal(r.0)
    ensures NormalHashes(items) == map r | r in items :: r.0 := Sorted(ToSet(r.1))
  {
    if items != [] {
      var n := |items| - 1;
      assert items == items[..n] + [items[n]];
      HashesOfListing(items[..n], m);
      NormalIsFixed(items[n].0);
    }
  }

  function VersionsOf(entries: map<string, Entry>): map<string, string> {
    map n | n in entries :: entries[n].version
  }

  function HashesOf(entries: map<string, Entry>): map<string, seq<string>> {
    map n | n in entries :: entries[n].hashes
  }

  lemma SortedAgain(s: set<string>)
    ensures Sorted(ToSet(Sorted(s))) == Sorted(s)
  {
    assert ToSet(Sorted(s)) == s;
  }

  lemma {:induction false} BodyAgrees(names: seq<string>, pins: map<string, string>,
                                      a: map<string, seq<string>>, b: map<string, seq<string>>)
    requires forall n | n in names :: n in pins && Found(a, n) == Found(b, n)
    ensures Body(names, pins, a) == Body(names, pins, b)
  {
    if names != [] {
      BodyAgrees(names[1..], pins, a, b);
    }
  }

  /** A regeneration that changes nothing produces no diff: rendering what was read back, its
      items listed in any order, gives the same text. */
  lemma RenderAgain(header: seq<string>, resolved: seq<(string, string)>,
                    hashes: seq<(string, seq<string>)>,
                    resolved': seq<(string, string)>, hashes': seq<(string, seq<string>)>)
    requires forall l | l in header :: IsComment(l)
    requires forall r | r in resolved :: AllName(r.0) && AllVersion(r.1)
    requires forall r | r in hashes :: forall h | h in r.1 :: IsHash(h)
    requires forall n | n in NormalPins(resolved) ::
               Found(NormalHashes(hashes), n) == [] ==> !EndsWith(NormalPins(resolved)[n], '\\')
    requires var back := EntriesOf(Render(header, resolved, hashes));
             Lists(resolved', VersionsOf(back)) && Lists(hashes', HashesOf(back))
    ensures Render(header, resolved', hashes') == Render(header, resolved, hashes)
  {
    RoundTripIff(header, resolved, hashes);
    NormalPinsPrintable(resolved);
    VersionsOfWhole(NormalPins(resolved), NormalHashes(hashes));
    PrintAgain(header, NormalPins(resolved), hashes, resolved', hashes');
  }

  lemma VersionsOfWhole(pins: map<string, string>, found: map<string, seq<string>>)
    ensures VersionsOf(Whole(pins, found)) == pins
  {
  }

  lemma PrintAgain(header: seq<string>, pins: map<string, string>,
                   hashes: seq<(string, seq<string>)>,
                   resolved': seq<(string, string)>, hashes': seq<(string, seq<string>)>)
    requires forall n | n in pins :: Normal(n)
    requires Lists(resolved', pins) && Lists(hashes', HashesOf(Whole(pins, NormalHashes(hashes))))
    ensures Print(header, NormalPins(resolved'), NormalHashes(hashes')) == Print(header, pins, NormalHashes(hashes))
  {
    PinsAgain(resolved', pins);
    HashesAgain(pins, hashes, hashes');
    PrintSame(header, pins, NormalHashes(hashes'), NormalHashes(hashes));
  }

  lemma PinsAgain(items: seq<(string, string)>, pins: map<string, string>)
    requires Lists(items, pins) && forall n | n in pins :: Normal(n)
    ensures NormalPins(items) == pins
  {
    PinsOfListing(items, pins);
    ListingIsWhole(items, pins);
  }

  lemma PrintSame(header: seq<string>, pins: map<string, string>,
                  a: map<string, seq<string>>, b: map<string, seq<string>>)
    requires forall n | n in pins :: Found(a, n) == Found(b, n)
    ensures Print(header, pins, a) == Print(header, pins, b)
  {
    BodyAgrees(Sorted(pins.Keys), pins, a, b);
  }

  lemma HashesAgain(pins: map<string, string>, hashes: seq<(string, seq<string>)>,
                    hashes': seq<(string, seq<string>)>)
    requires forall n | n in pins :: Normal(n)
    requires Lists(hashes', HashesOf(Whole(pins, NormalHashes(hashes))))
    ensures forall n | n in pins :: Found(NormalHashes(hashes'), n) == Found(NormalHashes(hashes), n)
  {
    var all := HashesOf(Whole(pins, NormalHashes(hashes)));
    HashesOfListing(hashes', all);
    forall n | n in pins ensures Found(NormalHashes(hashes'), n) == Found(NormalHashes(hashes), n) {
      assert (n, all[n]) in hashes';
      SortedIsFixed(hashes, n);
    }
  }

  lemma ListingIsWhole(items: seq<(string, string)>, m: map<string, string>)
    requires Lists(items, m)
    ensures (map r | r in items :: r.0 := r.1) == m
  {
    forall k | k in m ensures exists r :: r in items && r.0 == k {
      assert (k, m[k]) in items;
    }
  }

  lemma {:induction false} SortedIsFixed(hashes: seq<(string, seq<string>)>, n: string)
    ensures Sorted(ToSet(Found(NormalHashes(hashes), n))) == Found(NormalHashes(hashes), n)
  {
    if hashes == [] {
      assert ToSet([]) == {};
    } else {
      var i := |hashes| - 1;
      if n == Normalize(hashes[i].0) {
        SortedAgain(ToSet(hashes[i].1));
      } else {
        SortedIsFixed(hashes[..i], n);
        assert Found(NormalHashes(hashes), n) == Found(NormalHashes(hashes[..i]), n);
      }
    }
  }
}
