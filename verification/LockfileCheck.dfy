/**
 Checking a lockfile against its requirements, and writing one (scripts/lockfile.py,
 `requirement_lines`, `check`, `check_hashes`, `check_constraints` and the write mode of `main`).
 Reading a requirement line and testing a version against it are the `packaging` library's:
 here they are arbitrary total functions.
 */
module LockfileCheck {
  import opened Wrappers
  import opened Text
  import opened Lockfile
  import opened LockfilePrint

  /** A parsed requirement; `plain` when it has neither a marker nor a URL. */
  datatype Requirement = Requirement(name: string, plain: bool)

  datatype Packaging = Packaging(parse: string -> Option<Requirement>, contains: (string, string) -> bool)

  datatype Problem =
    | PinAbsent(name: string, version: string)
    | PinDiffers(name: string, version: string, locked: string)
    | Unreadable(number: nat, line: string)
    | NotComparable(number: nat, line: string)
    | RangeAbsent(number: nat, line: string)
    | RangeUnmet(number: nat, line: string)
    | Unhashed(name: string, version: string)
    | ConstraintsMissing
    | ConstraintsDiffer

  function ReadPins(text: string): map<string, string> {
    VersionsOf(EntriesOf(text))
  }

  /** Blank lines and options make no claim about the install; everything else does. */
  predicate IsOther(line: string) {
    line != "" && line[0] != '-' && ParsePin(line) == None
  }

  /** Found are exactly the lines that make a claim and are no pin, under their numbers. */
  ghost predicate FoundExactly(found: seq<(nat, string)>, lines: seq<string>) {
    forall number, line :: (number, line) in found <==>
      1 <= number <= |lines| && line == Clean(lines[number - 1]) && IsOther(line)
  }

  method RequirementLines(text: string) returns (found: seq<(nat, string)>)
    ensures FoundExactly(found, SplitLines(text))
  {
    found := [];
    var lines := SplitLines(text);
    for i := 0 to |lines|
      invariant forall number, line :: (number, line) in found <==>
                  1 <= number <= i && line == Clean(lines[number - 1]) && IsOther(line)
    {
      var line := Clean(lines[i]);
      if line == "" || line[0] == '-' || ParsePin(line).Some? { continue; }
      found := found + [(i + 1, line)];
    }
  }

  /** Fails closed: a line that cannot be compared is a problem, never skipped. */
  function CheckRequirement(number: nat, line: string, locked: map<string, string>, pk: Packaging): Option<Problem> {
    match pk.parse(line)
    case None => Some(Unreadable(number, line))
    case Some(r) =>
      if !r.plain then Some(NotComparable(number, line))
      else if Normalize(r.name) !in locked then Some(RangeAbsent(number, line))
      else if !pk.contains(line, locked[Normalize(r.name)]) then Some(RangeUnmet(number, line))
      else None
  }

  /** A line that makes a claim is met: it can be read, has no marker and no URL, and the version locked
      for its package is in its range. */
  predicate RangeMet(line: string, locked: map<string, string>, pk: Packaging) {
    var parsed := pk.parse(line);
    && parsed.Some? && parsed.value.plain
    && Normalize(parsed.value.name) in locked && pk.contains(line, locked[Normalize(parsed.value.name)])
  }

  /** What the check establishes when it reports nothing. */
  predicate Passes(text: string, locked: map<string, string>, pk: Packaging) {
    PinsMet(ReadPins(text), locked) && OthersMet(SplitLines(text), locked, pk)
  }

  /** What is wrong with one line that is neither a pin nor an option, if anything. */
  function OtherProblem(lines: seq<string>, i: nat, locked: map<string, string>, pk: Packaging): Option<Problem>
    requires i < |lines|
  {
    if IsOther(Clean(lines[i])) then CheckRequirement(i + 1, Clean(lines[i]), locked, pk) else None
  }

  predicate OtherMet(lines: seq<string>, i: nat, locked: map<string, string>, pk: Packaging)
    requires i < |lines|
  {
    OtherProblem(lines, i, locked, pk) == None
  }

  predicate OthersMet(lines: seq<string>, locked: map<string, string>, pk: Packaging) {
    forall i: nat | i < |lines| :: OtherMet(lines, i, locked, pk)
  }

  predicate PinsMet(direct: map<string, string>, locked: map<string, string>) {
    forall n | n in direct :: n in locked && locked[n] == direct[n]
  }

  /** What is wrong with one direct pin, if anything. */
  function PinProblem(name: string, direct: map<string, string>, locked: map<string, string>): Option<Problem>
    requires name in direct
  {
    if name !in locked then Some(PinAbsent(name, direct[name]))
    else if locked[name] != direct[name] then Some(PinDiffers(name, direct[name], locked[name]))
    else None
  }

  predicate IsDirectProblem(p: Problem, direct: map<string, string>, locked: map<string, string>) {
    exists n :: n in direct && PinProblem(n, direct, locked) == Some(p)
  }

  predicate IsPinProblem(p: Problem, names: seq<string>, direct: map<string, string>, locked: map<string, string>) {
    exists i :: 0 <= i < |names| && names[i] in direct && PinProblem(names[i], direct, locked) == Some(p)
  }

  lemma PinProblemSnoc(p: Problem, names: seq<string>, n: string, direct: map<string, string>,
                       locked: map<string, string>)
    ensures IsPinProblem(p, names + [n], direct, locked) <==>
            IsPinProblem(p, names, direct, locked) || (n in direct && PinProblem(n, direct, locked) == Some(p))
  {
    var more := names + [n];
    if IsPinProblem(p, names, direct, locked) {
      var i :| 0 <= i < |names| && names[i] in direct && PinProblem(names[i], direct, locked) == Some(p);
      assert more[i] == names[i];
    }
    assert more[|names|] == n;
  }

  method CheckPins(direct: map<string, string>, locked: map<string, string>) returns (problems: seq<Problem>)
    ensures forall p :: p in problems <==> IsDirectProblem(p, direct, locked)
  {
    problems := [];
    var names := Sorted(direct.Keys);
    for i := 0 to |names|
      invariant forall p :: p in problems <==> IsPinProblem(p, names[..i], direct, locked)
    {
      var name := names[i];
      assert name in names;
      assert names[..i + 1] == names[..i] + [name];
      forall p { PinProblemSnoc(p, names[..i], name, direct, locked); }
      if name !in locked {
        problems := problems + [PinAbsent(name, direct[name])];
      } else if locked[name] != direct[name] {
        problems := problems + [PinDiffers(name, direct[name], locked[name])];
      }
    }
    assert names[..|names|] == names;
    forall p ensures IsPinProblem(p, names, direct, locked) <==> IsDirectProblem(p, direct, locked) {
      if n :| n in direct && PinProblem(n, direct, locked) == Some(p) {
        assert n in names;
      }
    }
  }

  predicate IsLineProblem(p: Problem, found: seq<(nat, string)>, locked: map<string, string>, pk: Packaging) {
    exists k :: 0 <= k < |found| && CheckRequirement(found[k].0, found[k].1, locked, pk) == Some(p)
  }

  lemma LineProblemSnoc(p: Problem, found: seq<(nat, string)>, f: (nat, string),
                        locked: map<string, string>, pk: Packaging)
    ensures IsLineProblem(p, found + [f], locked, pk) <==>
            IsLineProblem(p, found, locked, pk) || CheckRequirement(f.0, f.1, locked, pk) == Some(p)
  {
    var more := found + [f];
    if IsLineProblem(p, found, locked, pk) {
      var k :| 0 <= k < |found| && CheckRequirement(found[k].0, found[k].1, locked, pk) == Some(p);
      assert more[k] == found[k];
    }
    assert more[|found|] == f;
  }

  method CheckOthers(found: seq<(nat, string)>, locked: map<string, string>, pk: Packaging)
    returns (problems: seq<Problem>)
    ensures forall p :: p in problems <==> IsLineProblem(p, found, locked, pk)
  {
    problems := [];
    for i := 0 to |found|
      invariant forall p :: p in problems <==> IsLineProblem(p, found[..i], locked, pk)
    {
      var problem := CheckRequirement(found[i].0, found[i].1, locked, pk);
      assert found[..i + 1] == found[..i] + [found[i]];
      forall p { LineProblemSnoc(p, found[..i], found[i], locked, pk); }
      if problem.Some? {
        problems := problems + [problem.value];
      }
    }
    assert found[..|found|] == found;
  }

  predicate IsOtherProblem(p: Problem, lines: seq<string>, locked: map<string, string>, pk: Packaging) {
    exists i: nat :: i < |lines| && OtherProblem(lines, i, locked, pk) == Some(p)
  }

  /** What the check reports of one requirements file: each wrong direct pin, and each line that is
      no pin and cannot be compared or is not met, under its number. */
  predicate IsProblem(p: Problem, text: string, locked: map<string, string>, pk: Packaging) {
    || IsDirectProblem(p, ReadPins(text), locked)
    || IsOtherProblem(p, SplitLines(text), locked, pk)
  }

  /** Line `number` makes a claim that is no pin. */
  predicate Claims(lines: seq<string>, number: nat, line: string) {
    1 <= number <= |lines| && line == Clean(lines[number - 1]) && line != "" && line[0] != '-' && ParsePin(line) == None
  }

  /** What each problem says of the requirements and the lock. */
  predicate Reported(p: Problem, direct: map<string, string>, lines: seq<string>, locked: map<string, string>,
                     pk: Packaging)
  {
    match p
    case PinAbsent(name, version) => name in direct && direct[name] == version && name !in locked
    case PinDiffers(name, version, other) =>
      name in direct && direct[name] == version && name in locked && locked[name] == other && other != version
    case Unreadable(number, line) => Claims(lines, number, line) && pk.parse(line) == None
    case NotComparable(number, line) =>
      Claims(lines, number, line) && pk.parse(line).Some? && !pk.parse(line).value.plain
    case RangeAbsent(number, line) =>
      && Claims(lines, number, line) && pk.parse(line).Some? && pk.parse(line).value.plain
      && Normalize(pk.parse(line).value.name) !in locked
    case RangeUnmet(number, line) =>
      && Claims(lines, number, line) && pk.parse(line).Some? && pk.parse(line).value.plain
      && Normalize(pk.parse(line).value.name) in locked
      && !pk.contains(line, locked[Normalize(pk.parse(line).value.name)])
    case _ => false
  }

  /** The file's direct pins are in the lock at their versions, and every line that makes another claim
      is met. */
  predicate FileMet(direct: map<string, string>, lines: seq<string>, locked: map<string, string>, pk: Packaging) {
    && (forall n | n in direct :: n in locked && locked[n] == direct[n])
    && (forall i | 0 <= i < |lines| ::
          var line := Clean(lines[i]);
          line == "" || line[0] == '-' || ParsePin(line).Some? || RangeMet(line, locked, pk))
  }

  lemma DirectIsReported(p: Problem, direct: map<string, string>, lines: seq<string>, locked: map<string, string>,
                         pk: Packaging)
    ensures IsDirectProblem(p, direct, locked) <==>
            (p.PinAbsent? || p.PinDiffers?) && Reported(p, direct, lines, locked, pk)
  {
    if (p.PinAbsent? || p.PinDiffers?) && Reported(p, direct, lines, locked, pk) {
      assert PinProblem(p.name, direct, locked) == Some(p);
    }
  }

  /** Where a problem with a line stands and what the line is. */
  function PlaceOf(p: Problem): (nat, string) {
    match p
    case Unreadable(number, line) => (number, line)
    case NotComparable(number, line) => (number, line)
    case RangeAbsent(number, line) => (number, line)
    case RangeUnmet(number, line) => (number, line)
    case _ => (0, "")
  }

  lemma ClaimIsReported(p: Problem, direct: map<string, string>, lines: seq<string>, locked: map<string, string>,
                        pk: Packaging, number: nat, line: string)
    requires Claims(lines, number, line)
    ensures CheckRequirement(number, line, locked, pk) == Some(p) <==>
            !p.PinAbsent? && !p.PinDiffers? && PlaceOf(p) == (number, line) && Reported(p, direct, lines, locked, pk)
  {
  }

  lemma OtherIsReported(p: Problem, direct: map<string, string>, lines: seq<string>, locked: map<string, string>,
                        pk: Packaging)
    ensures IsOtherProblem(p, lines, locked, pk) <==>
            !p.PinAbsent? && !p.PinDiffers? && Reported(p, direct, lines, locked, pk)
  {
    if IsOtherProblem(p, lines, locked, pk) {
      var i: nat :| i < |lines| && OtherProblem(lines, i, locked, pk) == Some(p);
      ClaimIsReported(p, direct, lines, locked, pk, i + 1, Clean(lines[i]));
    }
    if !p.PinAbsent? && !p.PinDiffers? && Reported(p, direct, lines, locked, pk) {
      var (number, line) := PlaceOf(p);
      ClaimIsReported(p, direct, lines, locked, pk, number, line);
      assert OtherProblem(lines, number - 1, locked, pk) == Some(p);
    }
  }

  lemma ProblemIsReported(p: Problem, text: string, locked: map<string, string>, pk: Packaging)
    ensures IsProblem(p, text, locked, pk) <==> Reported(p, ReadPins(text), SplitLines(text), locked, pk)
  {
    DirectIsReported(p, ReadPins(text), SplitLines(text), locked, pk);
    OtherIsReported(p, ReadPins(text), SplitLines(text), locked, pk);
  }

  lemma OtherMetIff(lines: seq<string>, i: nat, locked: map<string, string>, pk: Packaging)
    requires i < |lines|
    ensures OtherMet(lines, i, locked, pk) <==>
            (IsOther(Clean(lines[i])) ==> RangeMet(Clean(lines[i]), locked, pk))
  {
  }

  lemma PassesIsMet(text: string, locked: map<string, string>, pk: Packaging)
    ensures Passes(text, locked, pk) <==> FileMet(ReadPins(text), SplitLines(text), locked, pk)
  {
    var lines := SplitLines(text);
    forall i: nat | i < |lines|
      ensures OtherMet(lines, i, locked, pk) <==>
              (IsOther(Clean(lines[i])) ==> RangeMet(Clean(lines[i]), locked, pk))
    {
      OtherMetIff(lines, i, locked, pk);
    }
    if FileMet(ReadPins(text), lines, locked, pk) {
      forall i: nat | i < |lines| ensures OtherMet(lines, i, locked, pk) {
        assert Clean(lines[i]) == "" || Clean(lines[i])[0] == '-' || ParsePin(Clean(lines[i])).Some?
               || RangeMet(Clean(lines[i]), locked, pk);
      }
    }
  }

  method Check(requirements: string, lock: string, pk: Packaging) returns (problems: seq<Problem>)
    ensures forall p :: p in problems <==>
              Reported(p, ReadPins(requirements), SplitLines(requirements), ReadPins(lock), pk)
    ensures problems == [] <==> FileMet(ReadPins(requirements), SplitLines(requirements), ReadPins(lock), pk)
  {
    var locked := ReadPins(lock);
    var pinProblems := CheckPins(ReadPins(requirements), locked);
    var found := RequirementLines(requirements);
    var others := CheckOthers(found, locked, pk);
    problems := pinProblems + others;
    forall p ensures p in problems <==> IsProblem(p, requirements, locked, pk) {
      LineProblemIff(p, SplitLines(requirements), found, locked, pk);
    }
    forall p ensures p in problems <==> Reported(p, ReadPins(requirements), SplitLines(requirements), locked, pk) {
      ProblemIsReported(p, requirements, locked, pk);
    }
    PassesIff(requirements, locked, pk);
    PassesIsMet(requirements, locked, pk);
    if problems != [] { assert problems[0] in problems; }
  }

  lemma LineProblemIs(f: (nat, string), lines: seq<string>, i: nat, locked: map<string, string>,
                      pk: Packaging)
    requires i < |lines| && f == (i + 1, Clean(lines[i])) && IsOther(f.1)
    ensures OtherProblem(lines, i, locked, pk) == CheckRequirement(f.0, f.1, locked, pk)
  {
  }

  lemma LineProblemIsOther(p: Problem, lines: seq<string>, found: seq<(nat, string)>,
                           locked: map<string, string>, pk: Packaging)
    requires FoundExactly(found, lines) && IsLineProblem(p, found, locked, pk)
    ensures IsOtherProblem(p, lines, locked, pk)
  {
    var k :| 0 <= k < |found| && CheckRequirement(found[k].0, found[k].1, locked, pk) == Some(p);
    var f := found[k];
    FoundIsOther(found, lines, f);
    ProblemOfLine(p, f, lines, locked, pk);
  }

  lemma ProblemOfLine(p: Problem, f: (nat, string), lines: seq<string>, locked: map<string, string>,
                      pk: Packaging)
    requires 1 <= f.0 <= |lines| && f.1 == Clean(lines[f.0 - 1]) && IsOther(f.1)
    requires CheckRequirement(f.0, f.1, locked, pk) == Some(p)
    ensures IsOtherProblem(p, lines, locked, pk)
  {
    LineProblemIs(f, lines, f.0 - 1, locked, pk);
  }

  lemma OtherProblemIsLine(p: Problem, lines: seq<string>, found: seq<(nat, string)>,
                           locked: map<string, string>, pk: Packaging)
    requires FoundExactly(found, lines) && IsOtherProblem(p, lines, locked, pk)
    ensures IsLineProblem(p, found, locked, pk)
  {
    var i: nat :| i < |lines| && OtherProblem(lines, i, locked, pk) == Some(p);
    var k := OtherIsFound(found, lines, i);
    LineProblemIs(found[k], lines, i, locked, pk);
  }

  lemma LineProblemIff(p: Problem, lines: seq<string>, found: seq<(nat, string)>,
                       locked: map<string, string>, pk: Packaging)
    requires FoundExactly(found, lines)
    ensures IsLineProblem(p, found, locked, pk) <==> IsOtherProblem(p, lines, locked, pk)
  {
    if IsLineProblem(p, found, locked, pk) {
      LineProblemIsOther(p, lines, found, locked, pk);
    }
    if IsOtherProblem(p, lines, locked, pk) {
      OtherProblemIsLine(p, lines, found, locked, pk);
    }
  }

  lemma FoundIsOther(found: seq<(nat, string)>, lines: seq<string>, f: (nat, string))
    requires FoundExactly(found, lines) && f in found
    ensures 1 <= f.0 <= |lines| && f.1 == Clean(lines[f.0 - 1]) && IsOther(f.1)
  {
    assert (f.0, f.1) in found;
  }

  lemma OtherIsFound(found: seq<(nat, string)>, lines: seq<string>, i: nat) returns (k: nat)
    requires FoundExactly(found, lines) && i < |lines| && IsOther(Clean(lines[i]))
    ensures k < |found| && found[k] == (i + 1, Clean(lines[i]))
  {
    assert (i + 1, Clean(lines[i])) in found;
    k :| k < |found| && found[k] == (i + 1, Clean(lines[i]));
  }

  /** Nothing is reported exactly when the file passes. */
  lemma PassesIff(text: string, locked: map<string, string>, pk: Packaging)
    ensures Passes(text, locked, pk) <==> forall p :: !IsProblem(p, text, locked, pk)
  {
    PinsMetIff(ReadPins(text), locked);
    OthersMetIff(SplitLines(text), locked, pk);
    if forall p :: !IsProblem(p, text, locked, pk) {
      forall p ensures !IsDirectProblem(p, ReadPins(text), locked) && !IsOtherProblem(p, SplitLines(text), locked, pk) {
        assert !IsProblem(p, text, locked, pk);
      }
    }
  }

  lemma PinsMetIff(direct: map<string, string>, locked: map<string, string>)
    ensures PinsMet(direct, locked) <==> forall p :: !IsDirectProblem(p, direct, locked)
  {
    if forall p :: !IsDirectProblem(p, direct, locked) {
      forall n | n in direct ensures n in locked && locked[n] == direct[n] {
        var p := PinProblem(n, direct, locked);
        if p.Some? { assert IsDirectProblem(p.value, direct, locked); }
      }
    }
  }

  lemma OthersMetIff(lines: seq<string>, locked: map<string, string>, pk: Packaging)
    ensures OthersMet(lines, locked, pk) <==> forall p :: !IsOtherProblem(p, lines, locked, pk)
  {
    if forall p :: !IsOtherProblem(p, lines, locked, pk) {
      forall i: nat | i < |lines| ensures OtherMet(lines, i, locked, pk) {
        var p := OtherProblem(lines, i, locked, pk);
        if p.Some? { assert IsOtherProblem(p.value, lines, locked, pk); }
      }
    }
    if OthersMet(lines, locked, pk) {
      forall i: nat | i < |lines| ensures OtherProblem(lines, i, locked, pk) == None {
        assert OtherMet(lines, i, locked, pk);
      }
    }
  }

  // ------------------------------------------- what the check is a check of

  /** One line of the requirements file is met by the install the lock describes. */
  predicate LineMet(raw: string, locked: map<string, string>, pk: Packaging) {
    var line := Clean(raw);
    match ParsePin(line)
    case Some(pin) => Normalize(pin.name) in locked && locked[Normalize(pin.name)] == pin.version
    case None => line == "" || line[0] == '-' || RangeMet(line, locked, pk)
  }

  function PinOf(raw: string): Option<Pin> {
    var pin := ParsePin(Clean(raw));
    if pin == None then None else Some(Pin(Normalize(pin.value.name), pin.value.version))
  }

  /** No package is pinned to two versions. */
  predicate PinsAgree(lines: seq<string>) {
    forall i, j | 0 <= i < j < |lines| :: SamePin(PinOf(lines[i]), PinOf(lines[j]))
  }

  predicate SamePin(a: Option<Pin>, b: Option<Pin>) {
    a.Some? && b.Some? && a.value.name == b.value.name ==> a == b
  }

  function PinsOf(lines: seq<string>): seq<Option<Pin>> {
    seq(|lines|, i requires 0 <= i < |lines| => PinOf(lines[i]))
  }

  function LastPin(pins: seq<Option<Pin>>, name: string): Option<string> {
    if pins == [] then None
    else
      var pin := pins[|pins| - 1];
      if pin.Some? && pin.value.name == name then Some(pin.value.version) else LastPin(pins[..|pins| - 1], name)
  }

  function VersionIn(entries: map<string, Entry>, name: string): Option<string> {
    if name in entries then Some(entries[name].version) else None
  }

  lemma PinIsNoHash(line: string)
    requires ParsePin(line).Some?
    ensures ParseHash(line) == None
  {
    var n := NameRun(line);
    assert line[n..n + 2] == "==";
    assert line[n] == line[n..n + 2][0] && line[n + 1] == line[n..n + 2][1];
    NotAHash(line, n);
  }

  lemma ReadLinePin(st: Reading, raw: string, name: string)
    requires Consistent(st)
    ensures VersionIn(ReadLine(st, raw).entries, name) ==
            if PinOf(raw).Some? && PinOf(raw).value.name == name then Some(PinOf(raw).value.version)
            else VersionIn(st.entries, name)
  {
    if PinOf(raw).Some? { PinIsNoHash(Clean(raw)); }
  }

  lemma ReadSnoc(st: Reading, lines: seq<string>, raw: string, name: string)
    requires Consistent(st)
    ensures VersionIn(ReadLines(st, lines + [raw]).entries, name) ==
            if PinOf(raw).Some? && PinOf(raw).value.name == name then Some(PinOf(raw).value.version)
            else VersionIn(ReadLines(st, lines).entries, name)
  {
    ReadConcat(st, lines, [raw]);
    ReadOne(ReadLines(st, lines), raw);
    ReadLinePin(ReadLines(st, lines), raw, name);
  }

  lemma PinsOfPrefix(lines: seq<string>, n: nat)
    requires n < |lines|
    ensures PinsOf(lines)[..n] == PinsOf(lines[..n]) && PinsOf(lines)[n] == PinOf(lines[n])
  {
  }

  lemma LastPinSnoc(lines: seq<string>, name: string)
    requires lines != []
    ensures var raw := lines[|lines| - 1];
            LastPin(PinsOf(lines), name) ==
            if PinOf(raw).Some? && PinOf(raw).value.name == name then Some(PinOf(raw).value.version)
            else LastPin(PinsOf(lines[..|lines| - 1]), name)
  {
    PinsOfPrefix(lines, |lines| - 1);
  }

  /** The reader keeps the last pin of each name. */
  lemma {:induction false} LastPinWins(st: Reading, lines: seq<string>, name: string)
    requires Consistent(st) && st.entries == map[]
    ensures VersionIn(ReadLines(st, lines).entries, name) == LastPin(PinsOf(lines), name)
  {
    if lines != [] {
      var n := |lines| - 1;
      LastPinWins(st, lines[..n], name);
      assert lines == lines[..n] + [lines[n]];
      ReadSnoc(st, lines[..n], lines[n], name);
      LastPinSnoc(lines, name);
    }
  }

  /** The hashes that belong to a pin: those of the hash lines below it, blank lines and comments apart, up
      to the first line that is neither. */
  function HashesBelow(lines: seq<string>): seq<string> {
    if lines == [] then []
    else if Clean(lines[0]) == "" then HashesBelow(lines[1..])
    else
      match ParseHash(Clean(lines[0]))
      case Some(h) => [h] + HashesBelow(lines[1..])
      case None => []
  }

  predicate NeverPinned(lines: seq<string>, name: string) {
    forall i | 0 <= i < |lines| :: PinOf(lines[i]).Some? ==> PinOf(lines[i]).value.name != name
  }

  lemma {:induction false} OthersKeepEntry(st: Reading, lines: seq<string>, name: string)
    requires Consistent(st) && name in st.entries && st.current != Some(name) && NeverPinned(lines, name)
    ensures name in ReadLines(st, lines).entries && ReadLines(st, lines).entries[name] == st.entries[name]
    decreases |lines|
  {
    if lines != [] {
      assert PinOf(lines[0]).Some? ==> PinOf(lines[0]).value.name != name;
      OthersKeepEntry(ReadLine(st, lines[0]), lines[1..], name);
    }
  }

  predicate HasEntry(entries: map<string, Entry>, name: string, version: string, hashes: seq<string>) {
    name in entries && entries[name].version == version && entries[name].hashes == hashes
  }

  lemma HashIsCollected(st: Reading, raw: string, name: string, version: string, have: seq<string>)
    requires Consistent(st) && st.current == Some(name) && HasEntry(st.entries, name, version, have)
    requires Clean(raw) != "" && ParseHash(Clean(raw)).Some?
    ensures var next := ReadLine(st, raw);
            next.current == Some(name) && HasEntry(next.entries, name, version, have + [ParseHash(Clean(raw)).value])
  {
  }

  lemma OtherLineEnds(st: Reading, raw: string, name: string, version: string, have: seq<string>)
    requires Consistent(st) && HasEntry(st.entries, name, version, have)
    requires Clean(raw) != "" && ParseHash(Clean(raw)) == None && (PinOf(raw).Some? ==> PinOf(raw).value.name != name)
    ensures var next := ReadLine(st, raw);
            next.current != Some(name) && HasEntry(next.entries, name, version, have)
  {
  }

  lemma NeverPinnedRest(lines: seq<string>, name: string)
    requires NeverPinned(lines, name) && lines != []
    ensures NeverPinned(lines[1..], name) && (PinOf(lines[0]).Some? ==> PinOf(lines[0]).value.name != name)
  {
    forall i | 0 <= i < |lines| - 1 ensures PinOf(lines[1..][i]).Some? ==> PinOf(lines[1..][i]).value.name != name {
      assert lines[1..][i] == lines[i + 1];
    }
  }

  lemma Regrouped(a: seq<string>, h: string, b: seq<string>)
    ensures a + [h] + b == a + ([h] + b)
  {
  }

  lemma {:induction false} EntryCollects(st: Reading, lines: seq<string>, name: string, version: string,
                                         have: seq<string>)
    requires Consistent(st) && st.current == Some(name) && HasEntry(st.entries, name, version, have)
    requires NeverPinned(lines, name)
    ensures HasEntry(ReadLines(st, lines).entries, name, version, have + HashesBelow(lines))
    decreases |lines|
  {
    if lines == [] {
      assert have + [] == have;
    } else {
      NeverPinnedRest(lines, name);
      var line, next := Clean(lines[0]), ReadLine(st, lines[0]);
      if line == "" {
        EntryCollects(st, lines[1..], name, version, have);
      } else if ParseHash(line).Some? {
        var h := ParseHash(line).value;
        HashIsCollected(st, lines[0], name, version, have);
        EntryCollects(next, lines[1..], name, version, have + [h]);
        assert ReadLines(st, lines) == ReadLines(next, lines[1..]);
        Regrouped(have, h, HashesBelow(lines[1..]));
      } else {
        OtherLineEnds(st, lines[0], name, version, have);
        OthersKeepEntry(next, lines[1..], name);
        assert have + [] == have;
      }
    }
  }

  /** The last pin of a name decides its whole entry: the version it gives and the hashes below it. */
  lemma LastPinDecides(text: string, k: nat)
    requires k < |SplitLines(text)| && PinOf(SplitLines(text)[k]).Some?
    requires NeverPinned(SplitLines(text)[k + 1..], PinOf(SplitLines(text)[k]).value.name)
    ensures var pin := PinOf(SplitLines(text)[k]).value;
            HasEntry(EntriesOf(text), pin.name, pin.version, HashesBelow(SplitLines(text)[k + 1..]))
  {
    var lines := SplitLines(text);
    var before := ReadLines(START, lines[..k]);
    SplitAt(lines, k);
    ReadConcat(START, lines[..k], [lines[k]] + lines[k + 1..]);
    ReadConcat(before, [lines[k]], lines[k + 1..]);
    ReadOne(before, lines[k]);
    PinStarts(before, lines[k], lines[k + 1..]);
  }

  lemma SplitAt(lines: seq<string>, k: nat)
    requires k < |lines|
    ensures lines == lines[..k] + ([lines[k]] + lines[k + 1..])
  {
  }

  lemma PinStarts(st: Reading, raw: string, rest: seq<string>)
    requires Consistent(st) && PinOf(raw).Some? && NeverPinned(rest, PinOf(raw).value.name)
    ensures HasEntry(ReadLines(ReadLine(st, raw), rest).entries,
                     PinOf(raw).value.name, PinOf(raw).value.version, HashesBelow(rest))
  {
    PinIsNoHash(Clean(raw));
    EntryCollects(ReadLine(st, raw), rest, PinOf(raw).value.name, PinOf(raw).value.version, []);
    assert [] + HashesBelow(rest) == HashesBelow(rest);
  }

  lemma {:induction false} LastPinIsAPin(pins: seq<Option<Pin>>, name: string)
    ensures LastPin(pins, name).Some? ==> Some(Pin(name, LastPin(pins, name).value)) in pins
    ensures forall p | p in pins && p.Some? && p.value.name == name :: LastPin(pins, name).Some?
  {
    if pins != [] {
      var n := |pins| - 1;
      assert pins == pins[..n] + [pins[n]];
      LastPinIsAPin(pins[..n], name);
    }
  }

  /** The direct pins are the lines' pins, the last of each name. */
  lemma DirectPins(text: string, name: string)
    ensures name in ReadPins(text) ==>
              exists i :: 0 <= i < |SplitLines(text)|
                          && PinOf(SplitLines(text)[i]) == Some(Pin(name, ReadPins(text)[name]))
    ensures forall i | 0 <= i < |SplitLines(text)| ::
              PinOf(SplitLines(text)[i]).Some? && PinOf(SplitLines(text)[i]).value.name == name
              ==> name in ReadPins(text)
  {
    var lines := SplitLines(text);
    LastPinWins(START, lines, name);
    LastPinIsAPin(PinsOf(lines), name);
    if name in ReadPins(text) {
      var i :| 0 <= i < |lines| && PinsOf(lines)[i] == Some(Pin(name, ReadPins(text)[name]));
      assert PinOf(lines[i]) == Some(Pin(name, ReadPins(text)[name]));
    }
    forall i | 0 <= i < |lines| && PinOf(lines[i]).Some? && PinOf(lines[i]).value.name == name
      ensures name in ReadPins(text)
    {
      assert PinsOf(lines)[i] in PinsOf(lines);
    }
  }

  predicate PinMet(pin: Option<Pin>, locked: map<string, string>) {
    pin.Some? ==> pin.value.name in locked && locked[pin.value.name] == pin.value.version
  }

  predicate PinLinesMet(lines: seq<string>, locked: map<string, string>) {
    forall i | 0 <= i < |lines| :: PinMet(PinOf(lines[i]), locked)
  }

  lemma LineMetIff(lines: seq<string>, i: nat, locked: map<string, string>, pk: Packaging)
    requires i < |lines|
    ensures LineMet(lines[i], locked, pk) <==> PinMet(PinOf(lines[i]), locked) && OtherMet(lines, i, locked, pk)
  {
    OtherMetIff(lines, i, locked, pk);
  }

  lemma LinesMeetPins(text: string, locked: map<string, string>)
    requires PinLinesMet(SplitLines(text), locked)
    ensures PinsMet(ReadPins(text), locked) && PinsAgree(SplitLines(text))
  {
    var lines, direct := SplitLines(text), ReadPins(text);
    forall n | n in direct ensures n in locked && locked[n] == direct[n] {
      DirectPins(text, n);
      var i :| 0 <= i < |lines| && PinOf(lines[i]) == Some(Pin(n, direct[n]));
      assert PinMet(PinOf(lines[i]), locked);
    }
    forall i, j | 0 <= i < j < |lines| ensures SamePin(PinOf(lines[i]), PinOf(lines[j])) {
      assert PinMet(PinOf(lines[i]), locked) && PinMet(PinOf(lines[j]), locked);
    }
  }

  lemma PinsMeetLines(text: string, locked: map<string, string>)
    requires PinsMet(ReadPins(text), locked) && PinsAgree(SplitLines(text))
    ensures PinLinesMet(SplitLines(text), locked)
  {
    var lines, direct := SplitLines(text), ReadPins(text);
    forall i | 0 <= i < |lines| ensures PinMet(PinOf(lines[i]), locked) {
      var pin := PinOf(lines[i]);
      if pin.Some? {
        DirectPins(text, pin.value.name);
        var j :| 0 <= j < |lines| && PinOf(lines[j]) == Some(Pin(pin.value.name, direct[pin.value.name]));
        if i < j {
          assert SamePin(pin, PinOf(lines[j]));
        } else if j < i {
          assert SamePin(PinOf(lines[j]), pin);
        }
      }
    }
  }

  predicate AllMet(lines: seq<string>, locked: map<string, string>, pk: Packaging) {
    forall i | 0 <= i < |lines| :: LineMet(lines[i], locked, pk)
  }

  lemma AllMetIff(lines: seq<string>, locked: map<string, string>, pk: Packaging)
    ensures AllMet(lines, locked, pk) <==> PinLinesMet(lines, locked) && OthersMet(lines, locked, pk)
  {
    forall i: nat | i < |lines|
      ensures LineMet(lines[i], locked, pk) <==> PinMet(PinOf(lines[i]), locked) && OtherMet(lines, i, locked, pk)
    {
      LineMetIff(lines, i, locked, pk);
    }
    if PinLinesMet(lines, locked) && OthersMet(lines, locked, pk) {
      forall i | 0 <= i < |lines| ensures LineMet(lines[i], locked, pk) {
        assert PinMet(PinOf(lines[i]), locked) && OtherMet(lines, i, locked, pk);
      }
    }
  }

  /** The check reports nothing for a file whose every line is met, and the other way round
      exactly when the file pins no package to two versions: of two pins of one name only the
      later is compared. */
  lemma CheckIsExact(text: string, locked: map<string, string>, pk: Packaging)
    ensures AllMet(SplitLines(text), locked, pk) <==> Passes(text, locked, pk) && PinsAgree(SplitLines(text))
  {
    AllMetIff(SplitLines(text), locked, pk);
    if PinLinesMet(SplitLines(text), locked) {
      LinesMeetPins(text, locked);
    }
    if PinsMet(ReadPins(text), locked) && PinsAgree(SplitLines(text)) {
      PinsMeetLines(text, locked);
    }
  }

  lemma PlainPinLine(name: string, version: string)
    requires AllName(name) && Normal(name) && AllVersion(version) && !EndsWith(version, '\\')
    ensures var raw := name + "==" + version;
            Clean(raw) == raw && OneLine(raw) && ParsePin(raw) == Some(Pin(name, version))
            && PinOf(raw) == Some(Pin(name, version))
  {
    var raw := name + "==" + version;
    PinTextChars(raw, name, version);
    CleanPlain(raw);
    ParsePinText(raw, name, version);
    NormalIsFixed(name);
  }

  /** Every file that pins a package to two versions shows it: whatever lock it passes against, an
      earlier line of the two is not met. */
  lemma EarlierPinIsNotCompared(text: string, locked: map<string, string>, pk: Packaging)
    requires Passes(text, locked, pk) && !PinsAgree(SplitLines(text))
    ensures var lines := SplitLines(text);
            exists i, j :: 0 <= i < j < |lines| && !SamePin(PinOf(lines[i]), PinOf(lines[j]))
                           && !LineMet(lines[i], locked, pk)
  {
    var lines, direct := SplitLines(text), ReadPins(text);
    var i, j :| 0 <= i < j < |lines| && !SamePin(PinOf(lines[i]), PinOf(lines[j]));
    var name := PinOf(lines[i]).value.name;
    var k := LastOf(lines, text, name);
    assert locked[name] == direct[name];
    var early := if PinOf(lines[i]) == PinOf(lines[k]) then j else i;
    EarlierThanLast(lines, name, early, k);
    LineMetIff(lines, early, locked, pk);
    assert !SamePin(PinOf(lines[early]), PinOf(lines[k])) && !LineMet(lines[early], locked, pk);
  }

  /** The last pin line of a name, whose version the reader keeps. */
  lemma LastOf(lines: seq<string>, text: string, name: string) returns (k: nat)
    requires lines == SplitLines(text)
    requires exists i :: 0 <= i < |lines| && PinOf(lines[i]).Some? && PinOf(lines[i]).value.name == name
    ensures k < |lines| && name in ReadPins(text) && PinOf(lines[k]) == Some(Pin(name, ReadPins(text)[name]))
    ensures forall i | k < i < |lines| :: PinOf(lines[i]).Some? ==> PinOf(lines[i]).value.name != name
  {
    var pins := PinsOf(lines);
    LastPinWins(START, lines, name);
    var i :| 0 <= i < |lines| && PinOf(lines[i]).Some? && PinOf(lines[i]).value.name == name;
    k := LastPinAt(pins, name, i);
    PinsAt(lines);
  }

  lemma PinsAt(lines: seq<string>)
    ensures |PinsOf(lines)| == |lines| && forall i | 0 <= i < |lines| :: PinsOf(lines)[i] == PinOf(lines[i])
  {
  }

  lemma {:induction false} LastPinAt(pins: seq<Option<Pin>>, name: string, i: nat) returns (k: nat)
    requires i < |pins| && pins[i].Some? && pins[i].value.name == name
    ensures i <= k < |pins| && pins[k].Some? && pins[k].value.name == name
    ensures forall n | k < n < |pins| :: pins[n].Some? ==> pins[n].value.name != name
    ensures LastPin(pins, name) == Some(pins[k].value.version)
  {
    var n := |pins| - 1;
    if pins[n].Some? && pins[n].value.name == name {
      k := n;
    } else {
      assert pins[..n][i] == pins[i];
      k := LastPinAt(pins[..n], name, i);
      assert pins[..n][k] == pins[k];
      forall m | k < m < |pins| ensures pins[m].Some? ==> pins[m].value.name != name {
        assert m < n ==> pins[..n][m] == pins[m];
      }
    }
  }

  lemma EarlierThanLast(lines: seq<string>, name: string, early: int, k: nat)
    requires 0 <= early < |lines| && k < |lines|
    requires PinOf(lines[early]).Some? && PinOf(lines[early]).value.name == name
    requires PinOf(lines[early]) != PinOf(lines[k])
    requires forall i | k < i < |lines| :: PinOf(lines[i]).Some? ==> PinOf(lines[i]).value.name != name
    ensures early < k
  {
  }

  /** There are such files and locks, for any package and any two versions of it. */
  lemma TwoVersionsPass(name: string, v1: string, v2: string, pk: Packaging)
    requires AllName(name) && Normal(name) && AllVersion(v1) && AllVersion(v2) && v1 != v2
    requires !EndsWith(v1, '\\') && !EndsWith(v2, '\\')
    ensures var first, second := name + "==" + v1, name + "==" + v2;
            && Passes(Unlines([first, second]), map[name := v2], pk)
            && SplitLines(Unlines([first, second])) == [first, second]
            && !LineMet(first, map[name := v2], pk)
  {
    var first, second := name + "==" + v1, name + "==" + v2;
    PlainPinLine(name, v1);
    PlainPinLine(name, v2);
    SplitUnlines([first, second]);
    TwoPins(first, second, name, v1, v2, map[name := v2], pk);
  }

  lemma TwoPins(first: string, second: string, name: string, v1: string, v2: string,
                locked: map<string, string>, pk: Packaging)
    requires PinOf(first) == Some(Pin(name, v1)) && PinOf(second) == Some(Pin(name, v2))
    requires SplitLines(Unlines([first, second])) == [first, second]
    requires name in locked && locked[name] == v2
    ensures Passes(Unlines([first, second]), locked, pk)
  {
    var lines, text := [first, second], Unlines([first, second]);
    forall n | n in ReadPins(text) ensures n in locked && locked[n] == ReadPins(text)[n] {
      DirectPins(text, n);
      LastPinWins(START, lines, n);
      LastPinSnoc(lines, n);
    }
  }

  // ---------------------------------------------------------------- hashes

  function UnhashedNames(entries: map<string, Entry>): set<string> {
    set n | n in entries && entries[n].hashes == []
  }

  function CheckHashes(lock: string): seq<Problem> {
    var entries := EntriesOf(lock);
    var names := Sorted(UnhashedNames(entries));
    seq(|names|, i requires 0 <= i < |names| =>
          Unhashed(names[i], if names[i] in entries then entries[names[i]].version else ""))
  }

  /** Every pin without a hash is named with its version, and nothing else is. */
  lemma HashesCheckedIff(lock: string, p: Problem)
    ensures p in CheckHashes(lock) <==>
            exists n :: n in EntriesOf(lock) && EntriesOf(lock)[n].hashes == []
                        && p == Unhashed(n, EntriesOf(lock)[n].version)
  {
    var entries := EntriesOf(lock);
    var names, problems := Sorted(UnhashedNames(entries)), CheckHashes(lock);
    if p in problems {
      var i :| 0 <= i < |problems| && problems[i] == p;
      assert names[i] in names && names[i] in UnhashedNames(entries);
    }
    if n :| n in entries && entries[n].hashes == [] && p == Unhashed(n, entries[n].version) {
      assert n in UnhashedNames(entries) && n in names;
      var i :| 0 <= i < |names| && names[i] == n;
      assert problems[i] == p;
    }
  }

  function CheckConstraints(lock: string, constraints: Option<string>): seq<Problem> {
    match constraints
    case None => [ConstraintsMissing]
    case Some(text) => if ReadPins(lock) == ReadPins(text) then [] else [ConstraintsDiffer]
  }

  /** The constraints file passes exactly when it is there and pins what the lock pins. */
  lemma ConstraintsCheckedIff(lock: string, constraints: Option<string>)
    ensures constraints == None ==> CheckConstraints(lock, constraints) == [ConstraintsMissing]
    ensures constraints.Some? ==>
              var a, b := ReadPins(lock), ReadPins(constraints.value);
              && CheckConstraints(lock, constraints) in {[], [ConstraintsDiffer]}
              && (CheckConstraints(lock, constraints) == [] <==>
                  (forall n :: n in a <==> n in b) && forall n | n in a && n in b :: a[n] == b[n])
  {
    if constraints.Some? {
      SameMaps(ReadPins(lock), ReadPins(constraints.value));
    }
  }

  lemma SameMaps(a: map<string, string>, b: map<string, string>)
    ensures a == b <==> (forall n :: n in a <==> n in b) && forall n | n in a && n in b :: a[n] == b[n]
  {
  }

  // ----------------------------------------------------------------- write

  datatype WriteError = MissingPins(names: seq<string>) | NoHashes(names: seq<string>)

  datatype Written = Written(lock: string, constraints: string)

  function SortedHashes(entries: map<string, Entry>): map<string, seq<string>> {
    map n | n in entries :: Sorted(ToSet(entries[n].hashes))
  }

  /** The write mode: nothing is written unless every direct pin was resolved and every resolved
      pin is hashed. */
  function Write(requirements: string, resolved: string, lockHeader: seq<string>, constraintsHeader: seq<string>)
    : Result<Written, WriteError>
  {
    var entries := EntriesOf(resolved);
    var missing := ReadPins(requirements).Keys - entries.Keys;
    var unhashed := UnhashedNames(entries);
    if missing != {} then Err(MissingPins(Sorted(missing)))
    else if unhashed != {} then Err(NoHashes(Sorted(unhashed)))
    else Ok(Written(Render(lockHeader, Items(VersionsOf(entries)), Items(HashesOf(entries))),
                    RenderConstraints(constraintsHeader, Items(VersionsOf(entries)))))
  }

  /** Names that are already normalised are printed as they are. */
  lemma WritesAsPrinted(entries: map<string, Entry>, header: seq<string>)
    requires PrintablePins(VersionsOf(entries))
    ensures Render(header, Items(VersionsOf(entries)), Items(HashesOf(entries))) ==
            Print(header, VersionsOf(entries), SortedHashes(entries))
    ensures RenderConstraints(header, Items(VersionsOf(entries))) == Print(header, VersionsOf(entries), map[])
  {
    PinsAsPrinted(entries);
    HashesAsPrinted(entries);
  }

  lemma PinsAsPrinted(entries: map<string, Entry>)
    requires PrintablePins(VersionsOf(entries))
    ensures NormalPins(Items(VersionsOf(entries))) == VersionsOf(entries)
  {
    ItemsList(VersionsOf(entries));
    NormalPinsOfItems(Items(VersionsOf(entries)), VersionsOf(entries));
  }

  lemma HashesAsPrinted(entries: map<string, Entry>)
    requires PrintablePins(VersionsOf(entries))
    ensures NormalHashes(Items(HashesOf(entries))) == SortedHashes(entries)
  {
    var hashes := HashesOf(entries);
    forall k | k in hashes ensures Normal(k) {
      assert k in VersionsOf(entries);
    }
    ItemsList(hashes);
    assert SortedHashes(entries).Keys == hashes.Keys;
    NormalHashesOfItems(Items(hashes), hashes, SortedHashes(entries));
  }

  lemma NothingMissing<T>(wanted: set<T>, there: set<T>)
    ensures wanted - there == {} <==> forall n | n in wanted :: n in there
  {
    if wanted - there == {} {
      forall n | n in wanted ensures n in there {
        assert n !in wanted - there;
      }
    }
  }

  /** What a refusal names, in order: the direct pins that were not resolved, or else the resolved pins that
      have no hash. */
  ghost predicate Refusal(e: WriteError, direct: map<string, string>, entries: map<string, Entry>) {
    match e
    case MissingPins(names) =>
      names != [] && StrictlySorted(names) && forall n :: n in names <==> n in direct && n !in entries
    case NoHashes(names) =>
      && names != [] && StrictlySorted(names) && (forall n | n in direct :: n in entries)
      && forall n :: n in names <==> n in entries && entries[n].hashes == []
  }

  /** Writing is refused exactly when a direct pin is unresolved or a resolved one has no hash. */
  lemma WriteFailsClosed(requirements: string, resolved: string, lockHeader: seq<string>,
                         constraintsHeader: seq<string>)
    ensures Write(requirements, resolved, lockHeader, constraintsHeader).Ok? <==>
            && (forall n | n in ReadPins(requirements) :: n in EntriesOf(resolved))
            && (forall n | n in EntriesOf(resolved) :: EntriesOf(resolved)[n].hashes != [])
    ensures var w := Write(requirements, resolved, lockHeader, constraintsHeader);
            w.Err? ==> Refusal(w.error, ReadPins(requirements), EntriesOf(resolved))
  {
    NothingMissing(ReadPins(requirements).Keys, EntriesOf(resolved).Keys);
    var missing, unhashed := ReadPins(requirements).Keys - EntriesOf(resolved).Keys, UnhashedNames(EntriesOf(resolved));
    if unhashed == {} {
      forall n | n in EntriesOf(resolved) ensures EntriesOf(resolved)[n].hashes != [] { assert n !in unhashed; }
    } else {
      var n :| n in unhashed;
    }
    SortedInOrder(missing);
    SortedInOrder(unhashed);
  }

  lemma ReadEntriesPrintable(text: string)
    ensures PrintablePins(VersionsOf(EntriesOf(text))) && PrintableHashes(SortedHashes(EntriesOf(text)))
  {
    ReadIsWellFormed(START, SplitLines(text));
  }

  lemma HashedSurvives(entries: map<string, Entry>)
    requires UnhashedNames(entries) == {} && PrintablePins(VersionsOf(entries))
    ensures Surviving(VersionsOf(entries).Keys, VersionsOf(entries), SortedHashes(entries))
         == Whole(VersionsOf(entries), SortedHashes(entries))
    ensures forall n | n in entries :: SortedHashes(entries)[n] != []
  {
    forall n | n in entries ensures SortedHashes(entries)[n] != [] {
      assert n !in UnhashedNames(entries);
      var h := entries[n].hashes[0];
      assert h in ToSet(entries[n].hashes);
      assert h in Sorted(ToSet(entries[n].hashes));
    }
  }

  /** What `write` writes holds each resolved pin with its version and all its hashes, once and in order. */
  lemma WrittenKeepsHashes(requirements: string, resolved: string,
                           lockHeader: seq<string>, constraintsHeader: seq<string>)
    requires forall l | l in lockHeader + constraintsHeader :: IsComment(l)
    requires Write(requirements, resolved, lockHeader, constraintsHeader).Ok?
    ensures var lock := Write(requirements, resolved, lockHeader, constraintsHeader).value.lock;
            forall n :: (n in EntriesOf(lock) <==> n in EntriesOf(resolved)) && (n in EntriesOf(lock) ==>
              SameEntry(EntriesOf(lock)[n], EntriesOf(resolved)[n]))
  {
    var entries := EntriesOf(resolved);
    ReadEntriesPrintable(resolved);
    assert forall l | l in lockHeader :: l in lockHeader + constraintsHeader;
    WritesAsPrinted(entries, lockHeader);
    HashedSurvives(entries);
    WrittenLock(lockHeader, VersionsOf(entries), SortedHashes(entries));
    forall n | n in entries
      ensures SameEntry(Entry(entries[n].version, SortedHashes(entries)[n]), entries[n])
    {
      SortedInOrder(ToSet(entries[n].hashes));
    }
  }

  ghost predicate SameEntry(a: Entry, b: Entry) {
    a.version == b.version && StrictlySorted(a.hashes) && forall h :: h in a.hashes <==> h in b.hashes
  }

  /** What `write` writes: the lock holds the resolved pins, each hashed, so that the requirements
      pass the check of the lock exactly when the resolution met them; the direct pins are all there;
      and the constraints file holds the lock's pins exactly when no version ends in a backslash. */
  lemma WrittenIsAcceptedIff(requirements: string, resolved: string,
                             lockHeader: seq<string>, constraintsHeader: seq<string>, pk: Packaging)
    requires forall l | l in lockHeader + constraintsHeader :: IsComment(l)
    requires Write(requirements, resolved, lockHeader, constraintsHeader).Ok?
    ensures var w := Write(requirements, resolved, lockHeader, constraintsHeader).value;
            && ReadPins(w.lock) == ReadPins(resolved)
            && (Passes(requirements, ReadPins(w.lock), pk) <==> Passes(requirements, ReadPins(resolved), pk))
            && ReadPins(requirements).Keys <= ReadPins(w.lock).Keys
            && CheckHashes(w.lock) == []
            && (CheckConstraints(w.lock, Some(w.constraints)) == [] <==>
                forall n | n in ReadPins(resolved) :: !EndsWith(ReadPins(resolved)[n], '\\'))
  {
    ReadEntriesPrintable(resolved);
    assert forall l | l in lockHeader :: l in lockHeader + constraintsHeader;
    assert forall l | l in constraintsHeader :: l in lockHeader + constraintsHeader;
    WritesAsPrinted(EntriesOf(resolved), lockHeader);
    WritesAsPrinted(EntriesOf(resolved), constraintsHeader);
    PrintedIsAccepted(EntriesOf(resolved), lockHeader, constraintsHeader);
  }

  lemma OnePrintedPin(name: string, version: string, found: seq<string>)
    requires AllName(name) && Normal(name) && AllVersion(version) && forall h | h in found :: IsHash(h)
    requires found == [] ==> !EndsWith(version, '\\')
    ensures EntriesOf(Print([], map[name := version], map[name := found])) == map[name := Entry(version, found)]
  {
    var pins, hashes := map[name := version], map[name := found];
    ReadPrint([], pins, hashes);
    assert Surviving(pins.Keys, pins, hashes) == map[name := Entry(version, found)];
  }

  /** Only names are compared before writing: a package resolved at another version than the pinned
      one is written all the same, and the lock is then refused. */
  lemma AnotherVersionIsWritten(name: string, v1: string, v2: string, h: string, pk: Packaging,
                                lockHeader: seq<string>, constraintsHeader: seq<string>)
    requires AllName(name) && Normal(name) && AllVersion(v1) && AllVersion(v2) && v1 != v2 && IsHash(h)
    requires !EndsWith(v1, '\\') && forall l | l in lockHeader + constraintsHeader :: IsComment(l)
    ensures var requirements := Print([], map[name := v1], map[name := []]);
            var resolved := Print([], map[name := v2], map[name := [h]]);
            var w := Write(requirements, resolved, lockHeader, constraintsHeader);
            w.Ok? && !Passes(requirements, ReadPins(w.value.lock), pk)
  {
    var requirements := Print([], map[name := v1], map[name := []]);
    var resolved := Print([], map[name := v2], map[name := [h]]);
    OnePrintedPin(name, v1, []);
    OnePrintedPin(name, v2, [h]);
    assert UnhashedNames(EntriesOf(resolved)) == {};
    assert ReadPins(requirements).Keys - EntriesOf(resolved).Keys == {};
    WrittenIsAcceptedIff(requirements, resolved, lockHeader, constraintsHeader, pk);
    assert ReadPins(resolved)[name] == v2 && ReadPins(requirements)[name] == v1;
  }

  lemma PrintedIsAccepted(entries: map<string, Entry>,
                          lockHeader: seq<string>, constraintsHeader: seq<string>)
    requires (forall l | l in lockHeader :: IsComment(l)) && (forall l | l in constraintsHeader :: IsComment(l))
    requires UnhashedNames(entries) == {}
    requires PrintablePins(VersionsOf(entries)) && PrintableHashes(SortedHashes(entries))
    ensures var lock := Print(lockHeader, VersionsOf(entries), SortedHashes(entries));
            var constraints := Print(constraintsHeader, VersionsOf(entries), map[]);
            && ReadPins(lock) == VersionsOf(entries)
            && CheckHashes(lock) == []
            && (CheckConstraints(lock, Some(constraints)) == [] <==>
                forall n | n in VersionsOf(entries) :: !EndsWith(VersionsOf(entries)[n], '\\'))
  {
    HashedSurvives(entries);
    WrittenLock(lockHeader, VersionsOf(entries), SortedHashes(entries));
    WrittenConstraints(VersionsOf(entries), constraintsHeader);
    WholeIsHashed(entries);
  }

  lemma WrittenLock(header: seq<string>, pins: map<string, string>, hashes: map<string, seq<string>>)
    requires (forall l | l in header :: IsComment(l)) && PrintablePins(pins) && PrintableHashes(hashes)
    requires Surviving(pins.Keys, pins, hashes) == Whole(pins, hashes)
    ensures EntriesOf(Print(header, pins, hashes)) == Whole(pins, hashes)
  {
    ReadPrint(header, pins, hashes);
  }

  lemma WholeIsHashed(entries: map<string, Entry>)
    requires UnhashedNames(entries) == {} && PrintablePins(VersionsOf(entries))
    ensures var back := Whole(VersionsOf(entries), SortedHashes(entries));
            VersionsOf(back) == VersionsOf(entries) && UnhashedNames(back) == {}
  {
    HashedSurvives(entries);
    VersionsOfWhole(VersionsOf(entries), SortedHashes(entries));
  }

  lemma WrittenConstraints(pins: map<string, string>, header: seq<string>)
    requires (forall l | l in header :: IsComment(l)) && PrintablePins(pins)
    ensures ReadPins(Print(header, pins, map[])) == pins <==> forall n | n in pins :: !EndsWith(pins[n], '\\')
  {
    ReadPrint(header, pins, map[]);
    ConstraintsSurvive(pins);
  }

  lemma ConstraintsSurvive(pins: map<string, string>)
    requires PrintablePins(pins)
    ensures VersionsOf(Surviving(pins.Keys, pins, map[])) == pins <==>
            forall n | n in pins :: !EndsWith(pins[n], '\\')
  {
    var back := VersionsOf(Surviving(pins.Keys, pins, map[]));
    forall n | n in pins && EndsWith(pins[n], '\\') ensures back != pins {
      if n in back {
        assert |back[n]| < |pins[n]|;
      }
    }
  }
}
