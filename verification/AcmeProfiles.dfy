/**
 Softening a certbot renewal configuration from a required certificate profile to a preferred one
 (modules/core/acme_profiles.py, `_REQUIRED_LINE` and `soften_renewal_conf`).
 */
module AcmeProfiles {
  import opened Wrappers
  import opened Text

  const REQUIRED := "required_profile"
  const PREFERRED := "preferred_profile"

  predicate IsBlank(c: char) {
    c == ' ' || c == '\t'
  }

  /** The longest run of blanks that `s` starts with. */
  function Lead(s: string): (lead: string)
    ensures lead <= s && AllBlank(lead)
    ensures |lead| < |s| ==> !IsBlank(s[|lead|])
  {
    if s == "" || !IsBlank(s[0]) then "" else [s[0]] + Lead(s[1..])
  }

  /** The longest run of non-space characters that `s` starts with. */
  function Word(s: string): (word: string)
    ensures word <= s && forall c | c in word :: !IsSpace(c)
    ensures |word| < |s| ==> IsSpace(s[|word|])
  {
    if s == "" || IsSpace(s[0]) then "" else [s[0]] + Word(s[1..])
  }

  predicate AllBlank(s: string) {
    forall c | c in s :: c == ' ' || c == '\t'
  }

  lemma {:induction false} LeadOf(lead: string, rest: string)
    requires AllBlank(lead) && (rest != "" ==> !IsBlank(rest[0]))
    ensures Lead(lead + rest) == lead && (lead + rest)[|lead|..] == rest
  {
    if lead == "" {
      assert lead + rest == rest;
    } else {
      assert lead[0] in lead && (lead + rest)[1..] == lead[1..] + rest;
      assert forall c | c in lead[1..] :: c in lead;
      LeadOf(lead[1..], rest);
    }
  }

  lemma {:induction false} WordOf(word: string, rest: string)
    requires (forall c | c in word :: !IsSpace(c)) && (rest != "" ==> IsSpace(rest[0]))
    ensures Word(word + rest) == word && (word + rest)[|word|..] == rest
  {
    if word == "" {
      assert word + rest == rest;
    } else {
      assert word[0] in word && (word + rest)[1..] == word[1..] + rest;
      WordOf(word[1..], rest);
    }
  }

  /** A line `key = value` taken apart: the blanks before the key, before `=` and after it, and the value. */
  datatype Setting = Setting(indent: string, before: string, after: string, value: string)

  /** What follows `key` and the blanks after it, on a line that starts with `key`. */
  function AfterKey(line: string, key: string): (rest: Option<(string, string)>) {
    var start := line[|Lead(line)|..];
    if !(key <= start) then None
    else
      var before := Lead(start[|key|..]);
      Some((before, start[|key|..][|before|..]))
  }

  /** The line gives `key` some value: the removal of old preferred lines looks no further than `=`. */
  predicate Assigns(line: string, key: string) {
    AfterKey(line, key).Some? && "=" <= AfterKey(line, key).value.1
  }

  /** The line read as `key = value`, with one value free of white space and only blanks after it. */
  function Read(line: string, key: string): Option<Setting> {
    if !Assigns(line, key) then None
    else
      var (before, rest) := AfterKey(line, key).value;
      var after := Lead(rest[1..]);
      var tail := rest[1..][|after|..];
      var value := Word(tail);
      if value == "" || !AllBlank(tail[|value|..]) then None
      else Some(Setting(Lead(line), before, after, value))
  }

  function Written(key: string, s: Setting): string {
    s.indent + (key + (s.before + ("=" + (s.after + s.value))))
  }

  predicate WellFormed(s: Setting) {
    && AllBlank(s.indent) && AllBlank(s.before) && AllBlank(s.after)
    && s.value != "" && forall c | c in s.value :: !IsSpace(c)
  }

  lemma ReadIsWellFormed(line: string, key: string)
    requires Read(line, key).Some?
    ensures WellFormed(Read(line, key).value)
    ensures Assigns(line, key)
  {
  }

  lemma AfterKeyWritten(indent: string, key: string, before: string, rest: string)
    requires AllBlank(indent) && AllBlank(before) && key != "" && !IsBlank(key[0])
    requires rest != "" && !IsBlank(rest[0])
    ensures AfterKey(indent + (key + (before + rest)), key) == Some((before, rest))
    ensures Lead(indent + (key + (before + rest))) == indent
  {
    var end := before + rest;
    LeadOf(indent, key + end);
    assert (key + end)[|key|..] == end && key <= key + end;
    LeadOf(before, rest);
  }

  /** The lines that give a key some value: blanks, the key, blanks, `=`, and anything. */
  ghost predicate GivesValue(line: string, key: string) {
    exists indent, before, rest ::
      AllBlank(indent) && AllBlank(before) && line == indent + (key + (before + ("=" + rest)))
  }

  lemma AssignedParts(line: string, key: string)
    requires Assigns(line, key)
    ensures var (before, rest) := AfterKey(line, key).value;
            && AllBlank(before) && rest == "=" + rest[1..]
            && line == Lead(line) + (key + (before + ("=" + rest[1..])))
  {
    var indent, start := Lead(line), line[|Lead(line)|..];
    var (before, rest) := AfterKey(line, key).value;
    PrefixAndRest(indent, line);
    PrefixAndRest(key, start);
    PrefixAndRest(before, start[|key|..]);
  }

  lemma AssignsIff(line: string, key: string)
    requires key != "" && !IsBlank(key[0])
    ensures Assigns(line, key) <==> GivesValue(line, key)
  {
    if Assigns(line, key) {
      AssignedParts(line, key);
    }
    if GivesValue(line, key) {
      var indent, before, rest :|
        AllBlank(indent) && AllBlank(before) && line == indent + (key + (before + ("=" + rest)));
      AfterKeyWritten(indent, key, before, "=" + rest);
    }
  }

  lemma WrittenWith(key: string, s: Setting, trail: string)
    ensures Written(key, s) + trail == s.indent + (key + (s.before + ("=" + (s.after + (s.value + trail)))))
  {
  }

  lemma PrefixAndRest(a: string, s: string)
    requires a <= s
    ensures s == a + s[|a|..]
  {
  }

  lemma ValueParts(text: string)
    ensures var after := Lead(text);
            var tail := text[|after|..];
            text == after + (Word(tail) + tail[|Word(tail)|..])
  {
    PrefixAndRest(Lead(text), text);
    var tail := text[|Lead(text)|..];
    PrefixAndRest(Word(tail), tail);
  }

  lemma ReadParts(line: string, key: string) returns (trail: string)
    requires Read(line, key).Some?
    ensures AllBlank(trail) && line == Written(key, Read(line, key).value) + trail
  {
    AssignedParts(line, key);
    var (before, rest) := AfterKey(line, key).value;
    ValueParts(rest[1..]);
    var tail := rest[1..][|Lead(rest[1..])|..];
    trail := tail[|Word(tail)|..];
    assert Read(line, key).value == Setting(Lead(line), before, Lead(rest[1..]), Word(tail));
    WrittenWith(key, Setting(Lead(line), before, Lead(rest[1..]), Word(tail)), trail);
  }

  /** The lines read as `key = value`: exactly the written ones, with any blanks behind the value. */
  lemma ReadIff(line: string, key: string, s: Setting)
    requires key != "" && !IsBlank(key[0])
    ensures Read(line, key) == Some(s) <==>
            WellFormed(s) && exists trail :: AllBlank(trail) && line == Written(key, s) + trail
  {
    if Read(line, key) == Some(s) {
      var trail := ReadParts(line, key);
    }
    if trail :| WellFormed(s) && AllBlank(trail) && line == Written(key, s) + trail {
      ReadTrailing(key, s, trail);
    }
  }

  lemma ReadTrailing(key: string, s: Setting, trail: string)
    requires WellFormed(s) && key != "" && !IsBlank(key[0]) && AllBlank(trail)
    ensures Read(Written(key, s) + trail, key) == Some(s)
  {
    var tail := s.after + (s.value + trail);
    WrittenWith(key, s, trail);
    AfterKeyWritten(s.indent, key, s.before, "=" + tail);
    assert ("=" + tail)[1..] == tail;
    assert s.value[0] in s.value && (trail != "" ==> trail[0] in trail);
    LeadOf(s.after, s.value + trail);
    WordOf(s.value, trail);
  }

  /** Writing a setting under any key and reading it back gives the same setting. */
  lemma ReadWritten(key: string, s: Setting)
    requires WellFormed(s) && key != "" && !IsBlank(key[0])
    ensures Read(Written(key, s), key) == Some(s)
  {
    ReadTrailing(key, s, "");
    assert Written(key, s) + "" == Written(key, s);
  }

  /** A line cannot be both a required and a preferred line. */
  lemma OneKeyALine(line: string)
    ensures !(Assigns(line, REQUIRED) && Assigns(line, PREFERRED))
  {
    var start := line[|Lead(line)|..];
    assert REQUIRED[0] == 'r' && PREFERRED[0] == 'p';
    assert REQUIRED <= start ==> start[0] == 'r';
    assert PREFERRED <= start ==> start[0] == 'p';
  }

  // ---------------------------------------------------------- whole files

  /** A line of a file, with whether a line break ends it. */
  datatype Line = Line(text: string, ended: bool)

  predicate IsRequired(line: Line) {
    Read(line.text, REQUIRED).Some?
  }

  predicate IsPreferred(line: Line) {
    Assigns(line.text, PREFERRED)
  }

  function Softened(line: Line): (soft: Line)
    requires IsRequired(line)
  {
    Line(Written(PREFERRED, Read(line.text, REQUIRED).value), line.ended)
  }

  /** Required are the lines that give `required_profile` one value free of white space, with blanks only
      around it; softening puts `preferred_profile` there and drops the blanks at the end. */
  lemma RequiredIff(line: Line, s: Setting, trail: string)
    requires WellFormed(s) && AllBlank(trail)
    ensures line.text == s.indent + ("required_profile" + (s.before + ("=" + (s.after + s.value)))) + trail ==>
              && IsRequired(line) && ProfileOf(line) == s.value && Softened(line).ended == line.ended
              && Softened(line).text == s.indent + ("preferred_profile" + (s.before + ("=" + (s.after + s.value))))
    ensures IsRequired(line) ==>
              exists t, pad :: WellFormed(t) && AllBlank(pad) && line.text
                == t.indent + ("required_profile" + (t.before + ("=" + (t.after + t.value)))) + pad
  {
    if line.text == Written(REQUIRED, s) + trail {
      ReadIff(line.text, REQUIRED, s);
    }
    if IsRequired(line) {
      var t := Read(line.text, REQUIRED).value;
      ReadIff(line.text, REQUIRED, t);
      var pad :| AllBlank(pad) && line.text == Written(REQUIRED, t) + pad;
      assert line.text == t.indent + ("required_profile" + (t.before + ("=" + (t.after + t.value)))) + pad;
    }
  }

  /** Preferred are the lines on which, blanks apart, `=` follows `preferred_profile`. */
  lemma PreferredIff(line: Line)
    ensures IsPreferred(line) <==> exists indent, before, rest ::
              AllBlank(indent) && AllBlank(before)
              && line.text == indent + ("preferred_profile" + (before + ("=" + rest)))
  {
    AssignsIff(line.text, PREFERRED);
    if GivesValue(line.text, PREFERRED) {
      var indent, before, rest :|
        AllBlank(indent) && AllBlank(before) && line.text == indent + (PREFERRED + (before + ("=" + rest)));
      assert line.text == indent + ("preferred_profile" + (before + ("=" + rest)));
    }
  }

  /** A softened line is a preferred line with the required line's value and layout. */
  lemma SoftenedIsPreferred(line: Line)
    requires IsRequired(line)
    ensures IsPreferred(Softened(line)) && !IsRequired(Softened(line))
    ensures Read(Softened(line).text, PREFERRED) == Read(line.text, REQUIRED)
    ensures !IsPreferred(line)
  {
    ReadIsWellFormed(line.text, REQUIRED);
    ReadWritten(PREFERRED, Read(line.text, REQUIRED).value);
    ReadIsWellFormed(Softened(line).text, PREFERRED);
    OneKeyALine(line.text);
    OneKeyALine(Softened(line).text);
  }

  predicate IsNotPreferred(line: Line) {
    !IsPreferred(line)
  }

  predicate IsOther(line: Line) {
    !IsRequired(line) && !IsPreferred(line)
  }

  /** The file's new text and the profile reported, or None when no line requires one: old preferred
      lines are dropped and the first required line is softened where it stands. */
  function Soften(lines: seq<Line>): Option<(seq<Line>, string)> {
    match First(lines, IsRequired)
    case None => None
    case Some(line) =>
      Some((ReplaceFirst(Keep(lines, IsNotPreferred), IsRequired, SoftenedIfRequired), ProfileOf(line)))
  }

  /** The profile a required line names. */
  function ProfileOf(line: Line): string {
    match Read(line.text, REQUIRED)
    case None => ""
    case Some(s) => s.value
  }

  function SoftenedIfRequired(line: Line): Line {
    if IsRequired(line) then Softened(line) else line
  }

  lemma KindsOfLine(line: Line)
    ensures IsRequired(line) ==> IsNotPreferred(line)
    ensures IsOther(line) ==> IsNotPreferred(line) && !IsRequired(line)
    ensures !(IsNotPreferred(line) && IsPreferred(line))
  {
    OneKeyALine(line.text);
  }

  /** The softened line stands where the required line stood among the lines that are kept. */
  lemma SoftenInPlace(before: seq<Line>, line: Line, after: seq<Line>)
    requires IsRequired(line) && Keep(before, IsRequired) == []
    ensures Soften(before + [line] + after) ==
            Some((Keep(before, IsNotPreferred) + [Softened(line)] + Keep(after, IsNotPreferred), ProfileOf(line)))
  {
    var lines := before + [line] + after;
    FirstIs(before, line, after, IsRequired);
    KindsOfLine(line);
    KeepSplit(before, line, after, IsNotPreferred);
    forall x ensures IsRequired(x) ==> IsNotPreferred(x) { KindsOfLine(x); }
    KeepFiner(before, IsNotPreferred, IsRequired);
    ReplaceFirstIs(Keep(before, IsNotPreferred), line, Keep(after, IsNotPreferred), IsRequired, SoftenedIfRequired);
  }

  /** What a call does to the file. If it reports a profile there is one preferred line after it, the
      first required line softened, its value the profile; one required line fewer; and every other
      line, in order. If it reports none there was no required line. */
  predicate Moved(lines: seq<Line>, softened: Option<(seq<Line>, string)>) {
    var required := Keep(lines, IsRequired);
    match softened
    case None => required == []
    case Some((now, profile)) =>
      && required != []
      && Keep(now, IsPreferred) == [SoftenedIfRequired(required[0])]
      && ProfileOf(required[0]) == profile
      && Keep(now, IsRequired) == required[1..]
      && Keep(now, IsOther) == Keep(lines, IsOther)
  }

  lemma SoftenMoves(lines: seq<Line>)
    ensures Moved(lines, Soften(lines))
  {
    FirstOfKeep(lines, IsRequired);
    if Keep(lines, IsRequired) != [] {
      var before, line, after := SplitAtFirst(lines, IsRequired);
      SoftenInPlace(before, line, after);
      KeepSplit(before, line, after, IsRequired);
      SoftenedParts(before, line, after);
    }
  }

  lemma SoftenedParts(before: seq<Line>, line: Line, after: seq<Line>)
    requires IsRequired(line) && Keep(before, IsRequired) == []
    ensures var now := Keep(before, IsNotPreferred) + [Softened(line)] + Keep(after, IsNotPreferred);
            && Keep(now, IsPreferred) == [SoftenedIfRequired(line)]
            && Keep(now, IsRequired) == Keep(after, IsRequired)
            && Keep(now, IsOther) == Keep(before + [line] + after, IsOther)
  {
    var soft := Softened(line);
    SoftenedIsPreferred(line);
    forall x
      ensures IsRequired(x) ==> IsNotPreferred(x)
      ensures IsOther(x) ==> IsNotPreferred(x)
      ensures !(IsNotPreferred(x) && IsPreferred(x))
    {
      KindsOfLine(x);
    }
    KeepRebuiltApart(before, soft, after, IsNotPreferred, IsPreferred);
    KeepRebuilt(before, soft, after, IsNotPreferred, IsRequired);
    KeepRebuilt(before, soft, after, IsNotPreferred, IsOther);
    KeepSplit(before, line, after, IsOther);
  }

  // ------------------------------------------- filters, whatever the filter

  function Keep<T>(s: seq<T>, p: T -> bool): (kept: seq<T>) {
    if s == [] then [] else (if p(s[0]) then [s[0]] else []) + Keep(s[1..], p)
  }

  function First<T>(s: seq<T>, p: T -> bool): (first: Option<T>) {
    if s == [] then None else if p(s[0]) then Some(s[0]) else First(s[1..], p)
  }

  function ReplaceFirst<T>(s: seq<T>, p: T -> bool, f: T -> T): seq<T> {
    if s == [] then [] else if p(s[0]) then [f(s[0])] + s[1..] else [s[0]] + ReplaceFirst(s[1..], p, f)
  }

  lemma {:induction false} KeepAppend<T>(a: seq<T>, b: seq<T>, p: T -> bool)
    ensures Keep(a + b, p) == Keep(a, p) + Keep(b, p)
  {
    if a == [] {
      assert a + b == b;
    } else {
      var whole, tail := a + b, a[1..] + b;
      var head := if p(a[0]) then [a[0]] else [];
      assert whole[0] == a[0] && whole[1..] == tail;
      KeepAppend(a[1..], b, p);
      assert Keep(whole, p) == head + Keep(tail, p) && Keep(a, p) == head + Keep(a[1..], p);
    }
  }

  lemma KeepSplit<T>(before: seq<T>, x: T, after: seq<T>, p: T -> bool)
    ensures Keep(before + [x] + after, p) == Keep(before, p) + (if p(x) then [x] else []) + Keep(after, p)
  {
    KeepAppend(before + [x], after, p);
    KeepAppend(before, [x], p);
  }

  lemma {:induction false} KeepFiner<T>(s: seq<T>, p: T -> bool, q: T -> bool)
    requires forall x | x in s :: q(x) ==> p(x)
    ensures Keep(Keep(s, p), q) == Keep(s, q)
  {
    if s != [] {
      var kept := Keep(s[1..], p);
      KeepFiner(s[1..], p, q);
      assert s[0] in s;
      KeepHead(s[0], kept, q);
      assert Keep(s, p) == if p(s[0]) then [s[0]] + kept else kept;
    }
  }

  lemma KeepHead<T>(x: T, rest: seq<T>, p: T -> bool)
    ensures Keep([x] + rest, p) == (if p(x) then [x] else []) + Keep(rest, p)
  {
    assert ([x] + rest)[1..] == rest;
  }

  lemma {:induction false} KeepApart<T>(s: seq<T>, p: T -> bool, q: T -> bool)
    requires forall x | x in s :: !(p(x) && q(x))
    ensures Keep(Keep(s, p), q) == []
  {
    if s != [] {
      var kept := Keep(s[1..], p);
      KeepApart(s[1..], p, q);
      assert s[0] in s;
      KeepHead(s[0], kept, q);
      assert Keep(s, p) == if p(s[0]) then [s[0]] + kept else kept;
    }
  }

  lemma KeepRebuilt<T(!new)>(before: seq<T>, x: T, after: seq<T>, p: T -> bool, q: T -> bool)
    requires forall y :: q(y) ==> p(y)
    ensures Keep(Keep(before, p) + [x] + Keep(after, p), q)
            == Keep(before, q) + (if q(x) then [x] else []) + Keep(after, q)
  {
    KeepSplit(Keep(before, p), x, Keep(after, p), q);
    KeepFiner(before, p, q);
    KeepFiner(after, p, q);
  }

  lemma KeepRebuiltApart<T(!new)>(before: seq<T>, x: T, after: seq<T>, p: T -> bool, q: T -> bool)
    requires forall y :: !(p(y) && q(y))
    ensures Keep(Keep(before, p) + [x] + Keep(after, p), q) == if q(x) then [x] else []
  {
    KeepSplit(Keep(before, p), x, Keep(after, p), q);
    KeepApart(before, p, q);
    KeepApart(after, p, q);
  }

  lemma {:induction false} FirstOfKeep<T>(s: seq<T>, p: T -> bool)
    ensures First(s, p) == if Keep(s, p) == [] then None else Some(Keep(s, p)[0])
  {
    if s != [] {
      FirstOfKeep(s[1..], p);
    }
  }

  lemma FirstIs<T>(before: seq<T>, x: T, after: seq<T>, p: T -> bool)
    requires p(x) && Keep(before, p) == []
    ensures First(before + [x] + after, p) == Some(x)
  {
    FirstOfKeep(before + [x] + after, p);
    KeepSplit(before, x, after, p);
  }

  lemma {:induction false} ReplaceFirstIs<T>(before: seq<T>, x: T, after: seq<T>, p: T -> bool, f: T -> T)
    requires p(x) && Keep(before, p) == []
    ensures ReplaceFirst(before + [x] + after, p, f) == before + [f(x)] + after
  {
    var s := before + [x] + after;
    if before == [] {
      assert s[0] == x && s[1..] == after;
    } else {
      assert s[0] == before[0] && s[1..] == before[1..] + [x] + after;
      ReplaceFirstIs(before[1..], x, after, p, f);
    }
  }

  lemma {:induction false} SplitAtFirst<T>(s: seq<T>, p: T -> bool) returns (before: seq<T>, x: T, after: seq<T>)
    requires Keep(s, p) != []
    ensures s == before + [x] + after && Keep(before, p) == [] && p(x)
  {
    if p(s[0]) {
      before, x, after := [], s[0], s[1..];
    } else {
      before, x, after := SplitAtFirst(s[1..], p);
      before := [s[0]] + before;
      assert before[1..] + [x] + after == s[1..];
    }
  }

  // ------------------------------------------------------ repeated calls

  /** Softening over and over, until a call reports nothing to do. */
  function SoftenedThrough(lines: seq<Line>): seq<Line>
    decreases |Keep(lines, IsRequired)|
  {
    SoftenMoves(lines);
    match Soften(lines)
    case None => lines
    case Some((now, _)) =>
      FewerRequired(lines, Soften(lines));
      SoftenedThrough(now)
  }

  lemma FewerRequired(lines: seq<Line>, softened: Option<(seq<Line>, string)>)
    requires Moved(lines, softened) && softened.Some?
    ensures |Keep(softened.value.0, IsRequired)| < |Keep(lines, IsRequired)|
  {
  }

  /** No line is required any more, the last one that was is the one preferred, and every other
      line is as it was. */
  predicate Through(lines: seq<Line>, done: seq<Line>) {
    var required := Keep(lines, IsRequired);
    && Keep(done, IsRequired) == []
    && Keep(done, IsOther) == Keep(lines, IsOther)
    && (if required == [] then done == lines
        else Keep(done, IsPreferred) == [SoftenedIfRequired(required[|required| - 1])])
  }

  lemma ThroughStep(lines: seq<Line>, now: seq<Line>, profile: string, done: seq<Line>)
    requires Moved(lines, Some((now, profile))) && Through(now, done)
    ensures Through(lines, done)
  {
    var required := Keep(lines, IsRequired);
    assert Keep(now, IsRequired) == required[1..];
    if |required| > 1 {
      assert required[1..][|required| - 2] == required[|required| - 1];
    } else {
      assert required[1..] == [] && required[|required| - 1] == required[0];
    }
  }

  /** Softening over and over ends, with the last required line the one preferred. */
  lemma {:induction false} SoftenAll(lines: seq<Line>)
    ensures Through(lines, SoftenedThrough(lines))
    decreases |Keep(lines, IsRequired)|
  {
    SoftenMoves(lines);
    var softened := Soften(lines);
    if softened.Some? {
      FewerRequired(lines, softened);
      SoftenAll(softened.value.0);
      ThroughStep(lines, softened.value.0, softened.value.1, SoftenedThrough(softened.value.0));
    }
  }

  // ------------------------------------------------------------- the file

  /** How far a call gets: to the end, or not past one of its two writes. */
  datatype Dies = Never | WhileWriting(written: seq<Line>) | BeforeReplacing

  class RenewalConf {
    /** The configuration, None when it cannot be read. */
    var content: Option<seq<Line>>
    var temporary: Option<seq<Line>>

    constructor (content: Option<seq<Line>>)
      ensures this.content == content && temporary == None
    {
      this.content, temporary := content, None;
    }

    /** Wherever the call dies, the configuration is the old text or the softened one, whole. */
    method SoftenRenewalConf(dies: Dies) returns (profile: Option<string>)
      modifies this
      ensures old(content).None? || Soften(old(content).value).None? ==>
                profile == None && content == old(content) && temporary == old(temporary)
      ensures old(content).Some? && Soften(old(content).value).Some? ==>
                var (softened, found) := Soften(old(content).value).value;
                && content == (if dies == Never then Some(softened) else old(content))
                && profile == (if dies == Never then Some(found) else None)
                && (dies == Never ==> temporary == None)
    {
      profile := None;
      if content.None? { return; }
      var lines := content.value;
      var line := First(lines, IsRequired);
      if line.None? { return; }
      var softened := ReplaceFirst(Keep(lines, IsNotPreferred), IsRequired, SoftenedIfRequired);
      if dies.WhileWriting? {
        temporary := Some(dies.written);
        return;
      }
      temporary := Some(softened);
      if dies == BeforeReplacing { return; }
      content, temporary := temporary, None;
      profile := Some(ProfileOf(line.value));
    }
  }
}
