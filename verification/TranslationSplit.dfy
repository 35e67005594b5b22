/**
 Splitting a documentation page into prose, fenced code blocks and paragraphs in one pass
 (scripts/check_translation_freshness.py, `_split`). The marker comments and the stale notice
 are left out, so that a page carrying the notice is compared as the page it would be without it.
 */
module TranslationSplit {
  import opened Wrappers
  import opened Text

  // ----------------------------------------------------- recognising lines

  const MARKER := "CERTMATE-TRANSLATED-FROM"
  const NOTICE := "CERTMATE-STALE-TRANSLATION"

  predicate IsWordChar(c: char) {
    'a' <= c <= 'z' || 'A' <= c <= 'Z' || '0' <= c <= '9' || c == '_'
  }

  /** What follows the marker word: a word boundary, anything, and the end of the comment. */
  predicate ClosesComment(rest: string) {
    |rest| >= 3 && !IsWordChar(rest[0]) && rest[|rest| - 3..] == "-->"
  }

  predicate IsMarker(line: string) {
    var t := Strip(line);
    "<!--" <= t &&
    var body := LStrip(t[4..]);
    || (MARKER <= body && ClosesComment(body[|MARKER|..]))
    || (NOTICE <= body && ClosesComment(body[|NOTICE|..]))
  }

  predicate Contains(s: string, part: string) {
    part <= s || (s != "" && Contains(s[1..], part))
  }

  function RunLength(s: string, c: char): (n: nat)
    ensures n <= |s|
  {
    if s != "" && s[0] == c then 1 + RunLength(s[1..], c) else 0
  }

  /** The fence a line opens: its whole run of three or more backticks or tildes. */
  function FenceOf(line: string): (f: Option<string>)
    ensures f.Some? ==> |f.value| >= 3
  {
    var t := LStrip(line);
    if t == "" || (t[0] != '`' && t[0] != '~') then None
    else
      var n := RunLength(t, t[0]);
      if n >= 3 then Some(t[..n]) else None
  }

  predicate Closes(line: string, fence: string) {
    var t := Strip(line);
    fence != "" && t != "" && |t| >= |fence| && forall i | 0 <= i < |t| :: t[i] == fence[0]
  }

  predicate Quoted(line: string) {
    ">" <= line
  }

  lemma QuotedIsNoFence(line: string)
    requires Quoted(line)
    ensures FenceOf(line) == None && !IsMarker(line) && Strip(line) != ""
  {
    assert LStrip(line) == line;
    RStripVisible(line);
    RStripKeepsVisible(line);
    assert Strip(line)[0] == '>';
  }

  lemma {:induction false} RStripKeepsVisible(s: string)
    requires s != "" && !IsSpace(s[0])
    ensures RStrip(s) != "" && RStrip(s)[0] == s[0]
  {
    if IsSpace(s[|s| - 1]) {
      RStripKeepsVisible(s[..|s| - 1]);
    }
  }

  // ------------------------------------ the same, said of the whole line

  /** Three or more backticks, or three or more tildes. */
  predicate IsFence(f: string) {
    |f| >= 3 && (f[0] == '`' || f[0] == '~') && forall i | 0 <= i < |f| :: f[i] == f[0]
  }

  /** The line is white space, the fence and something that does not go on with it. */
  ghost predicate OpensFence(line: string, fence: string) {
    exists pad, rest ::
      AllSpace(pad) && IsFence(fence) && line == pad + (fence + rest) && (rest != "" ==> rest[0] != fence[0])
  }

  /** The line is at least as many of the fence's character, and nothing else, among white space. */
  ghost predicate ClosesFence(line: string, fence: string) {
    exists left, core, right ::
      && AllSpace(left) && AllSpace(right) && line == left + core + right
      && |core| >= |fence| > 0 && forall i | 0 <= i < |core| :: core[i] == fence[0]
  }

  /** A comment whose first word is one of the two markers. */
  ghost predicate IsComment(line: string) {
    exists left, gap, word, tail, right ::
      && AllSpace(left) && AllSpace(gap) && AllSpace(right) && line == left + ("<!--" + (gap + (word + tail))) + right
      && (word == "CERTMATE-TRANSLATED-FROM" || word == "CERTMATE-STALE-TRANSLATION")
      && |tail| >= 3 && !IsWordChar(tail[0]) && tail[|tail| - 3..] == "-->"
  }

  lemma {:induction false} RunIs(s: string, c: char)
    ensures var n := RunLength(s, c);
            (forall i | 0 <= i < n :: s[i] == c) && (n < |s| ==> s[n] != c)
  {
    if s != "" && s[0] == c {
      RunIs(s[1..], c);
    }
  }

  lemma {:induction false} RunOf(run: string, rest: string, c: char)
    requires (forall i | 0 <= i < |run| :: run[i] == c) && (rest != "" ==> rest[0] != c)
    ensures RunLength(run + rest, c) == |run|
  {
    if run == "" {
      assert run + rest == rest;
    } else {
      assert (run + rest)[1..] == run[1..] + rest;
      RunOf(run[1..], rest, c);
    }
  }

  /** Exactly such lines open a fence, and the fence is their whole run. */
  lemma FenceOfIff(line: string, fence: string)
    ensures FenceOf(line) == Some(fence) <==> OpensFence(line, fence)
  {
    if FenceOf(line) == Some(fence) {
      var pad := LStripParts(line);
      FenceParts(line, fence, pad);
    }
    if pad, rest :| AllSpace(pad) && IsFence(fence) && line == pad + (fence + rest)
                    && (rest != "" ==> rest[0] != fence[0]) {
      FenceIsFound(pad, fence, rest);
    }
  }

  lemma {:induction false} FenceParts(line: string, fence: string, pad: string)
    requires FenceOf(line) == Some(fence) && line == pad + LStrip(line) && AllSpace(pad)
    ensures OpensFence(line, fence)
  {
    var t := LStrip(line);
    RunIs(t, t[0]);
    FenceAhead(t, fence);
    OpensIs(line, pad, fence, t[|fence|..]);
  }

  lemma {:induction false} FenceAhead(t: string, fence: string)
    requires t != "" && (t[0] == '`' || t[0] == '~') && RunLength(t, t[0]) >= 3 && fence == t[..RunLength(t, t[0])]
    requires (forall i | 0 <= i < |fence| :: t[i] == t[0]) && (|fence| < |t| ==> t[|fence|] != t[0])
    ensures IsFence(fence) && t == fence + t[|fence|..] && (|fence| < |t| ==> t[|fence|] != fence[0])
  {
  }

  lemma {:induction false} OpensIs(line: string, pad: string, fence: string, rest: string)
    requires AllSpace(pad) && IsFence(fence) && line == pad + (fence + rest) && (rest != "" ==> rest[0] != fence[0])
    ensures OpensFence(line, fence)
  {
  }

  lemma {:induction false} FenceIsFound(pad: string, fence: string, rest: string)
    requires AllSpace(pad) && IsFence(fence) && (rest != "" ==> rest[0] != fence[0])
    ensures FenceOf(pad + (fence + rest)) == Some(fence)
  {
    var t := fence + rest;
    assert t[0] == fence[0] && t[..|fence|] == fence;
    LStripPad(pad, t);
    RunOf(fence, rest, fence[0]);
  }

  lemma ClosesIff(line: string, fence: string)
    requires IsFence(fence)
    ensures Closes(line, fence) <==> ClosesFence(line, fence)
  {
    if Closes(line, fence) {
      var left, right := StripParts(line);
      assert line == left + Strip(line) + right;
    }
    if left, core, right :| AllSpace(left) && AllSpace(right) && line == left + core + right
                            && |core| >= |fence| > 0 && forall i | 0 <= i < |core| :: core[i] == fence[0] {
      assert core[0] == fence[0] && core[|core| - 1] == fence[0];
      StripPad(left, core, right);
    }
  }

  lemma MarkerWords(body: string, tail: string)
    ensures MARKER <= body && ClosesComment(body[|MARKER|..]) ==> body == MARKER + body[|MARKER|..]
    ensures NOTICE <= body && ClosesComment(body[|NOTICE|..]) ==> body == NOTICE + body[|NOTICE|..]
    ensures (MARKER + tail)[|MARKER|..] == tail && (NOTICE + tail)[|NOTICE|..] == tail
  {
  }

  lemma CommentIsMarker(left: string, gap: string, word: string, tail: string, right: string)
    requires AllSpace(left) && AllSpace(gap) && AllSpace(right) && (word == MARKER || word == NOTICE)
    requires |tail| >= 3 && !IsWordChar(tail[0]) && tail[|tail| - 3..] == "-->"
    ensures IsMarker(left + ("<!--" + (gap + (word + tail))) + right)
  {
    var body := word + tail;
    var core := "<!--" + (gap + body);
    assert core[0] == '<';
    assert core[|core| - 1] == tail[|tail| - 3..][2];
    StripPad(left, core, right);
    assert core[4..] == gap + body;
    assert body[0] == 'C';
    LStripPad(gap, body);
    MarkerWords(body, tail);
  }

  predicate IsTail(tail: string) {
    |tail| >= 3 && !IsWordChar(tail[0]) && tail[|tail| - 3..] == "-->"
  }

  lemma CommentParts(t: string) returns (gap: string, word: string, tail: string)
    requires "<!--" <= t
    requires var body := LStrip(t[4..]);
             || (MARKER <= body && ClosesComment(body[|MARKER|..]))
             || (NOTICE <= body && ClosesComment(body[|NOTICE|..]))
    ensures AllSpace(gap) && (word == MARKER || word == NOTICE) && IsTail(tail)
    ensures t == "<!--" + (gap + (word + tail))
  {
    var body := LStrip(t[4..]);
    gap := LStripParts(t[4..]);
    MarkerWords(body, "");
    word := if MARKER <= body && ClosesComment(body[|MARKER|..]) then MARKER else NOTICE;
    tail := body[|word|..];
    assert t == t[..4] + t[4..];
  }

  lemma {:induction false} CommentIs(line: string, left: string, gap: string, word: string, tail: string,
                                     right: string)
    requires AllSpace(left) && AllSpace(gap) && AllSpace(right) && (word == MARKER || word == NOTICE) && IsTail(tail)
    requires line == left + ("<!--" + (gap + (word + tail))) + right
    ensures IsComment(line)
  {
  }

  lemma IsMarkerIff(line: string)
    ensures IsMarker(line) <==> IsComment(line)
  {
    if IsMarker(line) {
      var left, right := StripParts(line);
      var gap, word, tail := CommentParts(Strip(line));
      CommentIs(line, left, gap, word, tail, right);
    }
    if left, gap, word, tail, right :|
        && AllSpace(left) && AllSpace(gap) && AllSpace(right) && line == left + ("<!--" + (gap + (word + tail))) + right
        && (word == "CERTMATE-TRANSLATED-FROM" || word == "CERTMATE-STALE-TRANSLATION")
        && |tail| >= 3 && !IsWordChar(tail[0]) && tail[|tail| - 3..] == "-->" {
      CommentIsMarker(left, gap, word, tail, right);
    }
  }

  ghost predicate Holds(s: string, part: string) {
    exists before, after :: s == before + (part + after)
  }

  lemma {:induction false} ContainsIff(s: string, part: string)
    ensures Contains(s, part) <==> Holds(s, part)
  {
    if part <= s {
      assert s == "" + (part + s[|part|..]);
    } else if s != "" {
      ContainsIff(s[1..], part);
      if Contains(s, part) {
        var before, after :| s[1..] == before + (part + after);
        assert s == ([s[0]] + before) + (part + after);
      }
      if before, after :| s == before + (part + after) {
        HoldsBehind(s, part, before, after);
      }
    }
  }

  lemma HoldsBehind(s: string, part: string, before: string, after: string)
    requires s != "" && !(part <= s) && s == before + (part + after)
    ensures before != "" && Holds(s[1..], part)
  {
    assert before == "" ==> before + (part + after) == part + after;
    assert s[1..] == before[1..] + (part + after);
  }

  // ---------------------------------------------- what each line is, alone

  datatype Kind = Marker | Quote | Blank | Prose | Open | Code | Close

  /** Outside a fence, perhaps right after a notice; or inside one. */
  datatype Mode = Plain(notice: bool) | Fenced(fence: string)

  function KindOf(mode: Mode, line: string): Kind {
    match mode
    case Plain(notice) =>
      if IsMarker(line) then Marker
      else if notice && Quoted(line) then Quote
      else if FenceOf(line).Some? then Open
      else if Strip(line) != "" then Prose
      else Blank
    case Fenced(fence) => if Closes(line, fence) then Close else Code
  }

  function ModeAfter(mode: Mode, line: string): Mode {
    match KindOf(mode, line)
    case Marker => Plain(Contains(line, NOTICE))
    case Quote => mode
    case Open => Fenced(FenceOf(line).value)
    case Code => mode
    case _ => Plain(false)
  }

  function Kinds(mode: Mode, lines: seq<string>): (kinds: seq<Kind>)
    ensures |kinds| == |lines|
    decreases |lines|
  {
    if lines == [] then [] else [KindOf(mode, lines[0])] + Kinds(ModeAfter(mode, lines[0]), lines[1..])
  }

  function ModeAtEnd(mode: Mode, lines: seq<string>): Mode
    decreases |lines|
  {
    if lines == [] then mode else ModeAtEnd(ModeAfter(mode, lines[0]), lines[1..])
  }

  /** The lines of the given kinds, in order. */
  function Pick(lines: seq<string>, kinds: seq<Kind>, wanted: set<Kind>): seq<string>
    requires |lines| == |kinds|
  {
    if lines == [] then []
    else (if kinds[0] in wanted then [lines[0]] else []) + Pick(lines[1..], kinds[1..], wanted)
  }

  const IN_BLOCK := {Open, Code, Close}
  const KEPT := {Prose, Open, Code, Close}

  // ------------------------------------------------------------ the pass

  function Flatten(parts: seq<seq<string>>): seq<string> {
    if parts == [] then [] else Flatten(parts[..|parts| - 1]) + parts[|parts| - 1]
  }

  datatype State = State(
    prose: seq<string>, blocks: seq<seq<string>>, paragraphs: seq<seq<string>>,
    current: seq<string>, block: Option<seq<string>>, mode: Mode)

  datatype Parts = Parts(prose: seq<string>, blocks: seq<seq<string>>, paragraphs: seq<seq<string>>)

  const START := State([], [], [], [], None, Plain(false))

  predicate Coherent(st: State) {
    st.block.Some? <==> st.mode.Fenced?
  }

  function Step(st: State, line: string): (r: State)
    requires Coherent(st)
    ensures Coherent(r)
  {
    var next := st.(mode := ModeAfter(st.mode, line));
    match KindOf(st.mode, line)
    case Marker => next
    case Quote => next
    case Open => next.(block := Some([line]), current := st.current + [line])
    case Code => next.(block := Some(st.block.value + [line]), current := st.current + [line])
    case Close =>
      next.(block := None, blocks := st.blocks + [st.block.value + [line]], current := st.current + [line])
    case Prose => next.(prose := st.prose + [line], current := st.current + [line])
    case Blank =>
      if st.current != [] then next.(paragraphs := st.paragraphs + [st.current], current := []) else next
  }

  function Steps(st: State, lines: seq<string>): (r: State)
    requires Coherent(st)
    ensures Coherent(r)
    decreases |lines|
  {
    if lines == [] then st else Steps(Step(st, lines[0]), lines[1..])
  }

  function Finish(st: State): Parts {
    Parts(st.prose,
          if st.block.Some? then st.blocks + [st.block.value] else st.blocks,
          if st.current != [] then st.paragraphs + [st.current] else st.paragraphs)
  }

  function PartsOf(lines: seq<string>): Parts {
    Finish(Steps(START, lines))
  }

  method Split(lines: seq<string>)
    returns (prose: seq<string>, blocks: seq<seq<string>>, paragraphs: seq<seq<string>>)
    ensures Parts(prose, blocks, paragraphs) == PartsOf(lines)
  {
    prose, blocks, paragraphs := [], [], [];
    var current: seq<string> := [];
    var block: Option<seq<string>> := None;
    var fence := "";
    var notice := false;
    for i := 0 to |lines|
      invariant block.Some? ==> !notice
      invariant Steps(START, lines) ==
                Steps(State(prose, blocks, paragraphs, current, block,
                            if block.Some? then Fenced(fence) else Plain(notice)), lines[i..])
    {
      var line := lines[i];
      assert lines[i..][0] == line && lines[i..][1..] == lines[i + 1..];
      if block == None && IsMarker(line) {
        notice := Contains(line, NOTICE);
        continue;
      }
      if notice && Quoted(line) { continue; }
      notice := false;
      if block.Some? {
        block := Some(block.value + [line]);
        current := current + [line];
        if Closes(line, fence) {
          blocks, block := blocks + [block.value], None;
        }
        continue;
      }
      var opening := FenceOf(line);
      if opening.Some? {
        fence, block, current := opening.value, Some([line]), current + [line];
        continue;
      }
      if Strip(line) != "" {
        prose, current := prose + [line], current + [line];
      } else if current != [] {
        paragraphs, current := paragraphs + [current], [];
      }
    }
    assert lines[|lines|..] == [];
    if block.Some? { blocks := blocks + [block.value]; }
    if current != [] { paragraphs := paragraphs + [current]; }
  }

  lemma {:induction false} StepsConcat(st: State, a: seq<string>, b: seq<string>)
    requires Coherent(st)
    ensures Steps(st, a + b) == Steps(Steps(st, a), b)
    decreases |a|
  {
    if a == [] {
      assert a + b == b;
    } else {
      assert (a + b)[1..] == a[1..] + b;
      StepsConcat(Step(st, a[0]), a[1..], b);
    }
  }

  // --------------------------------------------------------- conservation

  lemma FlattenSnoc(parts: seq<seq<string>>, part: seq<string>)
    ensures Flatten(parts + [part]) == Flatten(parts) + part
  {
    assert (parts + [part])[..|parts|] == parts;
  }

  function Blocked(st: State): seq<string> {
    Flatten(st.blocks) + (if st.block.Some? then st.block.value else [])
  }

  function Paragraphed(st: State): seq<string> {
    Flatten(st.paragraphs) + st.current
  }

  lemma StepProse(st: State, line: string)
    requires Coherent(st)
    ensures Step(st, line).prose == st.prose + (if KindOf(st.mode, line) == Prose then [line] else [])
  {
  }

  lemma StepBlocked(st: State, line: string)
    requires Coherent(st)
    ensures Blocked(Step(st, line)) == Blocked(st) + (if KindOf(st.mode, line) in IN_BLOCK then [line] else [])
  {
    if st.block.Some? {
      FlattenSnoc(st.blocks, st.block.value + [line]);
    }
  }

  lemma StepParagraphed(st: State, line: string)
    requires Coherent(st)
    ensures Paragraphed(Step(st, line)) == Paragraphed(st) + (if KindOf(st.mode, line) in KEPT then [line] else [])
  {
    FlattenSnoc(st.paragraphs, st.current);
  }

  lemma PickFirst(mode: Mode, lines: seq<string>, wanted: set<Kind>)
    requires lines != []
    ensures Pick(lines, Kinds(mode, lines), wanted) ==
            (if KindOf(mode, lines[0]) in wanted then [lines[0]] else [])
              + Pick(lines[1..], Kinds(ModeAfter(mode, lines[0]), lines[1..]), wanted)
  {
    assert Kinds(mode, lines)[1..] == Kinds(ModeAfter(mode, lines[0]), lines[1..]);
  }

  lemma {:induction false} StepsMode(st: State, lines: seq<string>)
    requires Coherent(st)
    ensures Steps(st, lines).mode == ModeAtEnd(st.mode, lines)
    decreases |lines|
  {
    if lines != [] {
      StepsMode(Step(st, lines[0]), lines[1..]);
    }
  }

  lemma {:induction false} StepsProse(st: State, lines: seq<string>)
    requires Coherent(st)
    ensures Steps(st, lines).prose == st.prose + Pick(lines, Kinds(st.mode, lines), {Prose})
    decreases |lines|
  {
    if lines != [] {
      PickFirst(st.mode, lines, {Prose});
      StepProse(st, lines[0]);
      StepsProse(Step(st, lines[0]), lines[1..]);
    }
  }

  lemma {:induction false} StepsBlocked(st: State, lines: seq<string>)
    requires Coherent(st)
    ensures Blocked(Steps(st, lines)) == Blocked(st) + Pick(lines, Kinds(st.mode, lines), IN_BLOCK)
    decreases |lines|
  {
    if lines != [] {
      PickFirst(st.mode, lines, IN_BLOCK);
      StepBlocked(st, lines[0]);
      StepsBlocked(Step(st, lines[0]), lines[1..]);
    }
  }

  lemma {:induction false} StepsParagraphed(st: State, lines: seq<string>)
    requires Coherent(st)
    ensures Paragraphed(Steps(st, lines)) == Paragraphed(st) + Pick(lines, Kinds(st.mode, lines), KEPT)
    decreases |lines|
  {
    if lines != [] {
      PickFirst(st.mode, lines, KEPT);
      StepParagraphed(st, lines[0]);
      StepsParagraphed(Step(st, lines[0]), lines[1..]);
    }
  }

  /** Every line that is not a marker, a quoted line of the notice or a blank line outside a
      fence lands, in order, in exactly one of the prose and the code blocks; and the paragraphs
      put end to end are all of them. */
  lemma {:induction false} SplitConserves(lines: seq<string>)
    ensures var p, kinds := PartsOf(lines), Kinds(Plain(false), lines);
            && p.prose == Pick(lines, kinds, {Prose})
            && Flatten(p.blocks) == Pick(lines, kinds, IN_BLOCK)
            && Flatten(p.paragraphs) == Pick(lines, kinds, KEPT)
  {
    StepsProse(START, lines);
    StepsBlocked(START, lines);
    StepsParagraphed(START, lines);
    assert Blocked(START) == [] && Paragraphed(START) == [];
    var st := Steps(START, lines);
    assert Paragraphed(st) == Pick(lines, Kinds(Plain(false), lines), KEPT);
    assert Blocked(st) == Pick(lines, Kinds(Plain(false), lines), IN_BLOCK);
    assert Flatten(st.paragraphs) + [] == Flatten(st.paragraphs);
    assert Flatten(st.blocks) + [] == Flatten(st.blocks);
    if st.block.Some? { FlattenSnoc(st.blocks, st.block.value); }
    if st.current != [] { FlattenSnoc(st.paragraphs, st.current); }
  }

  /** What is dropped is dropped for a reason visible in the line and what precedes it. */
  lemma DroppedForCause(lines: seq<string>, i: nat)
    requires i < |lines| && Kinds(Plain(false), lines)[i] !in KEPT
    ensures IsMarker(lines[i]) || Strip(lines[i]) == "" ||
            (Quoted(lines[i]) && exists m: nat :: m < i && NoticeReaches(lines, m, i))
  {
    KindsAt(Plain(false), lines, i);
    if Kinds(Plain(false), lines)[i] == Quote {
      NoticeComesFrom(Plain(false), lines, i);
    }
  }

  /** A notice marker at `m`, with nothing but quoted lines between it and line `i`. */
  predicate NoticeReaches(lines: seq<string>, m: nat, i: nat) {
    && m < i <= |lines| && IsMarker(lines[m]) && Contains(lines[m], NOTICE)
    && forall j | m < j < i :: Quoted(lines[j])
  }

  lemma {:induction false} KindsAt(mode: Mode, lines: seq<string>, i: nat)
    requires i < |lines|
    ensures Kinds(mode, lines)[i] == KindOf(ModeAtEnd(mode, lines[..i]), lines[i])
    decreases |lines|
  {
    if i > 0 {
      assert lines[..i][1..] == lines[1..][..i - 1];
      KindsAt(ModeAfter(mode, lines[0]), lines[1..], i - 1);
    }
  }

  lemma {:induction false} ModeAtEndSnoc(mode: Mode, lines: seq<string>, i: nat)
    requires i < |lines|
    ensures ModeAtEnd(mode, lines[..i + 1]) == ModeAfter(ModeAtEnd(mode, lines[..i]), lines[i])
    decreases |lines|
  {
    if i == 0 {
      assert lines[..1][1..] == [] && lines[..0] == [];
    } else {
      assert lines[..i][1..] == lines[1..][..i - 1] && lines[..i + 1][1..] == lines[1..][..i];
      ModeAtEndSnoc(ModeAfter(mode, lines[0]), lines[1..], i - 1);
    }
  }

  lemma NoticeGoesOn(lines: seq<string>, m: nat, i: nat)
    requires 0 < i <= |lines| && NoticeReaches(lines, m, i - 1) && Quoted(lines[i - 1])
    ensures NoticeReaches(lines, m, i)
  {
  }

  lemma {:induction false} NoticeComesFrom(mode: Mode, lines: seq<string>, i: nat)
    requires i <= |lines| && ModeAtEnd(mode, lines[..i]) == Plain(true) && mode != Plain(true)
    ensures exists m: nat :: m < i && NoticeReaches(lines, m, i)
    decreases i
  {
    assert lines[..0] == [] && ModeAtEnd(mode, lines[..0]) == mode;
    if i > 0 {
      ModeAtEndSnoc(mode, lines, i - 1);
      var before := ModeAtEnd(mode, lines[..i - 1]);
      if KindOf(before, lines[i - 1]) == Quote {
        NoticeComesFrom(mode, lines, i - 1);
        var m: nat :| m < i - 1 && NoticeReaches(lines, m, i - 1);
        NoticeGoesOn(lines, m, i);
      } else {
        assert NoticeReaches(lines, i - 1, i);
      }
    }
  }

  // ---------------------------------------- what each line is, in its page

  /** A line before `i` has opened the fence, and none between them closes it. */
  ghost predicate InFence(lines: seq<string>, kinds: seq<Kind>, i: nat, fence: string)
    requires i <= |lines| == |kinds|
  {
    exists j: nat :: j < i && OpenedAt(lines, kinds, j, fence) && StaysOpen(lines, j, i, fence)
  }

  ghost predicate OpenedAt(lines: seq<string>, kinds: seq<Kind>, j: nat, fence: string)
    requires j < |lines| == |kinds|
  {
    kinds[j] == Open && OpensFence(lines[j], fence)
  }

  ghost predicate StaysOpen(lines: seq<string>, j: nat, i: nat, fence: string)
    requires i <= |lines|
  {
    forall k | j < k < i :: !ClosesFence(lines[k], fence)
  }

  /** Before `i` there is a notice marker, and nothing but its quoted lines between. */
  ghost predicate BehindNotice(lines: seq<string>, kinds: seq<Kind>, i: nat)
    requires i <= |lines| == |kinds|
  {
    exists m: nat :: m < i && kinds[m] == Marker && Holds(lines[m], "CERTMATE-STALE-TRANSLATION")
                     && forall k | m < k < i :: kinds[k] == Quote
  }

  /** The kind of line `i`, read off the line and the lines before it. */
  ghost predicate RightKind(lines: seq<string>, kinds: seq<Kind>, i: nat)
    requires i < |lines| == |kinds|
  {
    var line := lines[i];
    if f :| InFence(lines, kinds, i, f) then kinds[i] == (if ClosesFence(line, f) then Close else Code)
    else if IsComment(line) then kinds[i] == Marker
    else if line != "" && line[0] == '>' && BehindNotice(lines, kinds, i) then kinds[i] == Quote
    else if exists f :: OpensFence(line, f) then kinds[i] == Open
    else kinds[i] == (if AllSpace(line) then Blank else Prose)
  }

  ghost predicate ModeFits(lines: seq<string>, kinds: seq<Kind>, i: nat, mode: Mode)
    requires i <= |lines| == |kinds|
  {
    && (forall f :: InFence(lines, kinds, i, f) <==> mode == Fenced(f))
    && (BehindNotice(lines, kinds, i) <==> mode == Plain(true))
    && (mode.Fenced? ==> IsFence(mode.fence))
  }

  lemma GoesOnInFence(lines: seq<string>, kinds: seq<Kind>, i: nat, fence: string)
    requires i < |lines| == |kinds|
    requires OpenedAt(lines, kinds, i, fence) || (InFence(lines, kinds, i, fence) && !ClosesFence(lines[i], fence))
    ensures InFence(lines, kinds, i + 1, fence)
  {
    if OpenedAt(lines, kinds, i, fence) {
      IsInFence(lines, kinds, i, i + 1, fence);
    } else {
      var j: nat :| j < i && OpenedAt(lines, kinds, j, fence) && StaysOpen(lines, j, i, fence);
      OneLonger(lines, j, i, fence);
      IsInFence(lines, kinds, j, i + 1, fence);
    }
  }

  lemma {:induction false} IsInFence(lines: seq<string>, kinds: seq<Kind>, j: nat, i: nat, fence: string)
    requires j < i <= |lines| == |kinds| && OpenedAt(lines, kinds, j, fence) && StaysOpen(lines, j, i, fence)
    ensures InFence(lines, kinds, i, fence)
  {
  }

  lemma {:induction false} OneLonger(lines: seq<string>, j: nat, i: nat, fence: string)
    requires i < |lines| && StaysOpen(lines, j, i, fence) && !ClosesFence(lines[i], fence)
    ensures StaysOpen(lines, j, i + 1, fence)
  {
  }

  lemma WasInFence(lines: seq<string>, kinds: seq<Kind>, i: nat, fence: string)
    requires i < |lines| == |kinds| && InFence(lines, kinds, i + 1, fence)
    ensures OpenedAt(lines, kinds, i, fence) || (InFence(lines, kinds, i, fence) && !ClosesFence(lines[i], fence))
  {
    var j: nat :| j < i + 1 && OpenedAt(lines, kinds, j, fence) && StaysOpen(lines, j, i + 1, fence);
    if j < i {
      assert StaysOpen(lines, j, i, fence);
    }
  }

  lemma InFenceStep(lines: seq<string>, kinds: seq<Kind>, i: nat, fence: string)
    requires i < |lines| == |kinds|
    ensures InFence(lines, kinds, i + 1, fence) <==>
            || OpenedAt(lines, kinds, i, fence)
            || (InFence(lines, kinds, i, fence) && !ClosesFence(lines[i], fence))
  {
    if InFence(lines, kinds, i + 1, fence) {
      WasInFence(lines, kinds, i, fence);
    } else if OpenedAt(lines, kinds, i, fence) || (InFence(lines, kinds, i, fence) && !ClosesFence(lines[i], fence)) {
      GoesOnInFence(lines, kinds, i, fence);
    }
  }

  lemma BehindNoticeStep(lines: seq<string>, kinds: seq<Kind>, i: nat)
    requires i < |lines| == |kinds|
    ensures BehindNotice(lines, kinds, i + 1) <==>
            || (kinds[i] == Marker && Holds(lines[i], "CERTMATE-STALE-TRANSLATION"))
            || (BehindNotice(lines, kinds, i) && kinds[i] == Quote)
  {
  }

  lemma StepFits(lines: seq<string>, kinds: seq<Kind>, i: nat, mode: Mode)
    requires i < |lines| == |kinds| && ModeFits(lines, kinds, i, mode) && kinds[i] == KindOf(mode, lines[i])
    ensures ModeFits(lines, kinds, i + 1, ModeAfter(mode, lines[i]))
    ensures RightKind(lines, kinds, i)
  {
    var line := lines[i];
    IsMarkerIff(line);
    BlankIff(line);
    ContainsIff(line, NOTICE);
    BehindNoticeStep(lines, kinds, i);
    if mode.Fenced? { ClosesIff(line, mode.fence); }
    if FenceOf(line).Some? { FenceOfIff(line, FenceOf(line).value); }
    forall f ensures InFence(lines, kinds, i + 1, f) <==> ModeAfter(mode, line) == Fenced(f) {
      FenceOfIff(line, f);
      InFenceStep(lines, kinds, i, f);
    }
    forall f ensures OpensFence(line, f) <==> FenceOf(line) == Some(f) {
      FenceOfIff(line, f);
    }
  }

  lemma {:induction false} ModesFit(lines: seq<string>, i: nat)
    requires i <= |lines|
    ensures ModeFits(lines, Kinds(Plain(false), lines), i, ModeAtEnd(Plain(false), lines[..i]))
  {
    if i > 0 {
      ModesFit(lines, i - 1);
      KindsAt(Plain(false), lines, i - 1);
      ModeAtEndSnoc(Plain(false), lines, i - 1);
      StepFits(lines, Kinds(Plain(false), lines), i - 1, ModeAtEnd(Plain(false), lines[..i - 1]));
    }
  }

  /** Every line of a page has the kind that the line and the lines before it give it. */
  lemma KindsAreRight(lines: seq<string>, i: nat)
    requires i < |lines|
    ensures RightKind(lines, Kinds(Plain(false), lines), i)
  {
    ModesFit(lines, i);
    KindsAt(Plain(false), lines, i);
    StepFits(lines, Kinds(Plain(false), lines), i, ModeAtEnd(Plain(false), lines[..i]));
  }

  // ------------------------------------------------------- a fenced block

  lemma {:induction false} CurrentDoesNotMatter(st: State, current: seq<string>, lines: seq<string>)
    requires Coherent(st)
    ensures var a, b := Steps(st, lines), Steps(st.(current := current), lines);
            a.prose == b.prose && a.blocks == b.blocks && a.block == b.block && a.mode == b.mode
    decreases |lines|
  {
    if lines != [] {
      var other := Step(st.(current := current), lines[0]);
      assert Step(st, lines[0]).(current := other.current, paragraphs := other.paragraphs) == other;
      CurrentDoesNotMatter(Step(st, lines[0]), other.current, lines[1..]);
      ParagraphsDoNotMatter(Step(st, lines[0]).(current := other.current), other.paragraphs, lines[1..]);
    }
  }

  lemma {:induction false} ParagraphsDoNotMatter(st: State, paragraphs: seq<seq<string>>, lines: seq<string>)
    requires Coherent(st)
    ensures var a, b := Steps(st, lines), Steps(st.(paragraphs := paragraphs), lines);
            a.prose == b.prose && a.blocks == b.blocks && a.block == b.block && a.mode == b.mode
    decreases |lines|
  {
    if lines != [] {
      var other := Step(st.(paragraphs := paragraphs), lines[0]);
      assert Step(st, lines[0]).(paragraphs := other.paragraphs) == other;
      ParagraphsDoNotMatter(Step(st, lines[0]), other.paragraphs, lines[1..]);
    }
  }

  lemma FenceIsOpen(open: string, fence: string, mode: Mode)
    requires OpensFence(open, fence) && mode.Plain?
    ensures KindOf(mode, open) == Open && ModeAfter(mode, open) == Fenced(fence) && IsFence(fence)
  {
    FenceOfIff(open, fence);
    if Quoted(open) { QuotedIsNoFence(open); }
    LStripVisible(open);
    RStripVisible(LStrip(open));
  }

  lemma {:induction false} BodyStays(st: State, fence: string, body: seq<string>)
    requires st.block.Some? && st.mode == Fenced(fence) && IsFence(fence)
    requires forall i | 0 <= i < |body| :: !ClosesFence(body[i], fence)
    ensures Steps(st, body) == st.(block := Some(st.block.value + body), current := st.current + body)
    decreases |body|
  {
    if body == [] {
      assert st.block.value + [] == st.block.value && st.current + [] == st.current;
    } else {
      ClosesIff(body[0], fence);
      BodyStays(Step(st, body[0]), fence, body[1..]);
      assert st.block.value + [body[0]] + body[1..] == st.block.value + body;
      assert st.current + [body[0]] + body[1..] == st.current + body;
    }
  }

  /** The page does not end inside a fence. */
  ghost predicate Outside(lines: seq<string>) {
    forall f :: !InFence(lines, Kinds(Plain(false), lines), |lines|, f)
  }

  lemma OutsideIsPlain(lines: seq<string>)
    ensures Outside(lines) <==> ModeAtEnd(Plain(false), lines).Plain?
  {
    ModesFit(lines, |lines|);
    assert lines[..|lines|] == lines;
    var mode := ModeAtEnd(Plain(false), lines);
    if mode.Fenced? { assert InFence(lines, Kinds(Plain(false), lines), |lines|, mode.fence); }
  }

  /** The state once a block has been opened, and has gone on. */
  lemma BlockGoesOn(a: seq<string>, open: string, fence: string, body: seq<string>)
    requires Outside(a) && OpensFence(open, fence)
    requires forall i | 0 <= i < |body| :: !ClosesFence(body[i], fence)
    ensures ModeAtEnd(Plain(false), a).Plain?
    ensures var st := Steps(START, a);
            Steps(START, a + [open] + body) ==
            st.(block := Some([open] + body), current := st.current + [open] + body, mode := Fenced(fence))
  {
    var st := Steps(START, a);
    OutsideIsPlain(a);
    StepsMode(START, a);
    StepsConcat(START, a + [open], body);
    StepsConcat(START, a, [open]);
    FenceIsOpen(open, fence, st.mode);
    assert [open][1..] == [];
    BodyStays(Step(st, open), fence, body);
  }

  /** Outside a fence a line that opens one starts a block, which runs to the first line that closes
      it; what follows is split as if the page began there. */
  lemma FencedBlock(a: seq<string>, open: string, fence: string, body: seq<string>, close: string, b: seq<string>)
    requires Outside(a) && OpensFence(open, fence) && ClosesFence(close, fence)
    requires forall i | 0 <= i < |body| :: !ClosesFence(body[i], fence)
    ensures var p, q, all := PartsOf(a), PartsOf(b), PartsOf(a + [open] + body + [close] + b);
            && all.blocks == p.blocks + [[open] + body + [close]] + q.blocks
            && all.prose == p.prose + q.prose
  {
    var st := Steps(START, a);
    var whole := a + [open] + body;
    StepsMode(START, a);
    BlockGoesOn(a, open, fence, body);
    StepsConcat(START, whole + [close], b);
    StepsConcat(START, whole, [close]);
    FenceIsOpen(open, fence, st.mode);
    ClosesIff(close, fence);
    assert [close][1..] == [];
    var shut := Step(Steps(START, whole), close);
    IsBehindItself(shut);
    StepsBehind(shut, START.(current := shut.current), b);
    CurrentDoesNotMatter(START, shut.current, b);
    var end, page := Steps(START.(current := shut.current), b), Steps(START, b);
    assert Steps(START, whole + [close] + b) == Behind(shut, end);
    assert shut.blocks == st.blocks + [[open] + body + [close]];
    if page.block.Some? {
      assert shut.blocks + (page.blocks + [page.block.value]) == shut.blocks + page.blocks + [page.block.value];
    }
  }

  /** A block that nothing closes runs to the end of the page. */
  lemma OpenBlock(a: seq<string>, open: string, fence: string, body: seq<string>)
    requires Outside(a) && OpensFence(open, fence)
    requires forall i | 0 <= i < |body| :: !ClosesFence(body[i], fence)
    ensures var p, all := PartsOf(a), PartsOf(a + [open] + body);
            all.blocks == p.blocks + [[open] + body] && all.prose == p.prose
  {
    StepsMode(START, a);
    BlockGoesOn(a, open, fence, body);
  }

  // -------------------------------------------------------------- shapes

  /** A block runs from the line that opens its fence to the first line that closes it. */
  predicate BlockOpen(b: seq<string>) {
    && b != [] && FenceOf(b[0]).Some?
    && forall i | 0 < i < |b| :: !Closes(b[i], FenceOf(b[0]).value)
  }

  predicate BlockClosed(b: seq<string>) {
    |b| > 1 && BlockOpen(b[..|b| - 1]) && Closes(b[|b| - 1], FenceOf(b[0]).value)
  }

  predicate Shaped(st: State) {
    && Coherent(st)
    && (forall i | 0 <= i < |st.blocks| :: BlockClosed(st.blocks[i]))
    && (st.block.Some? ==> BlockOpen(st.block.value) && st.mode == Fenced(FenceOf(st.block.value[0]).value)
                           && st.current != [])
    && (forall i | 0 <= i < |st.paragraphs| :: st.paragraphs[i] != [])
  }

  lemma {:induction false} StepsShaped(st: State, lines: seq<string>)
    requires Shaped(st)
    ensures Shaped(Steps(st, lines))
    decreases |lines|
  {
    if lines != [] {
      if st.block.Some? {
        assert (st.block.value + [lines[0]])[..|st.block.value|] == st.block.value;
      }
      StepsShaped(Step(st, lines[0]), lines[1..]);
    }
  }

  /** Every block is one fenced block, only the last may be left open by the end of the page,
      and no paragraph is empty. */
  lemma PartsAreShaped(lines: seq<string>)
    ensures var p := PartsOf(lines);
            && (forall i | 0 <= i < |p.blocks| - 1 :: BlockClosed(p.blocks[i]))
            && (p.blocks != [] ==>
                  var last := p.blocks[|p.blocks| - 1];
                  if ModeAtEnd(Plain(false), lines).Fenced? then BlockOpen(last) || BlockClosed(last)
                  else BlockClosed(last))
            && (forall i | 0 <= i < |p.paragraphs| :: p.paragraphs[i] != [])
  {
    StepsShaped(START, lines);
    StepsMode(START, lines);
  }

  // ---------------------------------------------------- paragraph boundaries

  /** `st` with everything `before` has finished put in front. */
  function Behind(before: State, st: State): State {
    State(before.prose + st.prose, before.blocks + st.blocks, before.paragraphs + st.paragraphs,
          st.current, st.block, st.mode)
  }

  /** Between blocks nothing but the paragraph under way goes on. */
  lemma IsBehindItself(st: State)
    requires st.block == None && st.mode == Plain(false)
    ensures st == Behind(st, START.(current := st.current))
  {
    assert st.prose + [] == st.prose && st.blocks + [] == st.blocks && st.paragraphs + [] == st.paragraphs;
  }

  lemma {:induction false} StepsBehind(before: State, st: State, lines: seq<string>)
    requires Coherent(st)
    ensures Steps(Behind(before, st), lines) == Behind(before, Steps(st, lines))
    decreases |lines|
  {
    if lines != [] {
      assert Step(Behind(before, st), lines[0]) == Behind(before, Step(st, lines[0])) by {
        assert before.prose + (st.prose + [lines[0]]) == before.prose + st.prose + [lines[0]];
        assert before.paragraphs + (st.paragraphs + [st.current]) == before.paragraphs + st.paragraphs + [st.current];
        if st.block.Some? {
          var b := st.block.value + [lines[0]];
          assert before.blocks + (st.blocks + [b]) == before.blocks + st.blocks + [b];
        }
      }
      StepsBehind(before, Step(st, lines[0]), lines[1..]);
    }
  }

  /** A blank line outside a fence cuts a page in two: each part is split on its own. */
  lemma BlankCuts(a: seq<string>, blank: string, b: seq<string>)
    requires Strip(blank) == "" && ModeAtEnd(Plain(false), a).Plain?
    ensures var p, q, both := PartsOf(a), PartsOf(b), PartsOf(a + [blank] + b);
            both == Parts(p.prose + q.prose, p.blocks + q.blocks, p.paragraphs + q.paragraphs)
  {
    StepsMode(START, a);
    var st := Steps(START, a);
    StepsConcat(START, a + [blank], b);
    StepsConcat(START, a, [blank]);
    BlankIsBlank(blank, st.mode);
    assert [blank][1..] == [];
    var cut := Step(st, blank);
    assert Steps(st, [blank]) == cut;
    IsBehindItself(cut);
    StepsBehind(cut, START, b);
  }

  lemma BlankIsBlank(blank: string, mode: Mode)
    requires Strip(blank) == "" && mode.Plain?
    ensures KindOf(mode, blank) == Blank && !IsMarker(blank)
  {
    LStripBlank(blank);
    if Quoted(blank) { QuotedIsNoFence(blank); }
  }

  lemma LStripBlank(s: string)
    requires Strip(s) == ""
    ensures LStrip(s) == ""
  {
    LStripVisible(s);
    if LStrip(s) != "" {
      RStripKeepsVisible(LStrip(s));
    }
  }

  lemma {:induction false} NoBlankNoCut(st: State, lines: seq<string>)
    requires Coherent(st) && Blank !in Kinds(st.mode, lines)
    ensures Steps(st, lines).paragraphs == st.paragraphs
    decreases |lines|
  {
    if lines != [] {
      var kinds := Kinds(st.mode, lines);
      assert kinds[0] in kinds;
      assert forall k | k in kinds[1..] :: k in kinds;
      assert kinds[1..] == Kinds(ModeAfter(st.mode, lines[0]), lines[1..]);
      NoBlankNoCut(Step(st, lines[0]), lines[1..]);
    }
  }

  lemma OneParagraph(st: State)
    requires st.paragraphs == []
    ensures Paragraphed(st) == st.current
    ensures Finish(st).paragraphs == if st.current == [] then [] else [st.current]
  {
    assert Flatten([]) == [];
  }

  /** And nothing else does: without one, everything kept is a single paragraph. */
  lemma OnlyBlankCuts(lines: seq<string>)
    requires Blank !in Kinds(Plain(false), lines)
    ensures var kept := Pick(lines, Kinds(Plain(false), lines), KEPT);
            PartsOf(lines).paragraphs == if kept == [] then [] else [kept]
  {
    NoBlankNoCut(START, lines);
    StepsParagraphed(START, lines);
    OneParagraph(START);
    OneParagraph(Steps(START, lines));
    var kept := Pick(lines, Kinds(Plain(false), lines), KEPT);
    assert [] + kept == kept;
  }

  // ------------------------------------------------------------ the notice

  lemma {:induction false} QuotesAreSkipped(st: State, quotes: seq<string>)
    requires Coherent(st) && st.mode == Plain(true) && forall q | q in quotes :: Quoted(q)
    ensures Steps(st, quotes) == st
    decreases |quotes|
  {
    if quotes != [] {
      QuotedIsNoFence(quotes[0]);
      assert Step(st, quotes[0]) == st;
      QuotesAreSkipped(st, quotes[1..]);
    }
  }

  lemma FlagOnlySkipsQuotes(st: State, line: string)
    requires Coherent(st) && st.mode.Plain? && !Quoted(line)
    ensures Step(st.(mode := Plain(true)), line) == Step(st, line)
  {
  }

  function LeadingQuotes(lines: seq<string>): nat {
    if lines != [] && Quoted(lines[0]) then 1 + LeadingQuotes(lines[1..]) else 0
  }

  /** With the flag set, the leading quoted lines are lost to the prose, and only they. */
  lemma {:induction false} FlagLosesQuotes(lines: seq<string>)
    ensures |Pick(lines, Kinds(Plain(false), lines), {Prose})| ==
            |Pick(lines, Kinds(Plain(true), lines), {Prose})| + LeadingQuotes(lines)
    decreases |lines|
  {
    if lines != [] {
      assert Kinds(Plain(false), lines)[1..] == Kinds(ModeAfter(Plain(false), lines[0]), lines[1..]);
      assert Kinds(Plain(true), lines)[1..] == Kinds(ModeAfter(Plain(true), lines[0]), lines[1..]);
      if Quoted(lines[0]) {
        QuotedIsNoFence(lines[0]);
        FlagLosesQuotes(lines[1..]);
      }
    }
  }

  /** Inserting the notice, its marker and its quoted lines, anywhere outside a fence changes none
      of the three results exactly when the page does not go on with a quoted line of its own
      there (or does so already behind a notice). */
  lemma NoticeIsInvisibleIff(a: seq<string>, marker: string, quotes: seq<string>, b: seq<string>)
    requires IsMarker(marker) && Contains(marker, NOTICE) && forall q | q in quotes :: Quoted(q)
    requires ModeAtEnd(Plain(false), a).Plain?
    ensures PartsOf(a + ([marker] + quotes) + b) == PartsOf(a + b) <==>
            b == [] || !Quoted(b[0]) || ModeAtEnd(Plain(false), a).notice
  {
    StepsMode(START, a);
    var st := Steps(START, a);
    var noted := st.(mode := Plain(true));
    StepsConcat(START, a, b);
    StepsConcat(START, a + ([marker] + quotes), b);
    StepsConcat(START, a, [marker] + quotes);
    StepsConcat(st, [marker], quotes);
    assert [marker][1..] == [];
    assert Steps(st, [marker]) == noted;
    QuotesAreSkipped(noted, quotes);
    if b == [] || !Quoted(b[0]) || st.mode.notice {
      if b != [] && !Quoted(b[0]) { FlagOnlySkipsQuotes(st, b[0]); }
    } else {
      StepsProse(st, b);
      StepsProse(noted, b);
      FlagLosesQuotes(b);
      assert LeadingQuotes(b) > 0;
    }
  }
}
