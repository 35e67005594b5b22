/**
 One form for every date-time the API answers with
 (modules/api/timestamps.py, `TIMESTAMP_KEYS`, `with_z` and `normalize`).
 */
module Timestamps {
  import opened Wrappers
  import opened Text

  const TIMESTAMP_KEYS: set<string> := {
    "timestamp", "created", "created_at", "renewed_at", "expires_at", "revoked_at", "imported_at",
    "replaced_at", "superseded_at", "submitted_at", "started_at", "finished_at", "first_seen",
    "last_seen", "checked_at", "generated_at", "exported_at", "probed_at", "this_update", "next_update",
    "last_update", "not_before", "not_after", "window_start", "window_end", "renew_at",
    "renews_at", "acme_profile_withdrawn_at", "updated_at", "last_used_at", "confirmed_at"
  }

  // ------------------------------------------------------- one date-time

  predicate AllDigits(s: string) {
    forall c | c in s :: IsDigit(c)
  }

  /** A date and a time of day to the second, `0000-00-00T00:00:00` with any digits. */
  predicate IsSecond(s: string) {
    && |s| == 19 && s[4] == '-' && s[7] == '-' && s[10] == 'T' && s[13] == ':' && s[16] == ':'
    && AllDigits(s[..4] + s[5..7] + s[8..10] + s[11..13] + s[14..16] + s[17..])
  }

  predicate IsFraction(s: string) {
    s == "" || (2 <= |s| <= 7 && s[0] == '.' && AllDigits(s[1..]))
  }

  /** What may follow the date-time: no offset or a zero one, and a line break Python's `$` lets pass. */
  predicate IsEnd(s: string) {
    s == "" || s == "+00:00" || s == "-00:00" || s == "\n" || s == "+00:00\n" || s == "-00:00\n"
  }

  predicate SplitsAs(s: string, second: string, fraction: string, end: string) {
    s == second + fraction + end && IsSecond(second) && IsFraction(fraction) && IsEnd(end)
  }

  /** The form the API must not answer with. */
  ghost predicate NaiveOrZeroOffset(s: string) {
    exists second, fraction, end :: SplitsAs(s, second, fraction, end)
  }

  /** How many digits `s` starts with. */
  function Digits(s: string): (n: nat)
    ensures n <= |s| && AllDigits(s[..n])
    ensures n < |s| ==> !IsDigit(s[n])
  {
    if s == "" || !IsDigit(s[0]) then 0 else
      assert s[..1 + Digits(s[1..])] == [s[0]] + s[1..][..Digits(s[1..])];
      1 + Digits(s[1..])
  }

  function FractionLength(s: string): (n: nat)
    ensures n <= |s| && IsFraction(s[..n])
  {
    if s == "" || s[0] != '.' || !(1 <= Digits(s[1..]) <= 6) then 0
    else
      assert s[..1 + Digits(s[1..])][1..] == s[1..][..Digits(s[1..])];
      1 + Digits(s[1..])
  }

  /** The pattern's first group: the date-time without its offset. */
  function Stem(s: string): (stem: Option<string>)
    ensures stem.Some? ==> stem.value <= s && |stem.value| >= 19
  {
    if |s| < 19 || !IsSecond(s[..19]) then None
    else
      var n := 19 + FractionLength(s[19..]);
      if IsEnd(s[n..]) then Some(s[..n]) else None
  }

  function WithZ(s: string): string {
    match Stem(s)
    case None => s
    case Some(stem) => stem + "Z"
  }

  lemma {:induction false} DigitsOf(digits: string, rest: string)
    requires AllDigits(digits) && (rest != "" ==> !IsDigit(rest[0]))
    ensures Digits(digits + rest) == |digits|
  {
    if digits == "" {
      assert digits + rest == rest;
    } else {
      assert digits[0] in digits && (digits + rest)[1..] == digits[1..] + rest;
      DigitsOf(digits[1..], rest);
    }
  }

  lemma FractionOf(fraction: string, rest: string)
    requires IsFraction(fraction) && (rest != "" ==> !IsDigit(rest[0]) && rest[0] != '.')
    ensures FractionLength(fraction + rest) == |fraction|
  {
    if fraction == "" {
      assert fraction + rest == rest;
    } else {
      assert (fraction + rest)[1..] == fraction[1..] + rest;
      DigitsOf(fraction[1..], rest);
    }
  }

  /** A date-time taken apart at the seams is found again whatever comes after it. */
  lemma StemOf(second: string, fraction: string, end: string)
    requires IsSecond(second) && IsFraction(fraction)
    requires end != "" ==> !IsDigit(end[0]) && end[0] != '.'
    ensures Stem(second + fraction + end) == if IsEnd(end) then Some(second + fraction) else None
  {
    var s := second + fraction + end;
    assert s[..19] == second && s[19..] == fraction + end;
    FractionOf(fraction, end);
    assert s[19 + |fraction|..] == end && s[..19 + |fraction|] == second + fraction;
  }

  lemma StemSplits(s: string)
    requires Stem(s).Some?
    ensures var n := |Stem(s).value|; SplitsAs(s, s[..19], s[19..n], s[n..])
  {
    var n := |Stem(s).value|;
    assert s == s[..19] + s[19..n] + s[n..];
    assert s[19..][..n - 19] == s[19..n];
  }

  lemma ZIsNew(s: string)
    requires Stem(s).Some?
    ensures WithZ(s) != s
  {
    StemSplits(s);
    var n := |Stem(s).value|;
    assert WithZ(s)[n] == 'Z' && (|s| == n || s[n] == s[n..][0]);
  }

  /** A string is rewritten exactly when it is naive or has a zero offset. */
  lemma WithZChangesIff(s: string)
    ensures Stem(s).Some? <==> NaiveOrZeroOffset(s)
    ensures WithZ(s) != s <==> NaiveOrZeroOffset(s)
  {
    if Stem(s).Some? {
      StemSplits(s);
      ZIsNew(s);
    }
    if NaiveOrZeroOffset(s) {
      var second, fraction, end :| SplitsAs(s, second, fraction, end);
      StemOf(second, fraction, end);
    }
  }

  /** The new form is the date-time as it was, to the digit, with a `Z`; nothing rewrites it again. */
  lemma WithZKeepsTheInstant(s: string, second: string, fraction: string, end: string)
    requires SplitsAs(s, second, fraction, end)
    ensures WithZ(s) == second + fraction + "Z"
    ensures !NaiveOrZeroOffset(WithZ(s))
  {
    StemOf(second, fraction, end);
    StemOf(second, fraction, "Z");
    WithZChangesIff(second + fraction + "Z");
  }

  predicate DigitsOnly(s: string, n: nat) {
    |s| == n && forall i | 0 <= i < n :: '0' <= s[i] <= '9'
  }

  /** A date and a time of day by their six numbers. */
  function Written(year: string, month: string, day: string, hour: string, minute: string, second: string): string {
    year + "-" + month + "-" + day + "T" + hour + ":" + minute + ":" + second
  }

  predicate AreNumbers(year: string, month: string, day: string, hour: string, minute: string, second: string) {
    && DigitsOnly(year, 4) && DigitsOnly(month, 2) && DigitsOnly(day, 2)
    && DigitsOnly(hour, 2) && DigitsOnly(minute, 2) && DigitsOnly(second, 2)
  }

  lemma WrittenIsSecond(year: string, month: string, day: string, hour: string, minute: string, second: string)
    requires AreNumbers(year, month, day, hour, minute, second)
    ensures IsSecond(Written(year, month, day, hour, minute, second))
  {
    var s := Written(year, month, day, hour, minute, second);
    var all := s[..4] + s[5..7] + s[8..10] + s[11..13] + s[14..16] + s[17..];
    assert s[..4] == year && s[5..7] == month && s[8..10] == day;
    assert s[11..13] == hour && s[14..16] == minute && s[17..] == second;
    assert AllDigits(year) && AllDigits(month) && AllDigits(day);
    assert AllDigits(hour) && AllDigits(minute) && AllDigits(second);
    assert all == year + month + day + hour + minute + second;
  }

  lemma DigitsAt(s: string)
    requires AllDigits(s)
    ensures DigitsOnly(s, |s|)
  {
    forall i | 0 <= i < |s| ensures '0' <= s[i] <= '9' { assert s[i] in s; }
  }

  lemma SecondIsWritten(s: string)
    requires IsSecond(s)
    ensures AreNumbers(s[..4], s[5..7], s[8..10], s[11..13], s[14..16], s[17..])
    ensures s == Written(s[..4], s[5..7], s[8..10], s[11..13], s[14..16], s[17..])
  {
    var all := s[..4] + s[5..7] + s[8..10] + s[11..13] + s[14..16] + s[17..];
    DigitsAt(all);
    assert s[..4] == all[..4] && s[5..7] == all[4..6] && s[8..10] == all[6..8];
    assert s[11..13] == all[8..10] && s[14..16] == all[10..12] && s[17..] == all[12..];
  }

  /** A date-time to the second, by its six numbers, with no fraction or one of one to six digits, with no
      offset or a zero one, and perhaps a line break. */
  predicate IsMadeOf(s: string, year: string, month: string, day: string, hour: string, minute: string,
                     second: string, digits: string, offset: string, line: string)
  {
    && AreNumbers(year, month, day, hour, minute, second) && |digits| <= 6 && DigitsOnly(digits, |digits|)
    && offset in {"", "+00:00", "-00:00"} && line in {"", "\n"}
    && s == Written(year, month, day, hour, minute, second) + (if digits == "" then "" else "." + digits)
            + (offset + line)
  }

  /** Such strings are rewritten. */
  lemma WithZOf(s: string, year: string, month: string, day: string, hour: string, minute: string, second: string,
                digits: string, offset: string, line: string)
    requires IsMadeOf(s, year, month, day, hour, minute, second, digits, offset, line)
    ensures WithZ(s) == Written(year, month, day, hour, minute, second)
                        + (if digits == "" then "" else "." + digits) + "Z"
  {
    var whole, fraction := Written(year, month, day, hour, minute, second), if digits == "" then "" else "." + digits;
    WrittenIsSecond(year, month, day, hour, minute, second);
    assert digits != "" ==> fraction[1..] == digits;
    EndOf(offset, line);
    WithZKeepsTheInstant(s, whole, fraction, offset + line);
  }

  lemma EndOf(offset: string, line: string)
    requires offset in {"", "+00:00", "-00:00"} && line in {"", "\n"}
    ensures IsEnd(offset + line)
  {
    if offset == "" {
      assert offset + line == line;
    } else if line == "" {
      assert offset + line == offset;
    }
  }

  /** And no others are. */
  lemma OnlyThoseChange(s: string)
    requires WithZ(s) != s
    ensures exists year, month, day, hour, minute, second, digits, offset, line ::
              IsMadeOf(s, year, month, day, hour, minute, second, digits, offset, line)
  {
    StemSplits(s);
    var n := |Stem(s).value|;
    var whole, fraction, end := s[..19], s[19..n], s[n..];
    SecondIsWritten(whole);
    var digits := if fraction == "" then "" else fraction[1..];
    if fraction != "" {
      DigitsAt(digits);
      assert fraction == "." + digits;
    }
    var offset, line := EndParts(end);
    assert s == whole + fraction + end;
    assert IsMadeOf(s, whole[..4], whole[5..7], whole[8..10], whole[11..13], whole[14..16], whole[17..],
                    digits, offset, line);
  }

  lemma EndParts(end: string) returns (offset: string, line: string)
    requires IsEnd(end)
    ensures offset in {"", "+00:00", "-00:00"} && line in {"", "\n"} && end == offset + line
  {
    if end == "" || end == "\n" {
      offset, line := "", end;
      assert "" + end == end;
    } else if end == "+00:00" || end == "-00:00" {
      offset, line := end, "";
      assert end + "" == end;
    } else {
      offset, line := end[..6], "\n";
      assert end == end[..6] + end[6..];
      assert "+00:00\n"[..6] == "+00:00" && "-00:00\n"[..6] == "-00:00";
      assert "+00:00\n"[6..] == "\n" && "-00:00\n"[6..] == "\n";
    }
  }

  lemma WithZIsFinal(s: string)
    ensures !NaiveOrZeroOffset(WithZ(s))
    ensures WithZ(WithZ(s)) == WithZ(s)
  {
    WithZChangesIff(s);
    if NaiveOrZeroOffset(s) {
      var second, fraction, end :| SplitsAs(s, second, fraction, end);
      WithZKeepsTheInstant(s, second, fraction, end);
    }
    WithZChangesIff(WithZ(s));
  }

  // ------------------------------------------------------- whole answers
  //
  // `keys` are the names of the fields that carry a date-time; the program's are TIMESTAMP_KEYS.

  /** A JSON value; `Other` is a number, a boolean or null. */
  datatype Json = Obj(fields: seq<Field>) | Arr(items: seq<Json>) | Str(text: string) | Other(id: int)

  datatype Field = Field(key: string, value: Json)

  predicate IsNamedString(keys: set<string>, f: Field) {
    f.key in keys && f.value.Str?
  }

  function Visited(keys: set<string>, node: Json): Json {
    match node
    case Obj(fields) => Obj(seq(|fields|, i requires 0 <= i < |fields| => VisitedField(keys, fields[i])))
    case Arr(items) => Arr(seq(|items|, i requires 0 <= i < |items| => Visited(keys, items[i])))
    case _ => node
  }

  function VisitedField(keys: set<string>, f: Field): Field {
    if IsNamedString(keys, f) then Field(f.key, Str(WithZ(f.value.text))) else Field(f.key, Visited(keys, f.value))
  }

  /** One pass over a payload, noting whether it rewrote anything. */
  class Normalizer {
    const keys: set<string>
    var changed: bool

    constructor (keys: set<string>)
      ensures this.keys == keys && !changed
    {
      this.keys, changed := keys, false;
    }

    method VisitField(f: Field) returns (now: Field)
      modifies this
      ensures now == VisitedField(keys, f)
      ensures changed <==> old(changed) || now != f
      decreases f
    {
      var value := f.value;
      if f.key in keys && value.Str? {
        var one := WithZ(value.text);
        if one != value.text {
          value := Str(one);
          changed := true;
        }
      } else {
        value := Visit(value);
      }
      now := Field(f.key, value);
    }

    method VisitFields(fields: seq<Field>) returns (now: seq<Field>)
      modifies this
      ensures |now| == |fields| && forall i | 0 <= i < |fields| :: now[i] == VisitedField(keys, fields[i])
      ensures changed <==> old(changed) || now != fields
      decreases fields
    {
      now := [];
      var i := 0;
      while i < |fields|
        invariant i == |now| <= |fields|
        invariant forall j | 0 <= j < i :: now[j] == VisitedField(keys, fields[j])
        invariant changed <==> old(changed) || now != fields[..i]
      {
        var f := VisitField(fields[i]);
        SnocDiffers(now, fields[..i], f, fields[i]);
        assert fields[..i + 1] == fields[..i] + [fields[i]];
        now, i := now + [f], i + 1;
      }
      assert fields[..i] == fields;
    }

    method VisitItems(items: seq<Json>) returns (now: seq<Json>)
      modifies this
      ensures |now| == |items| && forall i | 0 <= i < |items| :: now[i] == Visited(keys, items[i])
      ensures changed <==> old(changed) || now != items
      decreases items
    {
      now := [];
      var i := 0;
      while i < |items|
        invariant i == |now| <= |items|
        invariant forall j | 0 <= j < i :: now[j] == Visited(keys, items[j])
        invariant changed <==> old(changed) || now != items[..i]
      {
        var item := Visit(items[i]);
        SnocDiffers(now, items[..i], item, items[i]);
        assert items[..i + 1] == items[..i] + [items[i]];
        now, i := now + [item], i + 1;
      }
      assert items[..i] == items;
    }

    method Visit(node: Json) returns (now: Json)
      modifies this
      ensures now == Visited(keys, node)
      ensures changed <==> old(changed) || now != node
      decreases node
    {
      now := node;
      if node.Obj? {
        var fields := VisitFields(node.fields);
        assert Visited(keys, node).fields == fields;
        now := Obj(fields);
      } else if node.Arr? {
        var items := VisitItems(node.items);
        assert Visited(keys, node).items == items;
        now := Arr(items);
      }
    }
  }

  lemma SnocDiffers<T>(a: seq<T>, b: seq<T>, x: T, y: T)
    requires |a| == |b|
    ensures a + [x] != b + [y] <==> a != b || x != y
  {
    if a + [x] == b + [y] {
      assert a == (a + [x])[..|a|] == (b + [y])[..|b|] == b;
      assert x == (a + [x])[|a|] == (b + [y])[|b|] == y;
    }
  }

  /** The payload in the one form, and whether anything in it was not. */
  method Normalize(payload: Json) returns (now: Json, changed: bool)
    ensures now == Visited(TIMESTAMP_KEYS, payload)
    ensures changed <==> now != payload
  {
    var normalizer := new Normalizer(TIMESTAMP_KEYS);
    now := normalizer.Visit(payload);
    changed := normalizer.changed;
  }

  // ------------------------------------------------------- by path

  /** What a path into a payload leads to: each step is the position of a field or of an item. */
  function At(node: Json, path: seq<nat>): (found: Option<Json>)
    decreases |path|
  {
    if path == [] then Some(node)
    else
      match node
      case Obj(fields) => if path[0] < |fields| then At(fields[path[0]].value, path[1..]) else None
      case Arr(items) => if path[0] < |items| then At(items[path[0]], path[1..]) else None
      case _ => None
  }

  /** The path ends in a field whose name is one of the named ones. */
  predicate EndsNamed(keys: set<string>, node: Json, path: seq<nat>)
    decreases |path|
  {
    && path != []
    && match node
       case Obj(fields) =>
         && path[0] < |fields|
         && (if |path| == 1 then fields[path[0]].key in keys else EndsNamed(keys, fields[path[0]].value, path[1..]))
       case Arr(items) => path[0] < |items| && EndsNamed(keys, items[path[0]], path[1..])
       case _ => false
  }

  /** The date-time strings of a payload and nothing else. */
  predicate IsTimestampAt(keys: set<string>, node: Json, path: seq<nat>) {
    EndsNamed(keys, node, path) && At(node, path).Some? && At(node, path).value.Str?
  }

  /** The pass seen from any place in the payload: the same places exist and carry the same names;
      a string directly under a named key becomes its one form; any other string, number, boolean
      or null is untouched, in a list or not. */
  lemma {:induction false} VisitedAt(keys: set<string>, node: Json, path: seq<nat>)
    ensures EndsNamed(keys, Visited(keys, node), path) == EndsNamed(keys, node, path)
    ensures At(Visited(keys, node), path) ==
            match At(node, path)
            case None => None
            case Some(n) => Some(if EndsNamed(keys, node, path) && n.Str? then Str(WithZ(n.text)) else Visited(keys, n))
    decreases |path|
  {
    if path != [] {
      match node
      case Obj(fields) =>
        if path[0] < |fields| {
          var f := fields[path[0]];
          assert Visited(keys, node).fields[path[0]] == VisitedField(keys, f);
          VisitedAt(keys, f.value, path[1..]);
        }
      case Arr(items) =>
        if path[0] < |items| {
          VisitedAt(keys, items[path[0]], path[1..]);
        }
      case _ =>
    }
  }

  /** No named string is left in a form without a `Z`. */
  lemma NoneIsLeft(keys: set<string>, node: Json, path: seq<nat>)
    requires IsTimestampAt(keys, Visited(keys, node), path)
    ensures !NaiveOrZeroOffset(At(Visited(keys, node), path).value.text)
  {
    VisitedAt(keys, node, path);
    WithZIsFinal(At(node, path).value.text);
  }

  /** A second pass changes nothing, at any depth. */
  lemma {:induction false} NormalizeIsIdempotent(keys: set<string>, node: Json)
    ensures Visited(keys, Visited(keys, node)) == Visited(keys, node)
    decreases node
  {
    match node
    case Obj(fields) =>
      var now := Visited(keys, node).fields;
      forall i | 0 <= i < |fields| ensures VisitedField(keys, now[i]) == now[i] {
        var f := fields[i];
        if IsNamedString(keys, f) {
          WithZIsFinal(f.value.text);
        } else {
          NormalizeIsIdempotent(keys, f.value);
          assert now[i].value == Visited(keys, f.value);
        }
      }
    case Arr(items) =>
      var now := Visited(keys, node).items;
      forall i | 0 <= i < |items| ensures Visited(keys, now[i]) == now[i] {
        NormalizeIsIdempotent(keys, items[i]);
      }
    case _ =>
  }

  ghost predicate HasUnformed(keys: set<string>, node: Json) {
    exists path :: IsTimestampAt(keys, node, path) && NaiveOrZeroOffset(At(node, path).value.text)
  }

  predicate IsUnformedAt(keys: set<string>, node: Json, path: seq<nat>) {
    IsTimestampAt(keys, node, path) && Stem(At(node, path).value.text).Some?
  }

  lemma UnformedChanges(keys: set<string>, node: Json, path: seq<nat>)
    requires IsUnformedAt(keys, node, path)
    ensures Visited(keys, node) != node
  {
    VisitedAt(keys, node, path);
    WithZChangesIff(At(node, path).value.text);
  }

  lemma UnformedField(keys: set<string>, f: Field) returns (path: seq<nat>)
    requires VisitedField(keys, f) != f
    ensures if IsNamedString(keys, f) then path == [] && Stem(f.value.text).Some? else IsUnformedAt(keys, f.value, path)
    decreases f
  {
    if IsNamedString(keys, f) {
      path := [];
    } else {
      path := UnformedAt(keys, f.value);
    }
  }

  /** A payload that was changed held a named string without the one form. */
  lemma {:induction false} UnformedAt(keys: set<string>, node: Json) returns (path: seq<nat>)
    requires Visited(keys, node) != node
    ensures IsUnformedAt(keys, node, path)
    decreases node
  {
    if node.Obj? {
      var now := Visited(keys, node).fields;
      var i := FirstDifference(now, node.fields);
      var rest := UnformedField(keys, node.fields[i]);
      path := [i] + rest;
      if IsNamedString(keys, node.fields[i]) {
        assert path == [i] && At(node.fields[i].value, []) == Some(node.fields[i].value);
      } else {
        LongerPath(keys, node, i, rest);
      }
    } else {
      var now := Visited(keys, node).items;
      var i := FirstDifference(now, node.items);
      var rest := UnformedAt(keys, node.items[i]);
      path := [i] + rest;
      LongerPath(keys, node, i, rest);
    }
  }

  lemma FirstDifference<T>(a: seq<T>, b: seq<T>) returns (i: nat)
    requires |a| == |b| && a != b
    ensures i < |a| && a[i] != b[i]
  {
    i :| 0 <= i < |a| && a[i] != b[i];
  }

  /** `changed` is reported exactly when some named string lacked the one form. */
  lemma ChangedIff(keys: set<string>, node: Json)
    ensures Visited(keys, node) != node <==> HasUnformed(keys, node)
  {
    if path :| IsTimestampAt(keys, node, path) && NaiveOrZeroOffset(At(node, path).value.text) {
      WithZChangesIff(At(node, path).value.text);
      UnformedChanges(keys, node, path);
    }
    if Visited(keys, node) != node {
      var path := UnformedAt(keys, node);
      WithZChangesIff(At(node, path).value.text);
    }
  }

  lemma LongerPath(keys: set<string>, node: Json, i: nat, path: seq<nat>)
    requires node.Obj? || node.Arr?
    requires i < (if node.Obj? then |node.fields| else |node.items|)
    requires IsTimestampAt(keys, if node.Obj? then node.fields[i].value else node.items[i], path)
    ensures IsTimestampAt(keys, node, [i] + path)
    ensures At(node, [i] + path) == At(if node.Obj? then node.fields[i].value else node.items[i], path)
  {
    assert ([i] + path)[1..] == path;
  }
}
