/**
 The instant inside the CA's suggested window at which a certificate renews (modules/core/ari.py,
 `parse_window`, `due_at`, `observation`, `is_due`; section 4.2 of RFC 9773). Instants are whole
 microseconds. The digest of the certificate id is an arbitrary number below 2^64, and the
 fraction it gives is exact.
 */
module AriWindow {
  import opened Wrappers

  const SECOND := 1_000_000
  const DAY := 86_400 * SECOND
  const MAX_WINDOW_LENGTH := 365 * DAY
  const TWO_64 := 0x1_0000_0000_0000_0000

  /** The CA's answer, as far as it is read: `None` where a field is missing or unreadable. */
  datatype Payload = NoWindow | SuggestedWindow(start: Option<int>, end: Option<int>, explanation: Option<string>)

  function ParseWindow(p: Payload): Option<(int, int)> {
    match p
    case NoWindow => None
    case SuggestedWindow(start, end, _) =>
      if start == None || end == None || end.value < start.value then None
      else if end.value - start.value > MAX_WINDOW_LENGTH then None
      else Some((start.value, end.value))
  }

  /** A window is accepted exactly when both ends are there, in order and at most 365 days apart. */
  lemma AcceptedIff(p: Payload, start: int, end: int)
    ensures ParseWindow(p) == Some((start, end)) <==>
            && p.SuggestedWindow? && p.start == Some(start) && p.end == Some(end)
            && start <= end <= start + 365 * 86_400 * 1_000_000
  {
  }

  // ----------------------------------------------------------- arithmetic

  /** num / den to the nearest integer, halves to the even one, as `timedelta` rounds. */
  function RoundHalfEven(num: nat, den: nat): nat
    requires den > 0
  {
    var q, r := num / den, num % den;
    if 2 * r < den || (2 * r == den && q % 2 == 0) then q else q + 1
  }

  function FloorSecond(t: int): int { t - t % SECOND }

  function CeilSecond(t: int): int {
    if t % SECOND == 0 then t else t + (SECOND - t % SECOND)
  }

  /** The point before it is rounded to the second. */
  function Point(digest: nat, start: int, end: int): int
    requires start <= end
  {
    start + RoundHalfEven((end - start) * digest, TWO_64)
  }

  function DueAt(digest: nat, start: int, end: int): int
    requires start <= end
  {
    if end == start then start else CeilSecond(Point(digest, start, end))
  }

  lemma RoundBounds(span: nat, digest: nat)
    requires digest < TWO_64
    ensures RoundHalfEven(span * digest, TWO_64) <= span
  {
    var num := span * digest;
    assert num <= span * (TWO_64 - 1) by { MulMonotone(span, digest, TWO_64 - 1); }
    if span == 0 {
      assert num == 0;
    } else {
      assert num < span * TWO_64;
      assert num / TWO_64 < span;
    }
  }

  lemma MulMonotone(a: nat, b: nat, c: nat)
    requires b <= c
    ensures a * b <= a * c
  {
    assert a * c == a * b + a * (c - b);
  }

  lemma RoundMonotone(a: nat, b: nat)
    requires a <= b
    ensures RoundHalfEven(a, TWO_64) <= RoundHalfEven(b, TWO_64)
  {
  }

  /** The point is the microsecond nearest to the exact fraction of the window, the even one of two. */
  lemma PointIsNearest(digest: nat, start: int, end: int)
    requires start <= end
    ensures var off := Point(digest, start, end) - start;
            var twice := 2 * (0x1_0000_0000_0000_0000 * off - (end - start) * digest);
            && -0x1_0000_0000_0000_0000 <= twice <= 0x1_0000_0000_0000_0000
            && (twice in {0x1_0000_0000_0000_0000, -0x1_0000_0000_0000_0000} ==> off % 2 == 0)
  {
    var num := (end - start) * digest;
    assert num >= 0 by { MulMonotone(end - start, 0, digest); }
    assert num == TWO_64 * (num / TWO_64) + num % TWO_64;
  }

  /** What is due is the first whole second at or after the point; an empty window is its one instant. */
  lemma DueIsNextSecond(digest: nat, start: int, end: int)
    requires start <= end
    ensures var due := DueAt(digest, start, end);
            if start == end then due == start
            else due % 1_000_000 == 0 && Point(digest, start, end) <= due < Point(digest, start, end) + 1_000_000
  {
  }

  // ------------------------------------------------------------ the choice

  /** A due instant is never before the window's start, never after its end rounded up to a whole
      second, and is itself a whole second when the window is not empty. */
  lemma DueInWindow(digest: nat, start: int, end: int)
    requires digest < TWO_64 && start <= end
    ensures start <= DueAt(digest, start, end) <= CeilSecond(end)
    ensures start < end ==> DueAt(digest, start, end) % SECOND == 0
  {
    RoundBounds(end - start, digest);
    CeilMonotone(start + RoundHalfEven((end - start) * digest, TWO_64), end);
  }

  lemma CeilMonotone(a: int, b: int)
    requires a <= b
    ensures CeilSecond(a) <= CeilSecond(b) && CeilSecond(a) % SECOND == 0 && a <= CeilSecond(a) < a + SECOND
  {
  }

  /** Ids are spread in the order of their digests, over the whole window. */
  lemma DueSpreads(d1: nat, d2: nat, start: int, end: int)
    requires d1 <= d2 && start <= end
    ensures DueAt(d1, start, end) <= DueAt(d2, start, end)
    ensures DueAt(0, start, end) == if end == start then start else CeilSecond(start)
  {
    MulMonotone(end - start, d1, d2);
    RoundMonotone((end - start) * d1, (end - start) * d2);
    CeilMonotone(Point(d1, start, end), Point(d2, start, end));
  }

  /** The last whole second strictly before `t`. */
  function LastSecondBefore(t: int): int { FloorSecond(t - 1) }

  lemma CeilBelow(t: int, end: int)
    ensures CeilSecond(t) < end <==> t <= LastSecondBefore(end)
  {
  }

  /** The documented half-open window [start, end) is kept for an id exactly when its point does
      not fall behind the last whole second of a window that is not empty. */
  lemma HalfOpenIff(digest: nat, start: int, end: int)
    requires digest < TWO_64 && start <= end
    ensures DueAt(digest, start, end) < end <==>
            start < end && Point(digest, start, end) <= LastSecondBefore(end)
  {
    if start < end {
      CeilBelow(Point(digest, start, end), end);
    }
  }

  /** So no window keeps it for every id: there is always one that is due at the end or later. */
  lemma NoWindowIsHalfOpen(p: Payload)
    requires ParseWindow(p).Some?
    ensures var (start, end) := ParseWindow(p).value;
            exists digest: nat :: digest < TWO_64 && DueAt(digest, start, end) >= end
  {
    var (start, end) := ParseWindow(p).value;
    var span := end - start;
    var digest := TWO_64 - 1;
    if span > 0 {
      var num := span * digest;
      assert num == (span - 1) * TWO_64 + (TWO_64 - span);
      assert num / TWO_64 == span - 1 && num % TWO_64 == TWO_64 - span;
      assert RoundHalfEven(num, TWO_64) == span;
      CeilMonotone(end, end);
    }
    assert DueAt(digest, start, end) >= end;
  }

  // --------------------------------------------------------------- records

  datatype Status = Window | Unsupported | Unavailable | NoIdentifier | Imported | External

  datatype Observation = Observation(
    checkedAt: int, status: Status,
    windowStart: Option<int>, windowEnd: Option<int>, renewAt: Option<int>, explanation: Option<string>)

  /** What an operator is shown: the whole second the instant falls in. */
  function Stamp(instant: int): int { FloorSecond(instant) }

  function Observe(digest: nat, status: Status, p: Payload, now: int): Observation
    requires status == Window ==> ParseWindow(p).Some?
  {
    if status != Window then Observation(Stamp(now), status, None, None, None, None)
    else
      var (start, end) := ParseWindow(p).value;
      Observation(Stamp(now), status, Some(Stamp(start)), Some(Stamp(end)),
                  Some(Stamp(DueAt(digest, start, end))), p.explanation)
  }

  /** `shown` is the whole second that `instant` falls in. */
  predicate Shows(shown: Option<int>, instant: int) {
    shown.Some? && shown.value % 1_000_000 == 0 && shown.value <= instant < shown.value + 1_000_000
  }

  /** A record of a window shows its two ends and the instant of renewal, each to the second and never later
      than it is; a record of anything else shows none of them. */
  lemma ObservationIs(digest: nat, status: Status, p: Payload, now: int)
    requires status == Window ==> ParseWindow(p).Some?
    ensures var o := Observe(digest, status, p, now);
            && o.status == status && Shows(Some(o.checkedAt), now)
            && if status == Window then
                 var (start, end) := ParseWindow(p).value;
                 && Shows(o.windowStart, start) && Shows(o.windowEnd, end)
                 && Shows(o.renewAt, DueAt(digest, start, end)) && o.explanation == p.explanation
               else o.windowStart == None && o.windowEnd == None && o.renewAt == None && o.explanation == None
  {
    StampShows(now);
    if status == Window {
      var (start, end) := ParseWindow(p).value;
      StampShows(start);
      StampShows(end);
      StampShows(DueAt(digest, start, end));
    }
  }

  lemma StampShows(instant: int)
    ensures Shows(Some(Stamp(instant)), instant)
  {
  }

  predicate IsDue(digest: nat, p: Payload, now: int) {
    ParseWindow(p).Some? && now >= DueAt(digest, ParseWindow(p).value.0, ParseWindow(p).value.1)
  }

  /** The instant shown is the instant acted on, exactly unless the window has no length and
      starts inside a second. */
  lemma ShownIsActedOnIff(digest: nat, p: Payload, now: int)
    requires digest < TWO_64 && ParseWindow(p).Some?
    ensures var (start, end) := ParseWindow(p).value;
            Observe(digest, Window, p, now).renewAt == Some(DueAt(digest, start, end)) <==>
            start < end || start % SECOND == 0
  {
    var (start, end) := ParseWindow(p).value;
    DueInWindow(digest, start, end);
  }

  /** A sweep at the shown instant renews, under the same condition; and one that found the
      certificate due finds it due ever after. */
  lemma SweepAtShownInstantRenews(digest: nat, p: Payload, now: int, later: int)
    requires digest < TWO_64 && ParseWindow(p).Some?
    ensures var (start, end) := ParseWindow(p).value;
            IsDue(digest, p, Observe(digest, Window, p, now).renewAt.value) <==> start < end || start % SECOND == 0
    ensures IsDue(digest, p, now) && now <= later ==> IsDue(digest, p, later)
  {
    var (start, end) := ParseWindow(p).value;
    DueInWindow(digest, start, end);
  }

  /** Due is decided inside the window: never before it starts, always once its last second is over. */
  lemma DueBySweeps(digest: nat, p: Payload, now: int)
    requires digest < TWO_64 && ParseWindow(p).Some?
    ensures var (start, end) := ParseWindow(p).value;
            (IsDue(digest, p, now) ==> now >= start) && (now >= CeilSecond(end) ==> IsDue(digest, p, now))
  {
    var (start, end) := ParseWindow(p).value;
    DueInWindow(digest, start, end);
  }
}
