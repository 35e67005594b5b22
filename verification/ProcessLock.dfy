/**
 The cross-process lock around a scheduled job (modules/factory.py, `_renewal_process_lock` and
 the jobs that enter it), as the steps of any number of activities in any order. An activity is
 one entry of one job in one process; each opens the job's lock file for itself, and the kernel
 drops a lock when the file that took it is closed or its process dies.
 */
module ProcessLock {

  /** Why a job may run: it took the lock, or one of the three ways of going on without it. */
  datatype Grant = Locked | NoDataDir | NoFcntl | CannotOpen

  datatype Pc =
    | Entering
    | Opened                  // the lock file is open, the lock not yet asked for
    | Running(grant: Grant)   // yielded True
    | Skipping                // yielded False
    | Leaving(held: bool)     // in `finally`, before the unlock
    | Closing(held: bool)     // before the close; still held when the unlock itself raised

  datatype Activity = Activity(lockName: string, pc: Pc)

  /** The running activities and, for each lock file, the activity the kernel gave the lock to. */
  datatype System = System(acts: map<nat, Activity>, locks: map<string, nat>)

  datatype Step =
    | Enter(p: nat, lockName: string)
    | Check(p: nat, found: Found)
    | Flock(p: nat, error: bool)      // `error`: flock fails although nobody holds the lock
    | Finish(p: nat)                  // the job returns or raises
    | Unlock(p: nat, raises: bool)
    | Close(p: nat)
    | Kill(p: nat)

  /** What the environment allows: the file opens, or one of the fail-open conditions holds. */
  datatype Found = FileOpens | Missing(grant: Grant)

  predicate Holding(pc: Pc) {
    pc == Running(Locked) || pc == Leaving(true) || pc == Closing(true)
  }

  function Drop(locks: map<string, nat>, p: nat): map<string, nat> {
    map n | n in locks && locks[n] != p :: locks[n]
  }

  function At(s: System, p: nat, pc: Pc): System
    requires p in s.acts
  {
    s.(acts := s.acts[p := s.acts[p].(pc := pc)])
  }

  function Gone(s: System, p: nat): System {
    System(map q | q in s.acts && q != p :: s.acts[q], Drop(s.locks, p))
  }

  /** A step that is not enabled changes nothing. */
  function Next(s: System, step: Step): System {
    match step
    case Enter(p, name) => if p in s.acts then s else s.(acts := s.acts[p := Activity(name, Entering)])
    case Check(p, found) =>
      if p !in s.acts || s.acts[p].pc != Entering then s
      else if found.FileOpens? then At(s, p, Opened)
      else if found.grant == Locked then s
      else At(s, p, Running(found.grant))
    case Flock(p, error) =>
      if p !in s.acts || s.acts[p].pc != Opened then s
      else if s.acts[p].lockName in s.locks || error then At(s, p, Skipping)
      else At(s.(locks := s.locks[s.acts[p].lockName := p]), p, Running(Locked))
    case Finish(p) =>
      if p !in s.acts then s
      else if s.acts[p].pc == Running(Locked) then At(s, p, Leaving(true))
      else if s.acts[p].pc.Running? then Gone(s, p)   // no file was opened
      else if s.acts[p].pc == Skipping then At(s, p, Leaving(false))
      else s
    case Unlock(p, raises) =>
      if p !in s.acts || !s.acts[p].pc.Leaving? then s
      else if s.acts[p].pc.held && !raises then At(s.(locks := Drop(s.locks, p)), p, Closing(false))
      else At(s, p, Closing(s.acts[p].pc.held))
    case Close(p) => if p !in s.acts || !s.acts[p].pc.Closing? then s else Gone(s, p)
    case Kill(p) => if p !in s.acts then s else Gone(s, p)
  }

  function RunFrom(s: System, steps: seq<Step>): System {
    if steps == [] then s else Next(RunFrom(s, steps[..|steps| - 1]), steps[|steps| - 1])
  }

  function Run(steps: seq<Step>): System {
    RunFrom(System(map[], map[]), steps)
  }

  /** The kernel's table and the activities' own idea of it agree. */
  predicate Inv(s: System) {
    && (forall n | n in s.locks :: s.locks[n] in s.acts && s.acts[s.locks[n]].lockName == n
                                   && Holding(s.acts[s.locks[n]].pc))
    && (forall p | p in s.acts && Holding(s.acts[p].pc) ::
          s.acts[p].lockName in s.locks && s.locks[s.acts[p].lockName] == p)
  }

  lemma GoneKeepsInv(s: System, p: nat)
    requires Inv(s)
    ensures Inv(Gone(s, p))
  {
  }

  lemma MoveKeepsInv(s: System, p: nat, pc: Pc)
    requires Inv(s) && p in s.acts && (Holding(pc) <==> Holding(s.acts[p].pc))
    ensures Inv(At(s, p, pc))
  {
  }

  lemma EnterKeepsInv(s: System, p: nat, name: string)
    requires Inv(s) && p !in s.acts
    ensures Inv(s.(acts := s.acts[p := Activity(name, Entering)]))
  {
  }

  lemma TakeKeepsInv(s: System, p: nat)
    requires Inv(s) && p in s.acts && s.acts[p].pc == Opened && s.acts[p].lockName !in s.locks
    ensures Inv(At(s.(locks := s.locks[s.acts[p].lockName := p]), p, Running(Locked)))
  {
  }

  lemma UnlockKeepsInv(s: System, p: nat)
    requires Inv(s) && p in s.acts && s.acts[p].pc == Leaving(true)
    ensures Inv(At(s.(locks := Drop(s.locks, p)), p, Closing(false)))
  {
  }

  lemma NextKeepsInv(s: System, step: Step)
    requires Inv(s)
    ensures Inv(Next(s, step))
  {
    match step {
      case Enter(p, name) => if p !in s.acts { EnterKeepsInv(s, p, name); }
      case Check(p, found) =>
        if p in s.acts && s.acts[p].pc == Entering {
          MoveKeepsInv(s, p, Opened);
          if found.Missing? && found.grant != Locked { MoveKeepsInv(s, p, Running(found.grant)); }
        }
      case Flock(p, error) =>
        if p in s.acts && s.acts[p].pc == Opened {
          MoveKeepsInv(s, p, Skipping);
          if s.acts[p].lockName !in s.locks { TakeKeepsInv(s, p); }
        }
      case Finish(p) =>
        GoneKeepsInv(s, p);
        if p in s.acts && s.acts[p].pc == Running(Locked) { MoveKeepsInv(s, p, Leaving(true)); }
        if p in s.acts && s.acts[p].pc == Skipping { MoveKeepsInv(s, p, Leaving(false)); }
      case Unlock(p, raises) =>
        if p in s.acts && s.acts[p].pc.Leaving? {
          MoveKeepsInv(s, p, Closing(s.acts[p].pc.held));
          if s.acts[p].pc.held { UnlockKeepsInv(s, p); }
        }
      case Close(p) => GoneKeepsInv(s, p);
      case Kill(p) => GoneKeepsInv(s, p);
    }
  }

  lemma {:induction false} RunKeepsInv(steps: seq<Step>)
    ensures Inv(Run(steps))
  {
    if steps != [] {
      RunKeepsInv(steps[..|steps| - 1]);
      NextKeepsInv(Run(steps[..|steps| - 1]), steps[|steps| - 1]);
    }
  }

  /** Under every interleaving, of the activities that opened a job's lock file at most one runs
      the job; any other that runs it at the same time found no data directory, no fcntl, or no
      way to open the file. */
  lemma AtMostOneRuns(steps: seq<Step>, p: nat, q: nat)
    requires var s := Run(steps);
             p in s.acts && q in s.acts && p != q && s.acts[p].lockName == s.acts[q].lockName
             && s.acts[p].pc.Running? && s.acts[q].pc.Running?
    ensures var s := Run(steps);
            s.acts[p].pc.grant != Locked || s.acts[q].pc.grant != Locked
  {
    RunKeepsInv(steps);
  }

  /** The lock is free once its holder has gone, by whatever exit, an exception, a failed unlock
      or its death included: every lock in the table belongs to an activity still there. */
  lemma FreedOnEveryExit(steps: seq<Step>, name: string)
    ensures var s := Run(steps);
            (forall p | p in s.acts && s.acts[p].lockName == name :: !Holding(s.acts[p].pc)) ==> name !in s.locks
    ensures var s := Run(steps);
            forall p | p !in s.acts && name in s.locks :: s.locks[name] != p
  {
    RunKeepsInv(steps);
  }

  /** The guard never blocks the job by its own failure: without a data directory, without fcntl and with
      a file that cannot be opened the job runs at once; with the file open it has yet to ask. No step of
      another activity changes that, and a job that ran so leaves at once, with no lock touched. */
  lemma FailsOpen(s: System, p: nat, found: Found, others: seq<Step>)
    requires Inv(s) && p in s.acts && s.acts[p].pc == Entering && found != Missing(Locked)
    requires forall step | step in others :: step.p != p
    ensures var ran := RunFrom(Next(s, Check(p, found)), others);
            && p in ran.acts && ran.acts[p].lockName == s.acts[p].lockName
            && ran.acts[p].pc == (if found.FileOpens? then Opened else Running(found.grant))
            && (found.Missing? ==> p !in Next(ran, Finish(p)).acts && Next(ran, Finish(p)).locks == ran.locks)
  {
    var checked := Next(s, Check(p, found));
    NextKeepsInv(s, Check(p, found));
    OthersLeaveAlone(checked, others, p);
    NoLockToDrop(RunFrom(checked, others), p);
  }

  lemma OtherLeavesAlone(s: System, step: Step, p: nat)
    requires p in s.acts && step.p != p
    ensures p in Next(s, step).acts && Next(s, step).acts[p] == s.acts[p]
  {
  }

  /** An activity is moved by its own steps only. */
  lemma {:induction false} OthersLeaveAlone(s: System, others: seq<Step>, p: nat)
    requires Inv(s) && p in s.acts && forall step | step in others :: step.p != p
    ensures Inv(RunFrom(s, others)) && p in RunFrom(s, others).acts && RunFrom(s, others).acts[p] == s.acts[p]
  {
    if others != [] {
      var n := |others| - 1;
      OthersLeaveAlone(s, others[..n], p);
      NextKeepsInv(RunFrom(s, others[..n]), others[n]);
      assert others[n] in others;
      OtherLeavesAlone(RunFrom(s, others[..n]), others[n], p);
    }
  }

  lemma NoLockToDrop(s: System, p: nat)
    requires Inv(s) && p in s.acts && !Holding(s.acts[p].pc)
    ensures Gone(s, p).locks == s.locks
  {
  }

  /** A refused activity leaves by the same door, and the lock it did not get stays where it is. */
  lemma SkippingLeaves(s: System, p: nat, raises: bool)
    requires Inv(s) && p in s.acts && s.acts[p].pc == Skipping
    ensures var left := Next(Next(Next(s, Finish(p)), Unlock(p, raises)), Close(p));
            p !in left.acts && left.locks == s.locks
  {
    var done := Next(s, Finish(p));
    NextKeepsInv(s, Finish(p));
    NextKeepsInv(done, Unlock(p, raises));
    NoLockToDrop(Next(done, Unlock(p, raises)), p);
  }

  /** An activity that asks for its lock gets it exactly when no activity of the same job holds
      it (and flock does not fail): jobs with other lock names play no part. */
  lemma GrantedIff(steps: seq<Step>, p: nat, error: bool)
    requires p in Run(steps).acts && Run(steps).acts[p].pc == Opened
    ensures var s := Run(steps);
            Next(s, Flock(p, error)).acts[p].pc ==
            if !error && (forall q | q in s.acts && s.acts[q].lockName == s.acts[p].lockName :: !Holding(s.acts[q].pc))
            then Running(Locked) else Skipping
  {
    RunKeepsInv(steps);
  }

  /** Every way out of a job that holds its lock leaves the lock free for the next to ask. */
  lemma HandedOn(s: System, p: nat, q: nat, raises: bool)
    requires Inv(s) && p in s.acts && q in s.acts && p != q && s.acts[p].lockName == s.acts[q].lockName
    requires s.acts[p].pc == Running(Locked) && s.acts[q].pc == Opened
    ensures Next(s, Flock(q, false)) == At(s, q, Skipping)
    ensures var free := Next(s, Kill(p));
            q in free.acts && Next(free, Flock(q, false)).acts[q].pc == Running(Locked)
    ensures var free := Next(Next(Next(s, Finish(p)), Unlock(p, raises)), Close(p));
            q in free.acts && Next(free, Flock(q, false)).acts[q].pc == Running(Locked)
  {
    GoneFrees(s, p);
    var done := Next(s, Finish(p));
    NextKeepsInv(s, Finish(p));
    var unlocked := Next(done, Unlock(p, raises));
    NextKeepsInv(done, Unlock(p, raises));
    assert unlocked.acts[p].pc.Closing? && unlocked.acts[q] == s.acts[q];
    if raises {
      GoneFrees(unlocked, p);
    }
  }

  lemma GoneFrees(s: System, p: nat)
    requires Inv(s) && p in s.acts && Holding(s.acts[p].pc)
    ensures s.acts[p].lockName !in Gone(s, p).locks
  {
  }

  /** A job with nobody else about takes its lock, and nothing else happens. */
  lemma JobStarts(s: System, p: nat, name: string)
    requires Inv(s) && p !in s.acts && name !in s.locks
    ensures var runs := RunFrom(s, [Enter(p, name), Check(p, FileOpens), Flock(p, false)]);
            runs.acts == s.acts[p := Activity(name, Running(Locked))] && runs.locks == s.locks[name := p]
  {
    RunOfThree(s, Enter(p, name), Check(p, FileOpens), Flock(p, false));
  }

  /** It gives the lock up before it closes the file when the unlock does not raise. */
  lemma JobUnlocks(s: System, p: nat, raises: bool)
    requires Inv(s) && p in s.acts && s.acts[p].pc == Running(Locked)
    ensures var unlocked := RunFrom(s, [Finish(p), Unlock(p, raises)]);
            && unlocked.acts == s.acts[p := s.acts[p].(pc := Closing(raises))]
            && unlocked.locks == (if raises then s.locks else s.locks - {s.acts[p].lockName})
  {
    RunOfTwo(s, Finish(p), Unlock(p, raises));
    DropIs(s, p);
  }

  /** And by closing it in any case; nothing else happens. */
  lemma JobEnds(s: System, p: nat, raises: bool)
    requires Inv(s) && p in s.acts && s.acts[p].pc == Running(Locked)
    ensures var closed := Next(RunFrom(s, [Finish(p), Unlock(p, raises)]), Close(p));
            closed.acts == s.acts - {p} && closed.locks == s.locks - {s.acts[p].lockName}
  {
    JobUnlocks(s, p, raises);
    DropIs(s, p);
  }

  lemma DropIs(s: System, p: nat)
    requires Inv(s) && p in s.acts && Holding(s.acts[p].pc)
    ensures Drop(s.locks, p) == s.locks - {s.acts[p].lockName}
    ensures Drop(s.locks - {s.acts[p].lockName}, p) == s.locks - {s.acts[p].lockName}
  {
    var name := s.acts[p].lockName;
    forall n | n in s.locks && s.locks[n] == p ensures n == name {
      assert s.acts[s.locks[n]].lockName == n;
    }
  }

  lemma RunOfTwo(s: System, a: Step, b: Step)
    ensures RunFrom(s, [a, b]) == Next(Next(s, a), b)
  {
    assert [a, b][..1] == [a] && [a][..0] == [];
    assert RunFrom(s, []) == s && RunFrom(s, [a]) == Next(s, a);
  }

  lemma RunOfThree(s: System, a: Step, b: Step, c: Step)
    ensures RunFrom(s, [a, b, c]) == Next(Next(Next(s, a), b), c)
  {
    assert [a, b, c][..2] == [a, b];
    RunOfTwo(s, a, b);
  }

  /** Whether a step starts where its activity is. */
  predicate InTurn(s: System, step: Step) {
    match step
    case Enter(p, _) => p !in s.acts
    case Check(p, _) => p in s.acts && s.acts[p].pc == Entering
    case Flock(p, _) => p in s.acts && s.acts[p].pc == Opened
    case Finish(p) => p in s.acts && (s.acts[p].pc.Running? || s.acts[p].pc == Skipping)
    case Unlock(p, _) => p in s.acts && s.acts[p].pc.Leaving?
    case Close(p) => p in s.acts && s.acts[p].pc.Closing?
    case Kill(p) => p in s.acts
  }

  /** A step out of turn changes nothing. */
  lemma OutOfTurn(s: System, step: Step)
    requires !InTurn(s, step)
    ensures Next(s, step) == s
  {
  }
}
