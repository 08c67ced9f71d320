/** The loop around the retry queue: file events, drag-backs and attempts, over whole runs. */
module SubmitLoop {
  import opened Prelude
  import opened RetrySchedule
  import Sidecars

  /** Milliseconds a rename-from waits for its other half. */
  const RENAME_PAIR_WINDOW := 500

  datatype Side = OutboxSide | FailedSide

  datatype Kind = CreateOrRenameTo | Removed | RenameFrom

  /** `name` is the file name without its flag suffix; `hidden` says the file name starts with a dot. */
  datatype Event = Event(side: Side, kind: Kind, name: Name, hidden: bool)

  datatype PendingRename = PendingRename(side: Side, seenAt: Instant)

  datatype State = State(due: map<Name, Instant>, known: set<Name>, pending: map<Name, PendingRename>)

  // -------------------------------------------------------------------------
  // Events
  // -------------------------------------------------------------------------

  /** The To half of a rename whose From half was seen on the Failed side. */
  predicate IsDragBack(s: State, ev: Event) {
    !ev.hidden && ev.side.OutboxSide? && ev.kind.CreateOrRenameTo? && ev.name in s.pending && s.pending[ev.name].side.FailedSide?
  }

  function Handle(s: State, ev: Event, now: Instant): State {
    if ev.hidden then s
    else match (ev.side, ev.kind)
      case (OutboxSide, CreateOrRenameTo) =>
        State(s.due[ev.name := now], if IsDragBack(s, ev) then s.known - {ev.name} else s.known, s.pending - {ev.name})
      case (OutboxSide, Removed) => s.(due := s.due - {ev.name})
      case (FailedSide, CreateOrRenameTo) => s.(due := s.due - {ev.name}, known := s.known + {ev.name})
      case (FailedSide, Removed) => s.(known := s.known - {ev.name})
      case (_, RenameFrom) => s.(pending := s.pending[ev.name := PendingRename(ev.side, now)])
  }

  predicate TimedOut(p: PendingRename, now: Instant) {
    now - p.seenAt > RENAME_PAIR_WINDOW
  }

  function Expire(s: State, now: Instant): State {
    State(s.due,
          set n | n in s.known && !(n in s.pending && TimedOut(s.pending[n], now) && s.pending[n].side.FailedSide?),
          map n | n in s.pending && !TimedOut(s.pending[n], now) :: s.pending[n])
  }

  /** The loop's variables. */
  class Loop {
    const queue: Queue
    var known: set<Name>
    var pending: map<Name, PendingRename>

    constructor (known: set<Name>)
      ensures queue.Valid() && fresh(queue) && Now() == State(map[], known, map[])
    {
      queue := new Queue();
      this.known, pending := known, map[];
    }

    ghost function Now(): State
      reads this, queue
    {
      State(queue.index, known, pending)
    }

    /** Queue the files found at the start, each for the time its sidecar says, or at once. */
    method StartupScan(files: seq<Name>, sidecars: map<Name, Sidecars.Sidecar>, now: Instant)
      requires queue.Valid() && queue.index == map[]
      modifies queue
      ensures queue.Valid() && forall n :: n in queue.index <==> n in files
      ensures forall n :: n in files ==>
                queue.index[n] ==
                if n in sidecars && sidecars[n].retry.Some? && sidecars[n].retry.value.nextAt.Some? && now < sidecars[n].retry.value.nextAt.value
                then sidecars[n].retry.value.nextAt.value else now
    {
      for i := 0 to |files|
        invariant queue.Valid() && forall n :: n in queue.index <==> n in files[..i]
        invariant forall n :: n in queue.index ==>
                    queue.index[n] ==
                    if n in sidecars && sidecars[n].retry.Some? && sidecars[n].retry.value.nextAt.Some? && now < sidecars[n].retry.value.nextAt.value
                    then sidecars[n].retry.value.nextAt.value else now
      {
        var due := now;
        if files[i] in sidecars {
          var retry := sidecars[files[i]].retry;
          if retry.Some? && retry.value.nextAt.Some? { due := retry.value.nextAt.value; }
        }
        var delay := if due < now then 0 else due - now;
        queue.Schedule(files[i], now + delay);
        assert files[..i + 1] == files[..i] + [files[i]];
      }
      assert files[..|files|] == files;
    }

    /** Returns whether the file is a drag-back, whose headers are stripped and whose sidecar is reset. */
    method HandleEvent(ev: Event, now: Instant) returns (dragBack: bool)
      requires queue.Valid()
      modifies this, queue
      ensures queue.Valid()
      ensures Now() == Handle(old(Now()), ev, now)
      ensures dragBack == IsDragBack(old(Now()), ev)
    {
      dragBack := false;
      if ev.hidden { return; }
      match (ev.side, ev.kind) {
        case (OutboxSide, CreateOrRenameTo) =>
          if ev.name in pending {
            dragBack := pending[ev.name].side.FailedSide?;
            pending := pending - {ev.name};
            if dragBack { known := known - {ev.name}; }
          }
          queue.Schedule(ev.name, now);
        case (OutboxSide, Removed) =>
          queue.Remove(ev.name);
        case (FailedSide, CreateOrRenameTo) =>
          known := known + {ev.name};
          queue.Remove(ev.name);
        case (FailedSide, Removed) =>
          known := known - {ev.name};
        case (_, RenameFrom) =>
          pending := pending[ev.name := PendingRename(ev.side, now)];
      }
    }

    /** Drop the pending renames that waited too long, name by name. */
    method ExpirePendingRenames(now: Instant)
      modifies this
      ensures Now() == Expire(old(Now()), now)
    {
      var expired := set n | n in pending && TimedOut(pending[n], now);
      ghost var p, k := pending, known;
      while expired != {}
        invariant expired <= set n | n in p && TimedOut(p[n], now)
        invariant pending == map n | n in p && (n in expired || !TimedOut(p[n], now)) :: p[n]
        invariant known == set n | n in k && !(n in p && n !in expired && TimedOut(p[n], now) && p[n].side.FailedSide?)
        decreases |expired|
      {
        var n :| n in expired;
        if pending[n].side.FailedSide? { known := known - {n}; }
        pending, expired := pending - {n}, expired - {n};
      }
    }
  }

  // -------------------------------------------------------------------------
  // Runs
  // -------------------------------------------------------------------------

  /** How an attempt ended; a transient one is queued again unless the daemon is stopping. */
  datatype Outcome = Vanished | Success | Transient(again: bool) | Permanent

  /** The loop between two steps; `batch` holds the drained names still to be attempted. */
  datatype Machine = Machine(s: State, batch: seq<Name>)

  datatype Step =
    | Sweep(now: Instant)
    | Drain(now: Instant, due: seq<Name>)
    | Attempt(name: Name, outcome: Outcome, now: Instant)
    | Deliver(ev: Event, now: Instant)
    | Restart(found: map<Name, Instant>, failures: set<Name>)

  /** The loop takes events only between batches and attempts a batch in order; a crash can come at any step. */
  ghost predicate CanTake(m: Machine, step: Step) {
    match step
    case Sweep(_) => m.batch == []
    case Drain(now, due) => m.batch == [] && DueInOrder(due, m.s.due, now)
    case Attempt(name, _, _) => m.batch != [] && m.batch[0] == name
    case Deliver(_, _) => m.batch == []
    case Restart(_, _) => true
  }

  ghost function Take(m: Machine, step: Step): Machine
    requires CanTake(m, step)
  {
    match step
    case Sweep(now) => m.(s := Expire(m.s, now))
    case Drain(now, due) => Machine(m.s.(due := m.s.due - Elements(due)), due)
    case Attempt(name, outcome, now) =>
      Machine(if outcome == Transient(true) then m.s.(due := m.s.due[name := now]) else m.s, m.batch[1..])
    case Deliver(ev, now) => m.(s := Handle(m.s, ev, now))
    case Restart(found, failures) => Machine(State(found, failures, map[]), [])
  }

  ghost predicate CanRun(m: Machine, steps: seq<Step>)
    decreases |steps|, 0
  {
    steps == [] || (CanRun(m, steps[..|steps| - 1]) && CanTake(Run(m, steps[..|steps| - 1]), steps[|steps| - 1]))
  }

  ghost function Run(m: Machine, steps: seq<Step>): Machine
    requires CanRun(m, steps)
    decreases |steps|, 1
  {
    if steps == [] then m else Take(Run(m, steps[..|steps| - 1]), steps[|steps| - 1])
  }

  /** A drained name is not in the queue, and is drained once. */
  ghost predicate Apart(m: Machine) {
    NoRepeat(m.batch) && forall n :: n in m.batch ==> n !in m.s.due
  }

  lemma StepKeepsApart(m: Machine, step: Step)
    requires Apart(m) && CanTake(m, step)
    ensures Apart(Take(m, step))
  {
    if step.Attempt? {
      assert forall n :: n in m.batch[1..] ==> n in m.batch && n != m.batch[0];
    }
  }

  lemma {:induction false} RunKeepsApart(m: Machine, steps: seq<Step>)
    requires Apart(m) && CanRun(m, steps)
    ensures Apart(Run(m, steps))
    decreases |steps|
  {
    if steps != [] {
      RunKeepsApart(m, steps[..|steps| - 1]);
      StepKeepsApart(Run(m, steps[..|steps| - 1]), steps[|steps| - 1]);
    }
  }

  // -------------------------------------------------------------------------
  // One name by itself
  // -------------------------------------------------------------------------

  /** Queued, or drained and still to be attempted. */
  ghost predicate Waiting(m: Machine, n: Name) {
    n in m.s.due || n in m.batch
  }

  /** The step puts the name into the queue. */
  predicate Queues(step: Step, n: Name) {
    match step
    case Deliver(ev, _) => ev == Event(OutboxSide, CreateOrRenameTo, n, false)
    case Attempt(name, outcome, _) => name == n && outcome == Transient(true)
    case Restart(found, _) => n in found
    case _ => false
  }

  /** The step takes the name out for good. */
  predicate Unqueues(step: Step, n: Name) {
    match step
    case Deliver(ev, _) => ev == Event(OutboxSide, Removed, n, false) || ev == Event(FailedSide, CreateOrRenameTo, n, false)
    case Attempt(name, outcome, _) => name == n && outcome != Transient(true)
    case Restart(found, _) => n !in found
    case _ => false
  }

  lemma StepOnName(m: Machine, step: Step, n: Name)
    requires Apart(m) && CanTake(m, step)
    ensures Waiting(Take(m, step), n) <==> Queues(step, n) || (Waiting(m, n) && !Unqueues(step, n))
  {
    match step {
      case Attempt(name, outcome, _) =>
        assert m.batch == [name] + m.batch[1..];
        assert name !in m.batch[1..];
      case Drain(now, due) =>
        assert forall x :: x in Elements(due) <==> x in due;
      case _ =>
    }
  }

  /** Some step queued the name and none since took it out. */
  ghost predicate LeftQueued(steps: seq<Step>, n: Name) {
    exists i :: 0 <= i < |steps| && Queues(steps[i], n) && forall j :: i < j < |steps| ==> !Unqueues(steps[j], n)
  }

  ghost predicate NeverUnqueued(steps: seq<Step>, n: Name) {
    forall j :: 0 <= j < |steps| ==> !Unqueues(steps[j], n)
  }

  /** After any run a name waits exactly when its last queueing step was not undone. */
  lemma {:induction false} WaitingIff(m: Machine, steps: seq<Step>, n: Name)
    requires Apart(m) && CanRun(m, steps)
    ensures Waiting(Run(m, steps), n) <==> LeftQueued(steps, n) || (Waiting(m, n) && NeverUnqueued(steps, n))
    decreases |steps|
  {
    if steps != [] {
      var before, last := steps[..|steps| - 1], steps[|steps| - 1];
      WaitingIff(m, before, n);
      RunKeepsApart(m, before);
      StepOnName(Run(m, before), last, n);
      OneMore(before, last, n);
      assert before + [last] == steps;
    }
  }

  lemma OneMore(before: seq<Step>, last: Step, n: Name)
    ensures LeftQueued(before + [last], n) <==> Queues(last, n) || (LeftQueued(before, n) && !Unqueues(last, n))
    ensures NeverUnqueued(before + [last], n) <==> NeverUnqueued(before, n) && !Unqueues(last, n)
  {
    var all := before + [last];
    assert all[|before|] == last;
    assert forall j :: 0 <= j < |before| ==> all[j] == before[j];
    if LeftQueued(all, n) && !Queues(last, n) {
      var i :| 0 <= i < |all| && Queues(all[i], n) && forall j :: i < j < |all| ==> !Unqueues(all[j], n);
      assert Queues(before[i], n);
      assert forall j :: i < j < |before| ==> !Unqueues(before[j], n) by {
        assert forall j :: i < j < |before| ==> all[j] == before[j];
      }
      assert LeftQueued(before, n);
    }
    if LeftQueued(before, n) && !Unqueues(last, n) {
      var i :| 0 <= i < |before| && Queues(before[i], n) && forall j :: i < j < |before| ==> !Unqueues(before[j], n);
      assert Queues(all[i], n);
    }
    if Queues(last, n) { assert Queues(all[|before|], n); }
    if NeverUnqueued(all, n) {
      assert forall j :: 0 <= j < |before| ==> before[j] == all[j];
    }
  }

  /** What can bring a message back: its file appears in Outbox, or the daemon starts and finds it there. */
  predicate Cause(step: Step, n: Name) {
    (step.Deliver? && step.ev == Event(OutboxSide, CreateOrRenameTo, n, false)) || (step.Restart? && n in step.found)
  }

  /**
   Once an attempt ended for good (permanently, successfully, or because the file was gone), the same name is attempted
   again only after its file showed up in Outbox or the daemon restarted.
   */
  lemma {:induction false} AttemptNeedsCause(m: Machine, steps: seq<Step>, between: seq<Step>, n: Name, first: Step, again: Step)
    requires Apart(m) && CanRun(m, steps) && CanTake(Run(m, steps), first)
    requires first.Attempt? && first.name == n && first.outcome != Transient(true)
    requires CanRun(Take(Run(m, steps), first), between) && CanTake(Run(Take(Run(m, steps), first), between), again)
    requires again.Attempt? && again.name == n
    ensures exists i :: 0 <= i < |between| && Cause(between[i], n)
  {
    var mid := Take(Run(m, steps), first);
    RunKeepsApart(m, steps);
    StepKeepsApart(Run(m, steps), first);
    StepOnName(Run(m, steps), first, n);
    assert !Waiting(mid, n);
    FirstQueue(mid, between, n);
  }

  /** A name that does not wait starts to wait only through a cause. */
  lemma {:induction false} FirstQueue(m: Machine, steps: seq<Step>, n: Name)
    requires Apart(m) && CanRun(m, steps) && !Waiting(m, n) && Waiting(Run(m, steps), n)
    ensures exists i :: 0 <= i < |steps| && Cause(steps[i], n)
    decreases |steps|
  {
    var before, last := steps[..|steps| - 1], steps[|steps| - 1];
    RunKeepsApart(m, before);
    StepOnName(Run(m, before), last, n);
    assert last.Attempt? ==> Waiting(Run(m, before), last.name);
    if Waiting(Run(m, before), n) {
      FirstQueue(m, before, n);
      var i :| 0 <= i < |before| && Cause(before[i], n);
      assert Cause(steps[i], n);
    } else {
      assert Queues(last, n);
      assert Cause(steps[|steps| - 1], n);
    }
  }

  // -------------------------------------------------------------------------
  // Due times
  // -------------------------------------------------------------------------

  /**
   The step queues the name for that time: a file that appears and a message put off are due at once, a file found at
   the start when its sidecar says.
   */
  ghost predicate QueuesAt(step: Step, n: Name, t: Instant) {
    || step == Deliver(Event(OutboxSide, CreateOrRenameTo, n, false), t)
    || step == Attempt(n, Transient(true), t)
    || (step.Restart? && n in step.found && step.found[n] == t)
  }

  /** The step ends that: the name is drained once it is due, queued anew, removed, or failed; or the daemon restarts. */
  predicate EndsDue(step: Step, n: Name, t: Instant) {
    match step
    case Drain(now, _) => t <= now
    case Deliver(ev, _) =>
      ev in {Event(OutboxSide, CreateOrRenameTo, n, false), Event(OutboxSide, Removed, n, false), Event(FailedSide, CreateOrRenameTo, n, false)}
    case Attempt(name, outcome, _) => name == n && outcome == Transient(true)
    case Restart(_, _) => true
    case Sweep(_) => false
  }

  ghost predicate StillDue(steps: seq<Step>, n: Name, t: Instant) {
    exists i :: 0 <= i < |steps| && QueuesAt(steps[i], n, t) && forall j :: i < j < |steps| ==> !EndsDue(steps[j], n, t)
  }

  lemma DueOneMore(before: seq<Step>, last: Step, n: Name, t: Instant)
    ensures StillDue(before + [last], n, t) <==> QueuesAt(last, n, t) || (StillDue(before, n, t) && !EndsDue(last, n, t))
  {
    var all := before + [last];
    assert all[|before|] == last;
    assert forall j :: 0 <= j < |before| ==> all[j] == before[j];
    if StillDue(all, n, t) && !QueuesAt(last, n, t) {
      var i :| 0 <= i < |all| && QueuesAt(all[i], n, t) && forall j :: i < j < |all| ==> !EndsDue(all[j], n, t);
      assert QueuesAt(before[i], n, t);
      assert forall j :: i < j < |before| ==> all[j] == before[j];
    }
    if StillDue(before, n, t) && !EndsDue(last, n, t) {
      var i :| 0 <= i < |before| && QueuesAt(before[i], n, t) && forall j :: i < j < |before| ==> !EndsDue(before[j], n, t);
      assert QueuesAt(all[i], n, t);
    }
    if QueuesAt(last, n, t) { assert QueuesAt(all[|before|], n, t); }
  }

  lemma DueAfterStep(m: Machine, step: Step, n: Name, t: Instant)
    requires CanTake(m, step)
    ensures var before, after := m.s.due, Take(m, step).s.due;
            n in after && after[n] == t <==> QueuesAt(step, n, t) || (n in before && before[n] == t && !EndsDue(step, n, t))
  {
    if step.Drain? {
      assert forall x :: x in Elements(step.due) <==> x in step.due;
      assert n in step.due <==> n in m.s.due && m.s.due[n] <= step.now;
    }
  }

  /** After any run a name is due at a time exactly when it was queued for that time and nothing has ended that. */
  lemma {:induction false} DueIff(m: Machine, steps: seq<Step>, n: Name, t: Instant)
    requires m.s.due == map[] && CanRun(m, steps)
    ensures var due := Run(m, steps).s.due; n in due && due[n] == t <==> StillDue(steps, n, t)
    decreases |steps|
  {
    if steps != [] {
      var before, last := steps[..|steps| - 1], steps[|steps| - 1];
      DueIff(m, before, n, t);
      DueOneMore(before, last, n, t);
      DueAfterStep(Run(m, before), last, n, t);
      assert before + [last] == steps;
    }
  }

  // -------------------------------------------------------------------------
  // Drag-backs
  // -------------------------------------------------------------------------

  /** The step forgets a pending rename of that name seen at that time. */
  predicate Forgets(step: Step, n: Name, seenAt: Instant) {
    match step
    case Sweep(now) => now - seenAt > 500
    case Deliver(ev, _) => !ev.hidden && ev.name == n && (ev.kind.RenameFrom? || (ev.side.OutboxSide? && ev.kind.CreateOrRenameTo?))
    case Restart(_, _) => true
    case _ => false
  }

  predicate StartsRename(step: Step, n: Name, p: PendingRename) {
    step.Deliver? && step.ev == Event(p.side, RenameFrom, n, false) && step.now == p.seenAt
  }

  ghost predicate RenameOpen(steps: seq<Step>, n: Name, p: PendingRename) {
    exists i :: 0 <= i < |steps| && StartsRename(steps[i], n, p) && forall j :: i < j < |steps| ==> !Forgets(steps[j], n, p.seenAt)
  }

  lemma RenameOneMore(before: seq<Step>, last: Step, n: Name, p: PendingRename)
    ensures RenameOpen(before + [last], n, p) <==>
            StartsRename(last, n, p) || (RenameOpen(before, n, p) && !Forgets(last, n, p.seenAt))
  {
    var all := before + [last];
    assert all[|before|] == last;
    assert forall j :: 0 <= j < |before| ==> all[j] == before[j];
    if RenameOpen(all, n, p) && !StartsRename(last, n, p) {
      var i :| 0 <= i < |all| && StartsRename(all[i], n, p) && forall j :: i < j < |all| ==> !Forgets(all[j], n, p.seenAt);
      assert StartsRename(before[i], n, p);
      assert forall j :: i < j < |before| ==> all[j] == before[j];
    }
    if RenameOpen(before, n, p) && !Forgets(last, n, p.seenAt) {
      var i :| 0 <= i < |before| && StartsRename(before[i], n, p) && forall j :: i < j < |before| ==> !Forgets(before[j], n, p.seenAt);
      assert StartsRename(all[i], n, p);
    }
    if StartsRename(last, n, p) { assert StartsRename(all[|before|], n, p); }
  }

  lemma {:induction false} PendingIff(m: Machine, steps: seq<Step>, n: Name, p: PendingRename)
    requires m.s.pending == map[] && CanRun(m, steps)
    ensures var end := Run(m, steps).s.pending; n in end && end[n] == p <==> RenameOpen(steps, n, p)
    decreases |steps|
  {
    if steps != [] {
      var before, last := steps[..|steps| - 1], steps[|steps| - 1];
      PendingIff(m, before, n, p);
      RenameOneMore(before, last, n, p);
      PendingAfterStep(Run(m, before), last, n, p);
      assert before + [last] == steps;
    }
  }

  lemma PendingAfterStep(m: Machine, step: Step, n: Name, p: PendingRename)
    requires CanTake(m, step)
    ensures var before, after := m.s.pending, Take(m, step).s.pending;
            n in after && after[n] == p <==> StartsRename(step, n, p) || (n in before && before[n] == p && !Forgets(step, n, p.seenAt))
  {}

  /**
   Over any run since the loop started: a file that appears in Outbox is taken for a drag-back (headers stripped,
   sidecar reset) exactly when it left Failed before, and since then it neither appeared in Outbox nor left a side
   again, no sweep came later than the pairing window, and the daemon did not restart.
   */
  lemma DragBackIff(m: Machine, steps: seq<Step>, n: Name)
    requires m.s.pending == map[] && CanRun(m, steps)
    ensures IsDragBack(Run(m, steps).s, Event(OutboxSide, CreateOrRenameTo, n, false)) <==>
            exists t :: RenameOpen(steps, n, PendingRename(FailedSide, t))
  {
    var end := Run(m, steps).s.pending;
    if n in end && end[n].side.FailedSide? {
      PendingIff(m, steps, n, end[n]);
      assert RenameOpen(steps, n, PendingRename(FailedSide, end[n].seenAt));
    }
    if t :| RenameOpen(steps, n, PendingRename(FailedSide, t)) {
      PendingIff(m, steps, n, PendingRename(FailedSide, t));
    }
  }

  // -------------------------------------------------------------------------
  // Known failures
  // -------------------------------------------------------------------------

  /** The file came to Failed, or was there at the start. */
  predicate Comes(step: Step, n: Name) {
    || (step.Deliver? && step.ev == Event(FailedSide, CreateOrRenameTo, n, false))
    || (step.Restart? && n in step.failures)
  }

  /** It was removed there, dragged back, or moved elsewhere: its other half did not appear in time. */
  ghost predicate Leaves(before: seq<Step>, step: Step, n: Name) {
    match step
    case Deliver(ev, _) =>
      || ev == Event(FailedSide, Removed, n, false)
      || (ev == Event(OutboxSide, CreateOrRenameTo, n, false) && exists t :: RenameOpen(before, n, PendingRename(FailedSide, t)))
    case Sweep(now) => exists t :: RenameOpen(before, n, PendingRename(FailedSide, t)) && now - t > 500
    case Restart(_, failures) => n !in failures
    case _ => false
  }

  ghost predicate StillFailed(steps: seq<Step>, n: Name) {
    exists i :: 0 <= i < |steps| && Comes(steps[i], n) && forall j :: i < j < |steps| ==> !Leaves(steps[..j], steps[j], n)
  }

  lemma FailedOneMore(before: seq<Step>, last: Step, n: Name)
    ensures StillFailed(before + [last], n) <==> Comes(last, n) || (StillFailed(before, n) && !Leaves(before, last, n))
  {
    var all := before + [last];
    assert all[|before|] == last && all[..|before|] == before;
    assert forall j :: 0 <= j < |before| ==> all[j] == before[j] && all[..j] == before[..j];
    if StillFailed(all, n) && !Comes(last, n) {
      var i :| 0 <= i < |all| && Comes(all[i], n) && forall j :: i < j < |all| ==> !Leaves(all[..j], all[j], n);
      assert Comes(before[i], n);
      forall j | i < j < |before| ensures !Leaves(before[..j], before[j], n) { assert all[..j] == before[..j]; }
    }
    if StillFailed(before, n) && !Leaves(before, last, n) {
      var i :| 0 <= i < |before| && Comes(before[i], n) && forall j :: i < j < |before| ==> !Leaves(before[..j], before[j], n);
      assert Comes(all[i], n);
    }
    if Comes(last, n) { assert Comes(all[|before|], n); }
  }

  lemma KnownAfterStep(m: Machine, before: seq<Step>, step: Step, n: Name)
    requires CanTake(m, step)
    requires forall p :: (n in m.s.pending && m.s.pending[n] == p) <==> RenameOpen(before, n, p)
    ensures n in Take(m, step).s.known <==> Comes(step, n) || (n in m.s.known && !Leaves(before, step, n))
  {
    if n in m.s.pending {
      var p := m.s.pending[n];
      assert RenameOpen(before, n, PendingRename(p.side, p.seenAt));
    }
  }

  /** After any run since the loop started with no failures known, those known are the files in Failed as far as told. */
  lemma {:induction false} KnownIff(m: Machine, steps: seq<Step>, n: Name)
    requires m.s.pending == map[] && n !in m.s.known && CanRun(m, steps)
    ensures n in Run(m, steps).s.known <==> StillFailed(steps, n)
    decreases |steps|
  {
    if steps != [] {
      var before, last := steps[..|steps| - 1], steps[|steps| - 1];
      KnownIff(m, before, n);
      forall p ensures (n in Run(m, before).s.pending && Run(m, before).s.pending[n] == p) <==> RenameOpen(before, n, p) {
        PendingIff(m, before, n, p);
      }
      KnownAfterStep(Run(m, before), before, last, n);
      FailedOneMore(before, last, n);
      assert before + [last] == steps;
    }
  }
}
