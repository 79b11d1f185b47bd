/** The polling loop with its pause flag and its one-slot notification channel.
    Suspend and Resume run under the poller's mutex, so each is one step; every
    read of the flag and every channel operation of the loop is another. */
module PollerLoop {

  datatype Pc =
    | Starting     // before the first pollOnce
    | Head         // about to read the flag at the top of the loop
    | Paused       // in the select of the paused branch
    | Woken        // took the token in the paused branch, about to re-read the flag
    | Deciding     // committed to a pollOnce
    | Polling      // inside pollOnce
    | Active       // in the select of the active branch
    | Exited

  datatype Loop = Loop(pc: Pc, suspended: bool, token: bool, tick: bool, stopped: bool)

  datatype Event =
    | Suspend | Resume | Stop | TickFires
    | ReadFlag | TakeToken | TakeTick | Reread | StartPoll | EndPoll | SeeStop

  const Init := Loop(Starting, false, false, false, false)

  /** One step; an event that is not enabled changes nothing. */
  function Next(s: Loop, ev: Event): Loop {
    match ev
    case Suspend => if s.suspended then s else s.(suspended := true, token := true)
    case Resume => if s.suspended then s.(suspended := false, token := true) else s
    case Stop => s.(stopped := true)
    case TickFires => s.(tick := true)
    case ReadFlag => if s.pc.Head? then s.(pc := if s.suspended then Paused else Active) else s
    case TakeToken =>
      if s.token && s.pc.Paused? then s.(pc := Woken, token := false)
      else if s.token && s.pc.Active? then s.(pc := Head, token := false)
      else s
    case TakeTick => if s.tick && s.pc.Active? then s.(pc := Deciding, tick := false) else s
    case Reread => if s.pc.Woken? then s.(pc := if s.suspended then Head else Deciding) else s
    case StartPoll => if s.pc.Starting? || s.pc.Deciding? then s.(pc := Polling) else s
    case EndPoll => if s.pc.Polling? then s.(pc := Head) else s
    case SeeStop => if s.stopped && (s.pc.Paused? || s.pc.Active?) then s.(pc := Exited) else s
  }

  function Run(s: Loop, evs: seq<Event>): Loop
    decreases |evs|
  {
    if evs == [] then s else Run(Next(s, evs[0]), evs[1..])
  }

  predicate Polls(s: Loop, ev: Event) {
    ev.StartPoll? && Next(s, ev).pc.Polling? && !s.pc.Polling?
  }

  /** How many polls start during a run. */
  function PollCount(s: Loop, evs: seq<Event>): nat
    decreases |evs|
  {
    if evs == [] then 0
    else (if Polls(s, evs[0]) then 1 else 0) + PollCount(Next(s, evs[0]), evs[1..])
  }

  /** A select that waits under an outdated flag always has a token to take. */
  predicate NoLostWakeup(s: Loop) {
    (s.pc.Paused? && !s.suspended ==> s.token) && (s.pc.Active? && s.suspended ==> s.token)
  }

  lemma NoLostWakeupNext(s: Loop, ev: Event)
    requires NoLostWakeup(s)
    ensures NoLostWakeup(Next(s, ev))
  {
  }

  /** Under any mix of Suspend, Resume, ticks and loop steps, no wake-up is lost. */
  lemma {:induction false} NoLostWakeupRun(s: Loop, evs: seq<Event>)
    requires NoLostWakeup(s)
    ensures NoLostWakeup(Run(s, evs))
    decreases |evs|
  {
    if evs != [] {
      NoLostWakeupNext(s, evs[0]);
      NoLostWakeupRun(Next(s, evs[0]), evs[1..]);
    }
  }

  // ---- bounded polling while suspended ----

  /** The polls still owed under suspension, by the loop's position. */
  function Owed(pc: Pc): nat {
    if pc.Starting? || pc.Deciding? || pc.Active? then 1 else 0
  }

  lemma OwedNext(s: Loop, ev: Event)
    requires s.suspended && ev != Resume
    ensures Next(s, ev).suspended
    ensures (if Polls(s, ev) then 1 else 0) + Owed(Next(s, ev).pc) <= Owed(s.pc)
  {
  }

  /** From the moment the flag is set until a Resume clears it, at most one poll
      starts, and none if the loop was not already committed or in the active select. */
  lemma {:induction false} SuspendBoundsPolls(s: Loop, evs: seq<Event>)
    requires s.suspended && Resume !in evs
    ensures PollCount(s, evs) <= Owed(s.pc) <= 1
    decreases |evs|
  {
    if evs != [] {
      OwedNext(s, evs[0]);
      SuspendBoundsPolls(Next(s, evs[0]), evs[1..]);
    }
  }

  /** The bound is met from every such position: that one poll can really happen. */
  lemma SuspendBoundMet(s: Loop) returns (evs: seq<Event>)
    requires s.suspended && Owed(s.pc) == 1
    ensures Resume !in evs && PollCount(s, evs) == 1
  {
    if s.pc.Active? {
      evs := [TickFires, TakeTick, StartPoll];
      var s1 := Next(s, TickFires);
      var s2 := Next(s1, TakeTick);
      assert evs[1..] == [TakeTick, StartPoll] && evs[1..][1..] == [StartPoll] && evs[1..][1..][1..] == [];
      assert PollCount(s2, [StartPoll]) == 1 + PollCount(Next(s2, StartPoll), []);
    } else {
      evs := [StartPoll];
      assert PollCount(s, evs) == 1 + PollCount(Next(s, StartPoll), []);
    }
  }

  // ---- what Resume triggers ----

  predicate Blocked(s: Loop) {
    s.pc.Exited? || ((s.pc.Paused? || s.pc.Active?) && !s.token)
  }

  /** The loop's own next step when no tick and no stop interferes. */
  function OwnStep(s: Loop): Event
    requires !Blocked(s)
  {
    match s.pc
    case Starting => StartPoll
    case Deciding => StartPoll
    case Polling => EndPoll
    case Head => ReadFlag
    case Woken => Reread
    case _ => TakeToken
  }

  function Distance(s: Loop): nat {
    (if s.token then 10 else 0) +
    match s.pc
    case Starting => 5
    case Deciding => 5
    case Woken => 6
    case Polling => 4
    case Head => 3
    case _ => 2
  }

  /** The steps the loop takes by itself until it waits. */
  function Settle(s: Loop): (evs: seq<Event>)
    decreases Distance(s)
  {
    if Blocked(s) then [] else [OwnStep(s)] + Settle(Next(s, OwnStep(s)))
  }

  lemma SettleUnfold(s: Loop)
    requires !Blocked(s)
    ensures PollCount(s, Settle(s)) ==
              (if Polls(s, OwnStep(s)) then 1 else 0) + PollCount(Next(s, OwnStep(s)), Settle(Next(s, OwnStep(s))))
    ensures Run(s, Settle(s)) == Run(Next(s, OwnStep(s)), Settle(Next(s, OwnStep(s))))
  {
    assert Settle(s)[1..] == Settle(Next(s, OwnStep(s)));
  }

  /** With the flag clear the loop settles in the active select, with no token left. */
  lemma {:induction false} SettleActive(s: Loop)
    requires !s.suspended && !s.pc.Exited? && NoLostWakeup(s)
    ensures Run(s, Settle(s)).pc.Active? && !Run(s, Settle(s)).token
    ensures PollCount(s, Settle(s)) ==
              if s.pc.Starting? || s.pc.Deciding? || s.pc.Woken? || s.pc.Paused? then 1 else 0
    decreases Distance(s)
  {
    if !Blocked(s) {
      SettleUnfold(s);
      NoLostWakeupNext(s, OwnStep(s));
      SettleActive(Next(s, OwnStep(s)));
    }
  }

  /** Resume polls at once, without waiting for a tick, exactly when the loop is in
      the paused wait, has just been woken there, or was about to poll anyway.  In
      particular a Resume that lands between the paused re-check and the next read
      of the flag, or during a poll, or before the loop noticed the suspension,
      spends its token without a poll. */
  lemma ResumePollsExact(s: Loop)
    requires s.suspended && !s.pc.Exited? && NoLostWakeup(s)
    ensures var r := Next(s, Resume);
            && (PollCount(r, Settle(r)) > 0 <==> s.pc.Paused? || s.pc.Woken? || s.pc.Starting? || s.pc.Deciding?)
            && PollCount(r, Settle(r)) <= 1
            && Run(r, Settle(r)).pc.Active?
  {
    NoLostWakeupNext(s, Resume);
    SettleActive(Next(s, Resume));
  }

  lemma {:induction false} RunConcat(s: Loop, a: seq<Event>, b: seq<Event>)
    ensures Run(s, a + b) == Run(Run(s, a), b)
    decreases |a|
  {
    if a == [] {
      assert a + b == b;
    } else {
      assert (a + b)[1..] == a[1..] + b;
      RunConcat(Next(s, a[0]), a[1..], b);
    }
  }

  /** That lost poll happens in a real run. */
  lemma ResumeWithoutPoll() returns (evs: seq<Event>)
    ensures var s := Run(Init, evs); s.suspended && PollCount(Next(s, Resume), Settle(Next(s, Resume))) == 0
  {
    evs := [StartPoll, EndPoll, Suspend];
    assert evs[1..] == [EndPoll, Suspend] && evs[1..][1..] == [Suspend] && evs[1..][1..][1..] == [];
    var s := Next(Next(Next(Init, StartPoll), EndPoll), Suspend);
    assert Run(Init, evs) == Run(Next(Init, StartPoll), evs[1..])
      == Run(Next(Next(Init, StartPoll), EndPoll), evs[1..][1..]) == Run(s, []);
    ResumePollsExact(s);
  }

  // ---- stopping ----

  /** Neither the user nor the clock: the loop's own steps. */
  predicate Own(ev: Event) {
    !ev.Suspend? && !ev.Resume? && !ev.Stop? && !ev.TickFires?
  }

  lemma OneStep(s: Loop, ev: Event, evs: seq<Event>)
    ensures Run(s, [ev] + evs) == Run(Next(s, ev), evs)
    ensures PollCount(s, [ev] + evs) == (if Polls(s, ev) then 1 else 0) + PollCount(Next(s, ev), evs)
  {
    assert ([ev] + evs)[1..] == evs;
  }

  lemma StopFromHead(s: Loop)
    requires s.stopped && s.pc.Head?
    ensures Run(s, [ReadFlag, SeeStop]).pc.Exited? && PollCount(s, [ReadFlag, SeeStop]) == 0
  {
    assert [ReadFlag] + [SeeStop] == [ReadFlag, SeeStop] && [SeeStop] + [] == [SeeStop];
    OneStep(s, ReadFlag, [SeeStop]);
    OneStep(Next(s, ReadFlag), SeeStop, []);
  }

  lemma StopFromPoll(s: Loop)
    requires s.stopped && s.pc.Polling?
    ensures Run(s, [EndPoll, ReadFlag, SeeStop]).pc.Exited? && PollCount(s, [EndPoll, ReadFlag, SeeStop]) == 0
  {
    assert [EndPoll] + [ReadFlag, SeeStop] == [EndPoll, ReadFlag, SeeStop];
    OneStep(s, EndPoll, [ReadFlag, SeeStop]);
    StopFromHead(Next(s, EndPoll));
  }

  lemma StopFromDeciding(s: Loop)
    requires s.stopped && (s.pc.Starting? || s.pc.Deciding?)
    ensures Run(s, [StartPoll, EndPoll, ReadFlag, SeeStop]).pc.Exited?
    ensures PollCount(s, [StartPoll, EndPoll, ReadFlag, SeeStop]) == 1
  {
    assert [StartPoll] + [EndPoll, ReadFlag, SeeStop] == [StartPoll, EndPoll, ReadFlag, SeeStop];
    OneStep(s, StartPoll, [EndPoll, ReadFlag, SeeStop]);
    StopFromPoll(Next(s, StartPoll));
  }

  /** A stopped loop needs nobody to end: from every position at most five of its own
      steps, with at most the one poll it was committed to. */
  lemma StopExits(s: Loop) returns (evs: seq<Event>)
    requires s.stopped
    ensures |evs| <= 5 && (forall i :: 0 <= i < |evs| ==> Own(evs[i]))
    ensures Run(s, evs).pc.Exited? && PollCount(s, evs) <= 1
    ensures PollCount(s, evs) == 1 ==> s.pc.Starting? || s.pc.Deciding? || (s.pc.Woken? && !s.suspended)
  {
    if s.pc.Exited? {
      evs := [];
    } else if s.pc.Starting? || s.pc.Deciding? {
      evs := [StartPoll, EndPoll, ReadFlag, SeeStop];
      StopFromDeciding(s);
    } else if s.pc.Polling? {
      evs := [EndPoll, ReadFlag, SeeStop];
      StopFromPoll(s);
    } else if s.pc.Head? {
      evs := [ReadFlag, SeeStop];
      StopFromHead(s);
    } else if s.pc.Woken? && s.suspended {
      evs := [Reread] + [ReadFlag, SeeStop];
      OneStep(s, Reread, [ReadFlag, SeeStop]);
      StopFromHead(Next(s, Reread));
    } else if s.pc.Woken? {
      evs := [Reread] + [StartPoll, EndPoll, ReadFlag, SeeStop];
      OneStep(s, Reread, [StartPoll, EndPoll, ReadFlag, SeeStop]);
      StopFromDeciding(Next(s, Reread));
    } else {
      evs := [SeeStop];
      OneStep(s, SeeStop, []);
      assert [SeeStop] + [] == [SeeStop];
    }
  }

  /** Nothing leaves the exit, and no poll happens there. */
  lemma {:induction false} ExitedForever(s: Loop, evs: seq<Event>)
    requires s.pc.Exited?
    ensures Run(s, evs).pc.Exited? && PollCount(s, evs) == 0
    decreases |evs|
  {
    if evs != [] { ExitedForever(Next(s, evs[0]), evs[1..]); }
  }

  /** The loop ends only when it was told to, whatever else happened. */
  lemma {:induction false} ExitsOnlyStopped(s: Loop, evs: seq<Event>)
    requires !s.stopped && !s.pc.Exited?
    ensures Stop !in evs ==> !Run(s, evs).pc.Exited? && !Run(s, evs).stopped
    decreases |evs|
  {
    if evs != [] && evs[0] != Stop { ExitsOnlyStopped(Next(s, evs[0]), evs[1..]); }
  }

  // ---- the object ----

  /** What the loop does next from pc, when a select would take choice. */
  function EventAt(pc: Pc, choice: Event): Event {
    match pc
    case Starting => StartPoll
    case Deciding => StartPoll
    case Polling => EndPoll
    case Head => ReadFlag
    case Woken => Reread
    case _ => choice
  }

  class Poller {
    var suspended: bool
    var notify: bool        // the buffered channel holds a token
    var ticker: bool
    var stop: bool
    var pc: Pc

    function View(): Loop
      reads this
    {
      Loop(pc, suspended, notify, ticker, stop)
    }

    constructor ()
      ensures View() == Init
    {
      suspended, notify, ticker, stop, pc := false, false, false, false, Starting;
    }

    /** A non-blocking send: a full slot already carries the news. */
    method Wake()
      modifies this`notify
      ensures notify
    {
      if !notify {
        notify := true;
      }
    }

    method DoSuspend()
      modifies this
      ensures View() == Next(old(View()), Suspend)
    {
      if !suspended {
        suspended := true;
        Wake();
      }
    }

    method DoResume()
      modifies this
      ensures View() == Next(old(View()), Resume)
    {
      if suspended {
        suspended := false;
        Wake();
      }
    }

    /** One step of Start's loop; choice says which case a select takes, if it is
        ready.  polled reports that this step enters pollOnce. */
    method Advance(choice: Event) returns (polled: bool)
      requires choice.TakeToken? || choice.TakeTick? || choice.SeeStop?
      modifies this
      ensures View() == Next(old(View()), EventAt(old(pc), choice))
      ensures polled <==> Polls(old(View()), EventAt(old(pc), choice))
    {
      polled := false;
      match pc
      case Starting => pc, polled := Polling, true;
      case Deciding => pc, polled := Polling, true;
      case Polling => pc := Head;
      case Head => if suspended { pc := Paused; } else { pc := Active; }
      case Woken => if !suspended { pc := Deciding; } else { pc := Head; }
      case Paused =>
        if choice == TakeToken && notify {
          notify, pc := false, Woken;
        } else if choice == SeeStop && stop {
          pc := Exited;
        }
      case Active =>
        if choice == TakeToken && notify {
          notify, pc := false, Head;
        } else if choice == TakeTick && ticker {
          ticker, pc := false, Deciding;
        } else if choice == SeeStop && stop {
          pc := Exited;
        }
      case Exited =>
    }
  }
}
