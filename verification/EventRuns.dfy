/** Whole runs of the event loop, taken apart into elementary steps, and what holds
    at every one of them. */
module EventRuns {
  import opened EventLoop

  // ----- runs -----

  /** What the program around the framework does, one ready list of the kernel, one
      look at the time-outs, the passing of time. */
  datatype Step = Outside(action: Action) | Select(ready: seq<Ready>) | Timeouts | Clock(now: int)

  /** epoll_wait names registered descriptors only. */
  predicate Possible(n: Net, step: Step) {
    step.Select? ==> forall i | 0 <= i < |step.ready| :: step.ready[i].fd in n.kernel && step.ready[i].fd < |n.table|
  }

  function Take(n: Net, step: Step, env: Env): (r: Net)
    requires Fits(n) && Possible(n, step)
    ensures Fits(r)
  {
    match step
    case Outside(a) => Apply(n, a, env)
    case Select(ready) => DispatchAll(n, ready, env)
    case Timeouts => CheckFrom(n, 0, env)
    case Clock(now) => n.(now := now)
  }

  /** Steps that cannot happen are left out. */
  function Run(n: Net, steps: seq<Step>, env: Env): (r: Net)
    requires Fits(n)
    ensures Fits(r)
    decreases |steps|
  {
    if steps == [] then n else Run(if Possible(n, steps[0]) then Take(n, steps[0], env) else n, steps[1..], env)
  }

  // ----- elementary steps -----

  /** A call into the framework, by the program or by a handler; a handler being
      called; a time-out handler being taken out of the table to be called; a
      descriptor being closed because its time is out; time passing. */
  datatype Move = Act(action: Action) | Called(call: Call) | Disarmed(fd: nat) | Expired(fd: nat) | Ticked(now: int)

  function Do(n: Net, m: Move, env: Env): (r: Net)
    requires Fits(n)
    ensures Fits(r) && |r.table| == |n.table|
  {
    match m
    case Act(a) => Apply(n, a, env)
    case Called(call) => n.(calls := n.calls + [call])
    case Disarmed(fd) => if fd < |n.table| then n.(table := n.table[fd := n.table[fd].(timeoutHandler := 0)]) else n
    case Expired(fd) => Apply(n, Close(fd), env)
    case Ticked(now) => n.(now := now)
  }

  function DoAll(n: Net, ms: seq<Move>, env: Env): (r: Net)
    requires Fits(n)
    ensures Fits(r) && |r.table| == |n.table|
    decreases |ms|
  {
    if ms == [] then n else DoAll(Do(n, ms[0], env), ms[1..], env)
  }

  lemma {:induction false} DoConcat(n: Net, a: seq<Move>, b: seq<Move>, env: Env)
    requires Fits(n)
    ensures DoAll(n, a + b, env) == DoAll(DoAll(n, a, env), b, env)
    decreases |a|
  {
    hide Do;
    if a == [] {
      assert a + b == b;
    } else {
      assert (a + b)[1..] == a[1..] + b;
      DoConcat(Do(n, a[0], env), a[1..], b, env);
    }
  }

  lemma DoFirst(n: Net, m: Move, ms: seq<Move>, env: Env)
    requires Fits(n)
    ensures DoAll(n, [m] + ms, env) == DoAll(Do(n, m, env), ms, env)
  {
    assert ([m] + ms)[1..] == ms;
  }

  function Acts(n: Net, actions: seq<Action>, env: Env): (ms: seq<Move>)
    requires Fits(n)
    ensures DoAll(n, ms, env) == ApplyAll(n, actions, env)
    decreases |actions|
  {
    if actions == [] then []
    else
      var rest := Acts(Apply(n, actions[0], env), actions[1..], env);
      DoFirst(n, Act(actions[0]), rest, env);
      [Act(actions[0])] + rest
  }

  function Invoking(n: Net, call: Call, env: Env): (ms: seq<Move>)
    requires Fits(n)
    ensures DoAll(n, ms, env) == Invoke(n, call, env)
  {
    var rest := Acts(Do(n, Called(call), env), env.reacts(call, |n.calls|), env);
    DoFirst(n, Called(call), rest, env);
    [Called(call)] + rest
  }

  function Dispatching(n: Net, fd: nat, readEvent: bool, writeEvent: bool, env: Env): (ms: seq<Move>)
    requires Fits(n) && fd < |n.table|
    ensures DoAll(n, ms, env) == Dispatch(n, fd, readEvent, writeEvent, env)
  {
    var f := n.table[fd];
    var reading := if !n.aborted && f.readHandler != 0 && readEvent then Invoking(n, Call(f.readHandler, fd, f.readData), env) else [];
    var m := DoAll(n, reading, env);
    var g := m.table[fd];
    var writing := if !m.aborted && g.writeHandler != 0 && writeEvent then Invoking(m, Call(g.writeHandler, fd, g.writeData), env) else [];
    DoConcat(n, reading, writing, env);
    reading + writing
  }

  function DispatchingAll(n: Net, ready: seq<Ready>, env: Env): (ms: seq<Move>)
    requires Fits(n) && AllWithin(ready, |n.table|)
    ensures DoAll(n, ms, env) == DispatchAll(n, ready, env)
    decreases |ready|
  {
    if ready == [] then []
    else
      var e := ready[0];
      var first := Dispatching(n, e.fd, ForReading(e.events), ForWriting(e.events), env);
      var rest := DispatchingAll(DoAll(n, first, env), ready[1..], env);
      DoConcat(n, first, rest, env);
      first + rest
  }

  function CheckingOne(n: Net, fd: nat, env: Env): (ms: seq<Move>)
    requires Fits(n) && fd < |n.table|
    ensures DoAll(n, ms, env) == CheckOne(n, fd, env)
  {
    var f := n.table[fd];
    if n.aborted || f.timeout == 0 || f.timeout > n.now then []
    else if f.timeoutHandler != 0 then
      var rest := Invoking(Do(n, Disarmed(fd), env), Call(f.timeoutHandler, fd, f.timeoutData), env);
      DoFirst(n, Disarmed(fd), rest, env);
      [Disarmed(fd)] + rest
    else
      DoFirst(n, Expired(fd), [], env);
      [Expired(fd)] + []
  }

  function Checking(n: Net, fd: nat, env: Env): (ms: seq<Move>)
    requires Fits(n) && fd <= |n.table|
    ensures DoAll(n, ms, env) == CheckFrom(n, fd, env)
    decreases |n.table| - fd
  {
    if fd == |n.table| then []
    else
      var first := CheckingOne(n, fd, env);
      var rest := Checking(DoAll(n, first, env), fd + 1, env);
      DoConcat(n, first, rest, env);
      first + rest
  }

  function Taking(n: Net, step: Step, env: Env): (ms: seq<Move>)
    requires Fits(n) && Possible(n, step)
    ensures DoAll(n, ms, env) == Take(n, step, env)
  {
    match step
    case Outside(a) => DoFirst(n, Act(a), [], env); [Act(a)] + []
    case Select(ready) => DispatchingAll(n, ready, env)
    case Timeouts => Checking(n, 0, env)
    case Clock(now) => DoFirst(n, Ticked(now), [], env); [Ticked(now)] + []
  }

  /** Every run is a sequence of such moves. */
  function Moves(n: Net, steps: seq<Step>, env: Env): (ms: seq<Move>)
    requires Fits(n)
    ensures DoAll(n, ms, env) == Run(n, steps, env)
    decreases |steps|
  {
    if steps == [] then []
    else
      var first := if Possible(n, steps[0]) then Taking(n, steps[0], env) else [];
      var rest := Moves(DoAll(n, first, env), steps[1..], env);
      DoConcat(n, first, rest, env);
      first + rest
  }

  // ----- the invariant -----

  lemma DoKeeps(n: Net, m: Move, env: Env)
    requires Ok(n)
    ensures Ok(Do(n, m, env))
  {
    hide Apply, Nonzero;
    if m.Act? { ApplyKeeps(n, m.action, env); }
    if m.Expired? { ApplyKeeps(n, Close(m.fd), env); }
  }

  lemma {:induction false} DoAllKeeps(n: Net, ms: seq<Move>, env: Env)
    requires Ok(n)
    ensures Ok(DoAll(n, ms, env))
    decreases |ms|
  {
    hide Ok, Do;
    OkFits(n);
    if ms != [] {
      DoKeeps(n, ms[0], env);
      DoAllKeeps(Do(n, ms[0], env), ms[1..], env);
    }
  }

  /** Over every run, whatever the handlers do and whatever fails, the invariant holds. */
  lemma RunKeeps(n: Net, steps: seq<Step>, env: Env)
    requires Ok(n)
    ensures Ok(Run(n, steps, env))
  {
    hide Ok, Run, DoAll, Moves;
    OkFits(n);
    DoAllKeeps(n, Moves(n, steps, env), env);
  }

  /** From the start on: the counter is right, the kernel keeps interest in open
      descriptors only, and wherever the last epoll_ctl did not fail the shadow is
      what the kernel has. */
  lemma RunAgrees(size: nat, steps: seq<Step>, env: Env)
    ensures var n := Run(Created(size), steps, env);
      && n.fds == Nonzero(n.shadow)
      && (forall fd | fd in n.kernel :: fd in n.open)
      && forall fd | 0 <= fd < |n.shadow| && fd !in n.stale :: n.shadow[fd] == Interest(n.kernel, fd)
  {
    hide Run, Created, Nonzero, Interest;
    RunKeeps(Created(size), steps, env);
  }

  // ----- time-outs -----

  /** A time-out handler is taken out to be called, or a descriptor closed for its
      time-out, only while one is due, with or without a handler. */
  predicate Timely(n: Net, m: Move)
    requires Fits(n)
  {
    && (m.Disarmed? ==> !n.aborted && m.fd < |n.table| && Due(n, m.fd) && n.table[m.fd].timeoutHandler != 0)
    && (m.Expired? ==> !n.aborted && m.fd < |n.table| && Due(n, m.fd) && n.table[m.fd].timeoutHandler == 0)
  }

  predicate AllTimely(n: Net, ms: seq<Move>, env: Env)
    requires Fits(n)
    decreases |ms|
  {
    ms != [] ==> Timely(n, ms[0]) && AllTimely(Do(n, ms[0], env), ms[1..], env)
  }

  lemma {:induction false} TimelyConcat(n: Net, a: seq<Move>, b: seq<Move>, env: Env)
    requires Fits(n) && AllTimely(n, a, env) && AllTimely(DoAll(n, a, env), b, env)
    ensures AllTimely(n, a + b, env)
    decreases |a|
  {
    hide Do, Timely;
    if a == [] {
      assert a + b == b;
    } else {
      assert (a + b)[1..] == a[1..] + b;
      TimelyConcat(Do(n, a[0], env), a[1..], b, env);
    }
  }

  lemma TimelyFirst(n: Net, m: Move, ms: seq<Move>, env: Env)
    requires Fits(n) && Timely(n, m) && AllTimely(Do(n, m, env), ms, env)
    ensures AllTimely(n, [m] + ms, env)
  {
    assert ([m] + ms)[1..] == ms;
  }

  lemma {:induction false} ActsTimely(n: Net, actions: seq<Action>, env: Env)
    requires Fits(n)
    ensures AllTimely(n, Acts(n, actions, env), env)
    decreases |actions|
  {
    hide Apply;
    if actions != [] {
      var m := Act(actions[0]);
      ActsTimely(Do(n, m, env), actions[1..], env);
      TimelyFirst(n, m, Acts(Do(n, m, env), actions[1..], env), env);
    }
  }

  lemma InvokingTimely(n: Net, call: Call, env: Env)
    requires Fits(n)
    ensures AllTimely(n, Invoking(n, call, env), env)
  {
    hide Acts;
    var m := Called(call);
    ActsTimely(Do(n, m, env), env.reacts(call, |n.calls|), env);
    TimelyFirst(n, m, Acts(Do(n, m, env), env.reacts(call, |n.calls|), env), env);
  }

  lemma DispatchingTimely(n: Net, fd: nat, readEvent: bool, writeEvent: bool, env: Env)
    requires Fits(n) && fd < |n.table|
    ensures AllTimely(n, Dispatching(n, fd, readEvent, writeEvent, env), env)
  {
    hide Invoking, DoAll;
    DoNothing(n, env);
    var f := n.table[fd];
    InvokingTimely(n, Call(f.readHandler, fd, f.readData), env);
    var reading := if !n.aborted && f.readHandler != 0 && readEvent then Invoking(n, Call(f.readHandler, fd, f.readData), env) else [];
    var m := DoAll(n, reading, env);
    var g := m.table[fd];
    InvokingTimely(m, Call(g.writeHandler, fd, g.writeData), env);
    var writing := if !m.aborted && g.writeHandler != 0 && writeEvent then Invoking(m, Call(g.writeHandler, fd, g.writeData), env) else [];
    TimelyConcat(n, reading, writing, env);
  }

  lemma DoNothing(n: Net, env: Env)
    requires Fits(n)
    ensures DoAll(n, [], env) == n
  {
  }

  lemma {:induction false} DispatchingAllTimely(n: Net, ready: seq<Ready>, env: Env)
    requires Fits(n) && AllWithin(ready, |n.table|)
    ensures AllTimely(n, DispatchingAll(n, ready, env), env)
    decreases |ready|
  {
    hide Dispatching, DoAll, ForReading, ForWriting;
    if ready != [] {
      var e := ready[0];
      var first := Dispatching(n, e.fd, ForReading(e.events), ForWriting(e.events), env);
      DispatchingTimely(n, e.fd, ForReading(e.events), ForWriting(e.events), env);
      DispatchingAllTimely(DoAll(n, first, env), ready[1..], env);
      TimelyConcat(n, first, DispatchingAll(DoAll(n, first, env), ready[1..], env), env);
    }
  }

  lemma CheckingOneTimely(n: Net, fd: nat, env: Env)
    requires Fits(n) && fd < |n.table|
    ensures AllTimely(n, CheckingOne(n, fd, env), env)
  {
    hide Invoking, Apply;
    var f := n.table[fd];
    var call := Call(f.timeoutHandler, fd, f.timeoutData);
    if n.aborted || !Due(n, fd) {
    } else if f.timeoutHandler != 0 {
      InvokingTimely(Do(n, Disarmed(fd), env), call, env);
      TimelyFirst(n, Disarmed(fd), Invoking(Do(n, Disarmed(fd), env), call, env), env);
    } else {
      TimelyFirst(n, Expired(fd), [], env);
    }
  }

  lemma {:induction false} CheckingTimely(n: Net, fd: nat, env: Env)
    requires Fits(n) && fd <= |n.table|
    ensures AllTimely(n, Checking(n, fd, env), env)
    decreases |n.table| - fd
  {
    hide CheckingOne, DoAll;
    if fd < |n.table| {
      var first := CheckingOne(n, fd, env);
      CheckingOneTimely(n, fd, env);
      CheckingTimely(DoAll(n, first, env), fd + 1, env);
      TimelyConcat(n, first, Checking(DoAll(n, first, env), fd + 1, env), env);
    }
  }

  lemma TakingTimely(n: Net, step: Step, env: Env)
    requires Fits(n) && Possible(n, step)
    ensures AllTimely(n, Taking(n, step, env), env)
  {
    hide Apply, DispatchingAll, Checking;
    match step
    case Outside(a) => TimelyFirst(n, Act(a), [], env);
    case Select(ready) => DispatchingAllTimely(n, ready, env);
    case Timeouts => CheckingTimely(n, 0, env);
    case Clock(now) => TimelyFirst(n, Ticked(now), [], env);
  }

  /** Over every run, no time-out handler is called and no descriptor is closed for a
      time-out before its deadline, or without one. */
  lemma {:induction false} RunIsTimely(n: Net, steps: seq<Step>, env: Env)
    requires Fits(n)
    ensures AllTimely(n, Moves(n, steps, env), env)
    decreases |steps|
  {
    hide Taking, DoAll, Possible;
    if steps != [] {
      var first := if Possible(n, steps[0]) then Taking(n, steps[0], env) else [];
      if Possible(n, steps[0]) { TakingTimely(n, steps[0], env); }
      RunIsTimely(DoAll(n, first, env), steps[1..], env);
      TimelyConcat(n, first, Moves(DoAll(n, first, env), steps[1..], env), env);
    }
  }

  // ----- never both -----

  /** What the kernel has of a descriptor is interest in reading or in writing. */
  ghost predicate OneWay(n: Net) {
    forall fd | fd in n.kernel :: n.kernel[fd] == Mask(true, false) || n.kernel[fd] == Mask(false, true)
  }

  lemma SetOneWay(n: Net, fd: nat, needRead: bool, needWrite: bool, env: Env)
    requires OneWay(n) && fd < |n.shadow| && !(needRead && needWrite)
    ensures OneWay(SetEvents(n, fd, needRead, needWrite, env))
  {
    hide Mask;
    MaskIs(needRead, needWrite);
  }

  lemma DoOneWay(n: Net, m: Move, env: Env)
    requires Fits(n) && OneWay(n)
    ensures OneWay(Do(n, m, env))
  {
    hide Mask, SetEvents;
    if m.Expired? && !n.aborted && m.fd < |n.table| {
      SetOneWay(n.(table := n.table[m.fd := CLEARED]), m.fd, false, false, env);
    }
    if m.Act? && !n.aborted && 0 <= m.action.fd < |n.table| {
      match m.action
      case UpdateRead(fd, handler, data) =>
        SetOneWay(n.(table := n.table[fd := n.table[fd].(readHandler := handler, readData := data)]), fd, true, false, env);
      case UpdateWrite(fd, handler, data) =>
        SetOneWay(n.(table := n.table[fd := n.table[fd].(writeHandler := handler, writeData := data)]), fd, false, true, env);
      case Close(fd) =>
        SetOneWay(n.(table := n.table[fd := CLEARED]), fd, false, false, env);
      case _ =>
    }
  }

  lemma {:induction false} DoAllOneWay(n: Net, ms: seq<Move>, env: Env)
    requires Fits(n) && OneWay(n)
    ensures OneWay(DoAll(n, ms, env))
    decreases |ms|
  {
    hide OneWay, Do;
    if ms != [] {
      DoOneWay(n, ms[0], env);
      DoAllOneWay(Do(n, ms[0], env), ms[1..], env);
    }
  }

  /** Over every run no descriptor is ever registered for reading and writing at
      once, whatever is asked for and whatever fails. */
  lemma NeverBoth(size: nat, steps: seq<Step>, env: Env)
    ensures var n := Run(Created(size), steps, env);
      forall fd | fd in n.kernel :: EPOLLIN in n.kernel[fd] <==> EPOLLOUT !in n.kernel[fd]
  {
    hide Run, DoAll, Moves;
    DoAllOneWay(Created(size), Moves(Created(size), steps, env), env);
  }

  // ----- when shadow and kernel agree -----

  ghost predicate Agrees(n: Net) {
    forall fd | 0 <= fd < |n.shadow| :: n.shadow[fd] == Interest(n.kernel, fd)
  }

  /** A handler is set for a descriptor that is not open, or the epoll_ctl it takes is refused. */
  predicate Spoils(n: Net, m: Move, env: Env)
    requires Fits(n)
  {
    && m.Act? && (m.action.UpdateRead? || m.action.UpdateWrite?)
    && !n.aborted && 0 <= m.action.fd < |n.table|
    && (m.action.fd !in n.open
        || (Mask(m.action.UpdateRead?, m.action.UpdateWrite?) != n.shadow[m.action.fd] && env.refuses(n.ctls)))
  }

  ghost predicate AlwaysAgrees(n: Net, ms: seq<Move>, env: Env)
    requires Fits(n)
    decreases |ms|
  {
    Agrees(n) && (ms != [] ==> AlwaysAgrees(Do(n, ms[0], env), ms[1..], env))
  }

  predicate NeverSpoiled(n: Net, ms: seq<Move>, env: Env)
    requires Fits(n)
    decreases |ms|
  {
    ms != [] ==> !Spoils(n, ms[0], env) && NeverSpoiled(Do(n, ms[0], env), ms[1..], env)
  }

  lemma SetAgrees(n: Net, fd: nat, needRead: bool, needWrite: bool, env: Env)
    requires Ok(n) && n.stale == {} && fd < |n.shadow| && (needRead || needWrite)
    ensures var r := SetEvents(n, fd, needRead, needWrite, env);
      if fd !in n.open || (Mask(needRead, needWrite) != n.shadow[fd] && env.refuses(n.ctls)) then
        r.shadow[fd] != Interest(r.kernel, fd)
      else r.stale == {}
  {
    hide Mask, Nonzero;
    MaskIs(needRead, needWrite);
  }

  lemma CloseAgrees(n: Net, fd: nat, env: Env)
    requires Ok(n) && n.stale == {} && fd < |n.table|
    ensures CloseFd(n, fd, env).stale == {}
  {
    hide Mask, Nonzero;
  }

  lemma DoAgrees(n: Net, m: Move, env: Env)
    requires Ok(n) && n.stale == {}
    ensures if Spoils(n, m, env) then !Agrees(Do(n, m, env)) else Do(n, m, env).stale == {}
  {
    hide Mask, SetEvents, CloseFd, Nonzero, Interest;
    if m.Expired? && !n.aborted && m.fd < |n.table| { CloseAgrees(n, m.fd, env); }
    if m.Act? && !n.aborted && 0 <= m.action.fd < |n.table| {
      match m.action
      case UpdateRead(fd, handler, data) =>
        SetAgrees(n.(table := n.table[fd := n.table[fd].(readHandler := handler, readData := data)]), fd, true, false, env);
      case UpdateWrite(fd, handler, data) =>
        SetAgrees(n.(table := n.table[fd := n.table[fd].(writeHandler := handler, writeData := data)]), fd, false, true, env);
      case Close(fd) => CloseAgrees(n, fd, env);
      case _ =>
    }
  }

  lemma {:induction false} AgreesExactly(n: Net, ms: seq<Move>, env: Env)
    requires Ok(n) && n.stale == {}
    ensures AlwaysAgrees(n, ms, env) <==> NeverSpoiled(n, ms, env)
    decreases |ms|
  {
    hide Do, Spoils, Nonzero;
    if ms != [] {
      DoKeeps(n, ms[0], env);
      DoAgrees(n, ms[0], env);
      if !Spoils(n, ms[0], env) { AgreesExactly(Do(n, ms[0], env), ms[1..], env); }
    }
  }

  /** From the start on, shadow and kernel agree for all descriptors at every moment of
      a run if and only if handlers are set for open descriptors only and no
      epoll_ctl for it is refused; closing never disturbs them. */
  lemma RunAgreesExactly(size: nat, steps: seq<Step>, env: Env)
    ensures var ms := Moves(Created(size), steps, env);
      AlwaysAgrees(Created(size), ms, env) <==> NeverSpoiled(Created(size), ms, env)
  {
    hide Moves, AlwaysAgrees, NeverSpoiled;
    AgreesExactly(Created(size), Moves(Created(size), steps, env), env);
  }
}
