/** The epoll framework: a table of handlers, a shadow of the kernel's interest
    set, and the kernel itself, as a value. Handlers are arbitrary: what one does
    is a list of calls into the framework, chosen by an oracle. */
module EventLoop {
  datatype Flag = EPOLLIN | EPOLLOUT | EPOLLERR | EPOLLHUP

  /** A word of event bits, as the set of those that are on. */
  type Events = set<Flag>

  /** A handler or its data; 0 is NULL. */
  type Pointer = nat

  datatype Fde = Fde(readHandler: Pointer, readData: Pointer, writeHandler: Pointer, writeData: Pointer,
                     timeoutHandler: Pointer, timeout: int, timeoutData: Pointer)

  const CLEARED: Fde := Fde(0, 0, 0, 0, 0, 0, 0)

  datatype Call = Call(handler: Pointer, fd: int, data: Pointer)

  /** What handlers and the program around them do. */
  datatype Action =
    | Opened(fd: int)
    | UpdateRead(fd: int, handler: Pointer, data: Pointer)
    | UpdateWrite(fd: int, handler: Pointer, data: Pointer)
    | SetTimeout(fd: int, timeout: int, handler: Pointer, data: Pointer)
    | Close(fd: int)

  /** What is outside: whether the kernel refuses its n-th epoll_ctl for want of
      something, and what the n-th handler called does. */
  datatype Env = Env(refuses: nat -> bool, reacts: (Call, nat) -> seq<Action>)

  /** aborted: an assertion failed, or a descriptor was outside the table. stale: the
      descriptors whose last epoll_ctl failed. */
  datatype Net = Net(table: seq<Fde>, shadow: seq<Events>, fds: int, now: int,
                     kernel: map<int, Events>, open: set<int>, ctls: nat, stale: set<int>, calls: seq<Call>, aborted: bool)

  // ----- epollSetEvents -----

  function Mask(needRead: bool, needWrite: bool): Events {
    var ev := (if needRead then {EPOLLIN} else {}) + (if needWrite then {EPOLLOUT} else {});
    if ev != {} then ev + {EPOLLHUP, EPOLLERR} else ev
  }

  datatype Op = Add | Mod | Del

  function CtlOp(was: Events, ev: Events): Op {
    if ev == {} then Del else if was != {} then Mod else Add
  }

  /** epoll_ctl(2): adding wants an open descriptor that is not there, the others one that is. */
  predicate Accepts(n: Net, op: Op, fd: int) {
    fd in n.open && (op.Add? <==> fd !in n.kernel)
  }

  function Kernel(k: map<int, Events>, op: Op, fd: int, ev: Events): map<int, Events> {
    if op.Del? then k - {fd} else k[fd := ev]
  }

  function SetEvents(n: Net, fd: nat, needRead: bool, needWrite: bool, env: Env): Net
    requires fd < |n.shadow|
  {
    var ev := Mask(needRead, needWrite);
    if ev == n.shadow[fd] then n
    else
      var op := CtlOp(n.shadow[fd], ev);
      var ok := Accepts(n, op, fd) && !env.refuses(n.ctls);
      n.(shadow := n.shadow[fd := ev], ctls := n.ctls + 1,
         fds := n.fds + (if op.Add? then 1 else if op.Del? then -1 else 0),
         kernel := if ok then Kernel(n.kernel, op, fd, ev) else n.kernel,
         stale := if ok then n.stale - {fd} else n.stale + {fd})
  }

  // ----- the calls into the framework -----

  predicate Fits(n: Net) {
    |n.table| == |n.shadow|
  }

  /** comm_close: the entry is cleared, interest withdrawn, and close(2) drops what the kernel still has. */
  function CloseFd(n: Net, fd: nat, env: Env): (r: Net)
    requires Fits(n) && fd < |n.table|
    ensures Fits(r) && |r.table| == |n.table|
  {
    if fd == 0 then n.(aborted := true)
    else
      var r := SetEvents(n.(table := n.table[fd := CLEARED]), fd, false, false, env);
      r.(open := r.open - {fd}, kernel := r.kernel - {fd}, stale := r.stale - {fd})
  }

  /** commSetTimeout */
  function Timed(n: Net, fd: nat, timeout: int, handler: Pointer, data: Pointer): (r: Net)
    requires Fits(n) && fd < |n.table|
    ensures Fits(r) && |r.table| == |n.table|
  {
    var f := n.table[fd];
    if timeout < 0 then n.(table := n.table[fd := f.(timeoutHandler := 0, timeoutData := 0, timeout := 0)])
    else if handler == 0 && f.timeoutHandler == 0 then n.(aborted := true)
    else
      var g := if handler != 0 || data != 0 then f.(timeoutHandler := handler, timeoutData := data) else f;
      n.(table := n.table[fd := g.(timeout := n.now + timeout)])
  }

  function Apply(n: Net, a: Action, env: Env): (r: Net)
    requires Fits(n)
    ensures Fits(r) && |r.table| == |n.table| && r.calls == n.calls
  {
    if n.aborted then n
    else if !(0 <= a.fd < |n.table|) then n.(aborted := true)
    else
      match a
      case Opened(fd) => n.(open := n.open + {fd})
      case UpdateRead(fd, handler, data) =>
        SetEvents(n.(table := n.table[fd := n.table[fd].(readHandler := handler, readData := data)]), fd, true, false, env)
      case UpdateWrite(fd, handler, data) =>
        SetEvents(n.(table := n.table[fd := n.table[fd].(writeHandler := handler, writeData := data)]), fd, false, true, env)
      case SetTimeout(fd, timeout, handler, data) => Timed(n, fd, timeout, handler, data)
      case Close(fd) => CloseFd(n, fd, env)
  }

  function ApplyAll(n: Net, actions: seq<Action>, env: Env): (r: Net)
    requires Fits(n)
    ensures Fits(r) && |r.table| == |n.table| && r.calls == n.calls
    decreases |actions|
  {
    if actions == [] then n else ApplyAll(Apply(n, actions[0], env), actions[1..], env)
  }

  /** hdl(fd, hdl_data) */
  function Invoke(n: Net, call: Call, env: Env): (r: Net)
    requires Fits(n)
    ensures Fits(r) && |r.table| == |n.table| && r.calls == n.calls + [call]
  {
    ApplyAll(n.(calls := n.calls + [call]), env.reacts(call, |n.calls|), env)
  }

  /** comm_call_handlers: the write handler is looked up when the read handler is done. */
  function Dispatch(n: Net, fd: nat, readEvent: bool, writeEvent: bool, env: Env): (r: Net)
    requires Fits(n) && fd < |n.table|
    ensures Fits(r) && |r.table| == |n.table|
  {
    var f := n.table[fd];
    var m := if !n.aborted && f.readHandler != 0 && readEvent then Invoke(n, Call(f.readHandler, fd, f.readData), env) else n;
    var g := m.table[fd];
    if !m.aborted && g.writeHandler != 0 && writeEvent then Invoke(m, Call(g.writeHandler, fd, g.writeData), env) else m
  }

  /** A ready descriptor, as epoll_wait fills it in. */
  datatype Ready = Ready(fd: nat, events: Events)

  predicate AllWithin(ready: seq<Ready>, size: nat) {
    forall i | 0 <= i < |ready| :: ready[i].fd < size
  }

  /** events & ~EPOLLOUT, and events & ~EPOLLIN, as conditions. */
  predicate ForReading(events: Events) { events - {EPOLLOUT} != {} }

  predicate ForWriting(events: Events) { events - {EPOLLIN} != {} }

  /** The loop of do_epoll_select. */
  function DispatchAll(n: Net, ready: seq<Ready>, env: Env): (r: Net)
    requires Fits(n) && AllWithin(ready, |n.table|)
    ensures Fits(r) && |r.table| == |n.table|
    decreases |ready|
  {
    if ready == [] then n
    else
      var e := ready[0];
      DispatchAll(Dispatch(n, e.fd, ForReading(e.events), ForWriting(e.events), env), ready[1..], env)
  }

  /** One turn of checkTimeouts. */
  function CheckOne(n: Net, fd: nat, env: Env): (r: Net)
    requires Fits(n) && fd < |n.table|
    ensures Fits(r) && |r.table| == |n.table|
  {
    var f := n.table[fd];
    if n.aborted || f.timeout == 0 || f.timeout > n.now then n
    else if f.timeoutHandler != 0 then
      Invoke(n.(table := n.table[fd := f.(timeoutHandler := 0)]), Call(f.timeoutHandler, fd, f.timeoutData), env)
    else CloseFd(n, fd, env)
  }

  function CheckFrom(n: Net, fd: nat, env: Env): (r: Net)
    requires Fits(n) && fd <= |n.table|
    ensures Fits(r) && |r.table| == |n.table|
    decreases |n.table| - fd
  {
    if fd == |n.table| then n else CheckFrom(CheckOne(n, fd, env), fd + 1, env)
  }

  // ----- the invariant -----

  function Nonzero(s: seq<Events>): nat {
    if s == [] then 0 else Nonzero(s[..|s| - 1]) + if s[|s| - 1] != {} then 1 else 0
  }

  function Interest(k: map<int, Events>, fd: int): Events {
    if fd in k then k[fd] else {}
  }

  /** The count is right whatever fails; the shadow is right wherever the last epoll_ctl did not. */
  ghost predicate Ok(n: Net) {
    && Fits(n)
    && n.fds == Nonzero(n.shadow)
    && (forall fd | fd in n.kernel :: fd in n.open && n.kernel[fd] != {} && 0 <= fd < |n.shadow|)
    && forall fd | 0 <= fd < |n.shadow| && fd !in n.stale :: n.shadow[fd] == Interest(n.kernel, fd)
  }

  lemma {:induction false} NonzeroUpdate(s: seq<Events>, i: nat, v: Events)
    requires i < |s|
    ensures Nonzero(s[i := v]) == Nonzero(s) - (if s[i] != {} then 1 else 0) + if v != {} then 1 else 0
    decreases |s|
  {
    var t := s[i := v];
    if i == |s| - 1 {
      assert t[..|s| - 1] == s[..|s| - 1];
    } else {
      assert t[..|s| - 1] == s[..|s| - 1][i := v];
      NonzeroUpdate(s[..|s| - 1], i, v);
    }
  }

  lemma SetEventsKeeps(n: Net, fd: nat, needRead: bool, needWrite: bool, env: Env)
    requires Ok(n) && fd < |n.shadow|
    ensures var r := SetEvents(n, fd, needRead, needWrite, env); Ok(r) && r.table == n.table && r.open == n.open
  {
    hide Mask, Nonzero;
    NonzeroUpdate(n.shadow, fd, Mask(needRead, needWrite));
  }

  lemma CloseKeeps(n: Net, fd: nat, env: Env)
    requires Ok(n) && fd < |n.table|
    ensures Ok(CloseFd(n, fd, env))
  {
    hide Nonzero, Mask;
    if fd > 0 {
      var m := n.(table := n.table[fd := CLEARED]);
      SetEventsKeeps(m, fd, false, false, env);
      var r := SetEvents(m, fd, false, false, env);
      ClearedShadow(m, fd, env);
    }
  }

  lemma ClearedShadow(n: Net, fd: nat, env: Env)
    requires fd < |n.shadow|
    ensures SetEvents(n, fd, false, false, env).shadow == n.shadow[fd := {}]
  {
  }

  lemma ApplyKeeps(n: Net, a: Action, env: Env)
    requires Ok(n)
    ensures Ok(Apply(n, a, env))
  {
    hide SetEvents, CloseFd, Nonzero;
    if !n.aborted && 0 <= a.fd < |n.table| {
      match a
      case Opened(fd) =>
      case UpdateRead(fd, handler, data) =>
        SetEventsKeeps(n.(table := n.table[fd := n.table[fd].(readHandler := handler, readData := data)]), fd, true, false, env);
      case UpdateWrite(fd, handler, data) =>
        SetEventsKeeps(n.(table := n.table[fd := n.table[fd].(writeHandler := handler, writeData := data)]), fd, false, true, env);
      case SetTimeout(fd, timeout, handler, data) =>
      case Close(fd) => CloseKeeps(n, fd, env);
    }
  }

  lemma OkFits(n: Net)
    requires Ok(n)
    ensures Fits(n)
  {
  }

  // ----- comm_init -----

  function Zeros(size: nat): seq<Events> {
    if size == 0 then [] else Zeros(size - 1) + [{}]
  }

  lemma {:induction false} ZerosAreZero(size: nat)
    ensures |Zeros(size)| == size && (forall i | 0 <= i < size :: Zeros(size)[i] == {}) && Nonzero(Zeros(size)) == 0
  {
    if size > 0 {
      ZerosAreZero(size - 1);
      assert Zeros(size)[..size - 1] == Zeros(size - 1);
    }
  }

  function Created(size: nat): (n: Net)
    ensures Ok(n) && |n.table| == size && n.kernel == map[] && n.stale == {}
  {
    ZerosAreZero(size);
    Net(seq(size, i => CLEARED), Zeros(size), 0, 0, map[], {}, 0, {}, [], false)
  }

  // ----- what epollSetEvents asks of the kernel -----

  lemma MaskIs(needRead: bool, needWrite: bool)
    ensures Mask(needRead, needWrite) == {} <==> !needRead && !needWrite
    ensures Mask(true, false) != Mask(false, true)
  {
    assert EPOLLIN in Mask(true, false) && EPOLLOUT in Mask(needRead, true) && EPOLLIN in Mask(true, needWrite);
    assert EPOLLIN !in Mask(false, true);
  }

  /** Interest is asked for in what is needed, and with either in errors and hang-ups. */
  lemma MaskExactly(needRead: bool, needWrite: bool)
    ensures var ev := Mask(needRead, needWrite);
      && (EPOLLIN in ev <==> needRead) && (EPOLLOUT in ev <==> needWrite)
      && (EPOLLHUP in ev <==> needRead || needWrite) && (EPOLLERR in ev <==> needRead || needWrite)
  {
  }

  /** The operation asked for is the one the kernel can do, and afterwards the
      shadow agrees with the kernel exactly when it was done: when the descriptor
      is open and nothing was refused. */
  lemma SetEventsExactly(n: Net, fd: nat, needRead: bool, needWrite: bool, env: Env)
    requires Ok(n) && fd < |n.shadow| && fd !in n.stale && Mask(needRead, needWrite) != n.shadow[fd]
    ensures var ev := Mask(needRead, needWrite); var op := CtlOp(n.shadow[fd], ev); var r := SetEvents(n, fd, needRead, needWrite, env);
      && (op.Add? <==> fd !in n.kernel)
      && (r.shadow[fd] == Interest(r.kernel, fd) <==> fd in n.open && !env.refuses(n.ctls))
      && (fd in r.stale <==> !(fd in n.open && !env.refuses(n.ctls)))
      && r.shadow[fd] == ev
  {
    hide Mask, Nonzero;
  }

  /** The kernel has no interest where the shadow says it has. */
  ghost predicate Lost(n: Net, fd: nat) {
    Fits(n) && fd < |n.shadow| && fd !in n.kernel && n.shadow[fd] != {}
  }

  /** Adding a descriptor that the kernel does not have fails, and is then lost, if
      and only if it is not open or the kernel refuses. */
  lemma FailedAddIsLost(n: Net, fd: nat, needRead: bool, needWrite: bool, env: Env)
    requires Ok(n) && fd < |n.shadow| && fd !in n.kernel && n.shadow[fd] == {} && (needRead || needWrite)
    ensures Lost(SetEvents(n, fd, needRead, needWrite, env), fd) <==> !(fd in n.open && !env.refuses(n.ctls))
  {
    hide Mask, Nonzero;
    MaskIs(needRead, needWrite);
  }

  /** When adding has failed, nothing but closing it gets the descriptor registered
      again: every later epoll_ctl is a modification, which fails as well. */
  lemma {:induction false} RefusedAddSticks(n: Net, fd: nat, actions: seq<Action>, env: Env)
    requires Lost(n, fd) && forall i | 0 <= i < |actions| :: actions[i] != Close(fd)
    ensures Lost(ApplyAll(n, actions, env), fd)
    decreases |actions|
  {
    hide Mask, Apply;
    if actions != [] {
      ActionLeavesLost(n, fd, actions[0], env);
      RefusedAddSticks(Apply(n, actions[0], env), fd, actions[1..], env);
    }
  }

  lemma ActionLeavesLost(n: Net, fd: nat, a: Action, env: Env)
    requires Lost(n, fd) && a != Close(fd)
    ensures Lost(Apply(n, a, env), fd)
  {
    hide Mask;
    MaskIs(true, false);
    MaskIs(false, true);
  }

  /** Closing brings the two together again, whatever happened to the descriptor
      before; and when it is used anew, it is added anew. */
  lemma CloseHeals(n: Net, fd: nat, handler: Pointer, data: Pointer, env: Env)
    requires Ok(n) && 0 < fd < |n.table| && !n.aborted
    ensures var r := CloseFd(n, fd, env);
      && fd !in r.open && fd !in r.kernel && r.shadow[fd] == {} && fd !in r.stale && r.table[fd] == CLEARED
      && var m := Apply(Apply(r, Opened(fd), env), UpdateRead(fd, handler, data), env);
         fd in m.kernel <==> !env.refuses(r.ctls)
  {
    hide Mask, Nonzero;
    MaskIs(false, false);
    MaskIs(true, false);
  }

  /** Asking for one kind of event drops the other, though its handler stays in the table. */
  lemma LastUpdateWins(n: Net, fd: nat, rh: Pointer, rd: Pointer, wh: Pointer, wd: Pointer, env: Env)
    requires Ok(n) && 0 < fd < |n.table| && !n.aborted && fd in n.open && fd !in n.stale && forall i :: !env.refuses(i)
    ensures var r := Apply(Apply(n, UpdateWrite(fd, wh, wd), env), UpdateRead(fd, rh, rd), env);
      && Interest(r.kernel, fd) == Mask(true, false)
      && r.table[fd].writeHandler == wh && r.table[fd].readHandler == rh
    ensures var r := Apply(Apply(n, UpdateRead(fd, rh, rd), env), UpdateWrite(fd, wh, wd), env);
      && Interest(r.kernel, fd) == Mask(false, true)
      && r.table[fd].writeHandler == wh && r.table[fd].readHandler == rh
  {
    hide Mask, Nonzero;
    MaskIs(true, false);
    MaskIs(false, true);
  }

  // ----- which handlers an event calls -----

  /** An event for reading only calls no write handler; an error or a hang-up is for both. */
  lemma WhatEventsMean(events: Events)
    ensures !ForWriting(events) <==> events == {} || events == {EPOLLIN}
    ensures !ForReading(events) <==> events == {} || events == {EPOLLOUT}
    ensures EPOLLHUP in events || EPOLLERR in events ==> ForReading(events) && ForWriting(events)
  {
    assert EPOLLHUP in events ==> EPOLLHUP in events - {EPOLLIN} && EPOLLHUP in events - {EPOLLOUT};
    assert EPOLLERR in events ==> EPOLLERR in events - {EPOLLIN} && EPOLLERR in events - {EPOLLOUT};
  }

  /** The write handler and its data after the actions, as the last of them that
      concerns it left them. */
  function Writer(actions: seq<Action>, fd: int, was: (Pointer, Pointer)): (Pointer, Pointer)
    decreases |actions|
  {
    if actions == [] then was
    else
      var a := actions[0];
      Writer(actions[1..], fd, if a.fd != fd then was else if a.UpdateWrite? then (a.handler, a.data) else if a.Close? then (0, 0) else was)
  }

  lemma {:induction false} WriterAfter(n: Net, actions: seq<Action>, fd: nat, env: Env)
    requires Fits(n) && fd < |n.table|
    ensures var r := ApplyAll(n, actions, env); var f := n.table[fd];
      r.aborted || (r.table[fd].writeHandler, r.table[fd].writeData) == Writer(actions, fd, (f.writeHandler, f.writeData))
    decreases |actions|
  {
    hide Apply;
    if actions != [] {
      WriterStep(n, actions[0], fd, env);
      var m := Apply(n, actions[0], env);
      if m.aborted { AbortedStays(m, actions[1..], env); } else { WriterAfter(m, actions[1..], fd, env); }
    }
  }

  lemma WriterStep(n: Net, a: Action, fd: nat, env: Env)
    requires Fits(n) && fd < |n.table|
    ensures var r := Apply(n, a, env); var f, g := n.table[fd], r.table[fd];
      r.aborted || (g.writeHandler, g.writeData) ==
        if a.fd != fd then (f.writeHandler, f.writeData)
        else if a.UpdateWrite? then (a.handler, a.data) else if a.Close? then (0, 0) else (f.writeHandler, f.writeData)
  {
    hide Mask;
  }

  /** Likewise the read handler. */
  function Reader(actions: seq<Action>, fd: int, was: (Pointer, Pointer)): (Pointer, Pointer)
    decreases |actions|
  {
    if actions == [] then was
    else
      var a := actions[0];
      Reader(actions[1..], fd, if a.fd != fd then was else if a.UpdateRead? then (a.handler, a.data) else if a.Close? then (0, 0) else was)
  }

  lemma {:induction false} ReaderAfter(n: Net, actions: seq<Action>, fd: nat, env: Env)
    requires Fits(n) && fd < |n.table|
    ensures var r := ApplyAll(n, actions, env); var f := n.table[fd];
      r.aborted || (r.table[fd].readHandler, r.table[fd].readData) == Reader(actions, fd, (f.readHandler, f.readData))
    decreases |actions|
  {
    hide Apply;
    if actions != [] {
      ReaderStep(n, actions[0], fd, env);
      var m := Apply(n, actions[0], env);
      if m.aborted { AbortedStays(m, actions[1..], env); } else { ReaderAfter(m, actions[1..], fd, env); }
    }
  }

  lemma ReaderStep(n: Net, a: Action, fd: nat, env: Env)
    requires Fits(n) && fd < |n.table|
    ensures var r := Apply(n, a, env); var f, g := n.table[fd], r.table[fd];
      r.aborted || (g.readHandler, g.readData) ==
        if a.fd != fd then (f.readHandler, f.readData)
        else if a.UpdateRead? then (a.handler, a.data) else if a.Close? then (0, 0) else (f.readHandler, f.readData)
  {
    hide Mask;
  }

  /** The time-out: handler, data and deadline, all 0 for none. */
  datatype Timer = Timer(handler: Pointer, data: Pointer, deadline: int)

  function TimerOf(f: Fde): Timer {
    Timer(f.timeoutHandler, f.timeoutData, f.timeout)
  }

  /** The time-out after the actions, all at one time: the last that concerns it sets
      the deadline; a handler of 0 with data of 0 keeps the handler and data there were. */
  function TimerAt(actions: seq<Action>, fd: int, now: int, was: Timer): Timer
    decreases |actions|
  {
    if actions == [] then was
    else TimerAt(actions[1..], fd, now, TimerStep(actions[0], fd, now, was))
  }

  function TimerStep(a: Action, fd: int, now: int, was: Timer): Timer {
    if a.fd != fd then was
    else if a.Close? || (a.SetTimeout? && a.timeout < 0) then Timer(0, 0, 0)
    else if !a.SetTimeout? then was
    else if a.handler == 0 && a.data == 0 then was.(deadline := now + a.timeout)
    else Timer(a.handler, a.data, now + a.timeout)
  }

  lemma TimerOne(n: Net, a: Action, fd: nat, env: Env)
    requires Fits(n) && fd < |n.table|
    ensures Apply(n, a, env).now == n.now
    ensures var r := Apply(n, a, env);
      r.aborted || TimerOf(r.table[fd]) == TimerStep(a, fd, n.now, TimerOf(n.table[fd]))
  {
    hide Mask;
  }

  lemma {:induction false} TimerAfter(n: Net, actions: seq<Action>, fd: nat, env: Env)
    requires Fits(n) && fd < |n.table|
    ensures var r := ApplyAll(n, actions, env);
      r.aborted || TimerOf(r.table[fd]) == TimerAt(actions, fd, n.now, TimerOf(n.table[fd]))
    decreases |actions|
  {
    hide Apply, TimerStep, TimerOf;
    if actions != [] {
      TimerOne(n, actions[0], fd, env);
      var m := Apply(n, actions[0], env);
      if m.aborted { AbortedStays(m, actions[1..], env); } else { TimerAfter(m, actions[1..], fd, env); }
    }
  }

  /** commSetTimeout asserts exactly when no handler is given and none is there. */
  lemma TimeoutAsserts(n: Net, fd: nat, timeout: int, handler: Pointer, data: Pointer, env: Env)
    requires Fits(n) && fd < |n.table| && !n.aborted
    ensures Apply(n, SetTimeout(fd, timeout, handler, data), env).aborted
      <==> timeout >= 0 && handler == 0 && n.table[fd].timeoutHandler == 0
  {
  }

  lemma {:induction false} AbortedStays(n: Net, actions: seq<Action>, env: Env)
    requires Fits(n) && n.aborted
    ensures ApplyAll(n, actions, env) == n
    decreases |actions|
  {
    if actions != [] { AbortedStays(n, actions[1..], env); }
  }

  /** Some action closes fd, and no later one gives it a write handler. */
  predicate ClosesForGood(actions: seq<Action>, fd: int) {
    exists i | 0 <= i < |actions| :: actions[i] == Close(fd) && NoWriterFrom(actions, fd, i + 1)
  }

  predicate NoWriterFrom(actions: seq<Action>, fd: int, i: nat) {
    forall j | i <= j < |actions| :: !(actions[j].UpdateWrite? && actions[j].fd == fd)
  }

  lemma {:induction false} NoWriter(actions: seq<Action>, fd: int, was: (Pointer, Pointer))
    requires ClosesForGood(actions, fd) || (was.0 == 0 && NoWriterFrom(actions, fd, 0))
    ensures Writer(actions, fd, was).0 == 0
    decreases |actions|
  {
    if actions != [] {
      var a, rest := actions[0], actions[1..];
      assert forall j | 0 <= j < |rest| :: rest[j] == actions[j + 1];
      if i :| 0 <= i < |actions| && actions[i] == Close(fd) && NoWriterFrom(actions, fd, i + 1) {
        if i == 0 {
          assert NoWriterFrom(rest, fd, 0);
        } else {
          assert rest[i - 1] == Close(fd) && NoWriterFrom(rest, fd, i);
        }
      } else {
        assert NoWriterFrom(rest, fd, 0);
      }
      NoWriter(rest, fd, if a.fd != fd then was else if a.UpdateWrite? then (a.handler, a.data) else if a.Close? then (0, 0) else was);
    }
  }

  /** At most one call each, first for reading. The write handler called is the one
      the read handler's actions leave in the table; none when they close the
      descriptor and do not give it a new one. */
  lemma DispatchCalls(n: Net, fd: nat, readEvent: bool, writeEvent: bool, env: Env)
    requires Fits(n) && fd < |n.table| && !n.aborted
    ensures var f := n.table[fd]; var r := Dispatch(n, fd, readEvent, writeEvent, env);
      var reading := f.readHandler != 0 && readEvent;
      var first := if reading then [Call(f.readHandler, fd, f.readData)] else [];
      var actions := if reading then env.reacts(Call(f.readHandler, fd, f.readData), |n.calls|) else [];
      var (handler, data) := Writer(actions, fd, (f.writeHandler, f.writeData));
      var second := if handler != 0 && writeEvent then [Call(handler, fd, data)] else [];
      && (r.calls == n.calls + first + second || (r.aborted && r.calls == n.calls + first))
      && (ClosesForGood(actions, fd) ==> r.calls == n.calls + first)
  {
    hide Apply, ApplyAll, ClosesForGood, Writer;
    var f := n.table[fd];
    assert n.calls + [] == n.calls;
    WriterOfNothing(fd, (f.writeHandler, f.writeData));
    if f.readHandler != 0 && readEvent {
      var call := Call(f.readHandler, fd, f.readData);
      var actions := env.reacts(call, |n.calls|);
      WriterAfter(n.(calls := n.calls + [call]), actions, fd, env);
      if ClosesForGood(actions, fd) { NoWriter(actions, fd, (f.writeHandler, f.writeData)); }
      var m := Invoke(n, call, env);
      assert m.calls + [] == m.calls;
    }
  }

  lemma WriterOfNothing(fd: int, was: (Pointer, Pointer))
    ensures Writer([], fd, was) == was && !ClosesForGood([], fd)
  {
  }

  /** A list of ready descriptors is dispatched one by one from the front. */
  lemma {:induction false} DispatchInOrder(n: Net, a: seq<Ready>, e: Ready, b: seq<Ready>, env: Env)
    requires Fits(n) && AllWithin(a + [e] + b, |n.table|)
    ensures AllWithin(a, |n.table|) && AllWithin(b, |n.table|) && e.fd < |n.table|
    ensures DispatchAll(n, a + [e] + b, env)
      == DispatchAll(Dispatch(DispatchAll(n, a, env), e.fd, ForReading(e.events), ForWriting(e.events), env), b, env)
    decreases |a|
  {
    hide Dispatch, ForReading, ForWriting;
    var all := a + [e] + b;
    assert all[|a|] == e && (forall i | 0 <= i < |a| :: all[i] == a[i]) && forall i | 0 <= i < |b| :: all[|a| + 1 + i] == b[i];
    if a == [] {
      assert all == [e] + b && all[1..] == b;
    } else {
      var x := a[0];
      assert all[1..] == a[1..] + [e] + b;
      DispatchInOrder(Dispatch(n, x.fd, ForReading(x.events), ForWriting(x.events), env), a[1..], e, b, env);
    }
  }

  // ----- time-outs -----

  /** Nothing sets the time-out of fd, or closes it. */
  predicate LeavesTimer(actions: seq<Action>, fd: int) {
    forall i | 0 <= i < |actions| :: actions[i].fd != fd || !(actions[i].SetTimeout? || actions[i].Close?)
  }

  ghost predicate SameTimer(n: Net, r: Net, fd: nat) {
    && Fits(n) && Fits(r) && fd < |n.table| == |r.table| && r.now == n.now
    && r.table[fd].timeout == n.table[fd].timeout && r.table[fd].timeoutHandler == n.table[fd].timeoutHandler
  }

  lemma ApplyLeavesTimer(n: Net, a: Action, fd: nat, env: Env)
    requires Fits(n) && fd < |n.table| && (a.fd != fd || !(a.SetTimeout? || a.Close?))
    ensures SameTimer(n, Apply(n, a, env), fd)
  {
    hide Mask;
  }

  lemma {:induction false} ApplyAllLeavesTimer(n: Net, actions: seq<Action>, fd: nat, env: Env)
    requires Fits(n) && fd < |n.table| && LeavesTimer(actions, fd)
    ensures SameTimer(n, ApplyAll(n, actions, env), fd)
    decreases |actions|
  {
    hide Apply;
    if actions != [] {
      ApplyLeavesTimer(n, actions[0], fd, env);
      ApplyAllLeavesTimer(Apply(n, actions[0], env), actions[1..], fd, env);
    }
  }

  /** A deadline is set and has come. */
  predicate Due(n: Net, fd: nat)
    requires fd < |n.table|
  {
    n.table[fd].timeout != 0 && n.table[fd].timeout <= n.now
  }

  /** A descriptor without a deadline, or before it, is left alone; any other is not. */
  lemma OnlyDueIsTouched(n: Net, fd: nat, env: Env)
    requires Fits(n) && fd < |n.table| && !n.aborted
    ensures CheckOne(n, fd, env) == n <==> !Due(n, fd)
  {
    hide SetEvents, ApplyAll;
    if Due(n, fd) && n.table[fd].timeoutHandler != 0 {
      assert |CheckOne(n, fd, env).calls| > |n.calls|;
    } else if Due(n, fd) && fd > 0 {
      SetKeepsTable(n.(table := n.table[fd := CLEARED]), fd, env);
      assert CheckOne(n, fd, env).table[fd].timeout == 0;
    }
  }

  lemma SetKeepsTable(n: Net, fd: nat, env: Env)
    requires fd < |n.shadow|
    ensures SetEvents(n, fd, false, false, env).table == n.table
  {
  }

  /** A look at a time when nothing is due changes nothing. */
  lemma {:induction false} NothingDue(n: Net, fd: nat, env: Env)
    requires Fits(n) && fd <= |n.table| && forall k | fd <= k < |n.table| :: !Due(n, k)
    ensures CheckFrom(n, fd, env) == n
    decreases |n.table| - fd
  {
    hide CheckOne;
    if fd < |n.table| {
      if n.aborted { AbortedLook(n, fd, env); } else { OnlyDueIsTouched(n, fd, env); }
      NothingDue(n, fd + 1, env);
    }
  }

  /** Otherwise it deals with the first that is due, and then looks at those behind it. */
  lemma {:induction false} FirstDue(n: Net, from: nat, fd: nat, env: Env)
    requires Fits(n) && !n.aborted && from <= fd < |n.table| && Due(n, fd) && forall k | from <= k < fd :: !Due(n, k)
    ensures CheckFrom(n, from, env) == CheckFrom(CheckOne(n, fd, env), fd + 1, env)
    decreases fd - from
  {
    hide CheckOne;
    if from < fd {
      OnlyDueIsTouched(n, from, env);
      FirstDue(n, from + 1, fd, env);
    }
  }

  lemma AbortedLook(n: Net, fd: nat, env: Env)
    requires Fits(n) && fd < |n.table| && n.aborted
    ensures CheckOne(n, fd, env) == n
  {
  }

  /** A descriptor that expires without a handler is closed and forgotten; only 0
      is not, for comm_close asserts that it is not 0. */
  lemma ExpiredIsClosed(n: Net, fd: nat, env: Env)
    requires Fits(n) && fd < |n.table| && !n.aborted
    requires n.table[fd].timeout != 0 && n.table[fd].timeout <= n.now && n.table[fd].timeoutHandler == 0
    ensures var r := CheckOne(n, fd, env);
      && (r.aborted <==> fd == 0)
      && (fd > 0 ==> fd !in r.open && fd !in r.kernel && r.shadow[fd] == {} && r.table[fd] == CLEARED && r.calls == n.calls)
  {
    MaskIs(false, false);
    hide Mask;
  }

  /** A time-out calls its handler once and stays; when neither the handler nor
      anything else sets it anew, the next look, at any later time, closes the descriptor. */
  lemma ExpiredTwiceIsClosed(n: Net, fd: nat, between: seq<Action>, later: int, env: Env)
    requires Fits(n) && 0 < fd < |n.table| && !n.aborted && n.now <= later
    requires n.table[fd].timeout != 0 && n.table[fd].timeout <= n.now && n.table[fd].timeoutHandler != 0
    requires LeavesTimer(env.reacts(Call(n.table[fd].timeoutHandler, fd, n.table[fd].timeoutData), |n.calls|), fd)
    requires LeavesTimer(between, fd)
    ensures var f := n.table[fd]; var m := ApplyAll(CheckOne(n, fd, env), between, env);
      && m.calls == n.calls + [Call(f.timeoutHandler, fd, f.timeoutData)]
      && m.table[fd].timeoutHandler == 0 && m.table[fd].timeout == f.timeout
      && (!m.aborted ==> var r := CheckOne(m.(now := later), fd, env); fd !in r.open && r.table[fd] == CLEARED && r.calls == m.calls)
  {
    hide Apply, SetEvents, CloseFd;
    var f := n.table[fd];
    var call := Call(f.timeoutHandler, fd, f.timeoutData);
    var start := n.(table := n.table[fd := f.(timeoutHandler := 0)]);
    ApplyAllLeavesTimer(start.(calls := n.calls + [call]), env.reacts(call, |n.calls|), fd, env);
    ApplyAllLeavesTimer(CheckOne(n, fd, env), between, fd, env);
    var m := ApplyAll(CheckOne(n, fd, env), between, env);
    if !m.aborted { ExpiredIsClosed(m.(now := later), fd, env); }
  }
}
