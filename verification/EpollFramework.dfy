/** comm.c and comm_epoll.c as they are written, over arrays, together with the
    kernel they talk to; every call is proved to be the step of EventLoop it stands for. */
module EpollFramework {
  import opened EventLoop

  class Comm {
    const fdTable: array<Fde>
    const epollState: array<Events>
    var epollFds: int
    var sysCurtime: int
    // the kernel's side, and the record of what happened
    var kernel: map<int, Events>
    var open: set<int>
    var ctls: nat
    ghost var stale: set<int>
    var calls: seq<Call>
    var aborted: bool

    ghost predicate Valid()
      reads this
    {
      fdTable.Length == epollState.Length && fdTable as object != epollState as object
    }

    ghost function State(): (n: Net)
      requires Valid()
      reads this, fdTable, epollState
      ensures Fits(n)
    {
      Net(fdTable[..], epollState[..], epollFds, sysCurtime, kernel, open, ctls, stale, calls, aborted)
    }

    /** comm_init */
    constructor (maxFd: nat)
      ensures Valid() && State() == Created(maxFd)
    {
      hide Ok, Nonzero, Zeros;
      fdTable := new Fde[maxFd](_ => CLEARED);
      epollState := new Events[maxFd](_ => {});
      epollFds, sysCurtime, kernel, open, ctls, stale, calls, aborted := 0, 0, map[], {}, 0, {}, [], false;
      new;
      ZerosAreZero(maxFd);
      assert fdTable[..] == Created(maxFd).table;
      assert epollState[..] == Zeros(maxFd);
    }

    /** The kernel's side of epoll_ctl(2). */
    method EpollCtl(op: Op, fd: nat, ev: Events, env: Env) returns (ok: bool)
      modifies this`kernel, this`ctls, this`stale
      ensures ok == (fd in open && (op.Add? <==> fd !in old(kernel)) && !env.refuses(old(ctls)))
      ensures kernel == (if ok then Kernel(old(kernel), op, fd, ev) else old(kernel)) && ctls == old(ctls) + 1
      ensures stale == if ok then old(stale) - {fd} else old(stale) + {fd}
    {
      ok := fd in open && (op.Add? <==> fd !in kernel) && !env.refuses(ctls);
      ctls := ctls + 1;
      if ok {
        kernel := if op.Del? then kernel - {fd} else kernel[fd := ev];
        stale := stale - {fd};
      } else {
        stale := stale + {fd};
      }
    }

    method EpollSetEvents(fd: nat, needRead: bool, needWrite: bool, env: Env)
      requires Valid() && fd < epollState.Length
      modifies this, epollState
      ensures Valid() && State() == SetEvents(old(State()), fd, needRead, needWrite, env)
    {
      var events: Events := {};
      if needRead {
        events := events + {EPOLLIN};
      }
      if needWrite {
        events := events + {EPOLLOUT};
      }
      if events != {} {
        events := events + {EPOLLHUP, EPOLLERR};
      }
      MaskOf(events, needRead, needWrite);
      if events != epollState[fd] {
        var epollCtlType;
        if events == {} {
          epollCtlType := Del;
        } else if epollState[fd] != {} {
          epollCtlType := Mod;
        } else {
          epollCtlType := Add;
        }
        epollState[fd] := events;
        assert epollState[..] == old(epollState[..])[fd := events];
        var _ := EpollCtl(epollCtlType, fd, events, env);
        match epollCtlType {
          case Add => epollFds := epollFds + 1;
          case Del => epollFds := epollFds - 1;
          case Mod =>
        }
      }
    }

    method CommClose(fd: nat, env: Env)
      requires Valid() && fd < fdTable.Length
      modifies this, fdTable, epollState
      ensures Valid() && State() == CloseFd(old(State()), fd, env)
    {
      if fd == 0 {
        aborted := true;
        return;
      }
      fdTable[fd] := CLEARED;
      assert fdTable[..] == old(fdTable[..])[fd := CLEARED];
      EpollSetEvents(fd, false, false, env);
      open, kernel, stale := open - {fd}, kernel - {fd}, stale - {fd};
    }

    /** What is returned is the time at which the descriptor expires, 0 for never. */
    method CommSetTimeout(fd: nat, timeout: int, handler: Pointer, data: Pointer) returns (deadline: int)
      requires Valid() && fd < fdTable.Length && !aborted
      modifies this, fdTable
      ensures Valid() && State() == Timed(old(State()), fd, timeout, handler, data)
      ensures deadline == fdTable[fd].timeout
      ensures deadline == if timeout < 0 then 0 else if aborted then old(fdTable[fd].timeout) else sysCurtime + timeout
    {
      var f := fdTable[fd];
      deadline := f.timeout;
      if timeout < 0 {
        f := f.(timeoutHandler := 0, timeoutData := 0, timeout := 0);
      } else if handler == 0 && f.timeoutHandler == 0 {
        aborted := true;
        return;
      } else {
        if handler != 0 || data != 0 {
          f := f.(timeoutHandler := handler, timeoutData := data);
        }
        f := f.(timeout := sysCurtime + timeout);
      }
      fdTable[fd] := f;
      deadline := f.timeout;
      assert fdTable[..] == old(fdTable[..])[fd := f];
    }

    method CommUpdateReadHandler(fd: nat, handler: Pointer, data: Pointer, env: Env)
      requires Valid() && fd < fdTable.Length && !aborted
      modifies this, fdTable, epollState
      ensures Valid() && State() == Apply(old(State()), UpdateRead(fd, handler, data), env)
    {
      var f := fdTable[fd].(readHandler := handler, readData := data);
      fdTable[fd] := f;
      assert fdTable[..] == old(fdTable[..])[fd := f];
      EpollSetEvents(fd, true, false, env);
    }

    method CommUpdateWriteHandler(fd: nat, handler: Pointer, data: Pointer, env: Env)
      requires Valid() && fd < fdTable.Length && !aborted
      modifies this, fdTable, epollState
      ensures Valid() && State() == Apply(old(State()), UpdateWrite(fd, handler, data), env)
    {
      var f := fdTable[fd].(writeHandler := handler, writeData := data);
      fdTable[fd] := f;
      assert fdTable[..] == old(fdTable[..])[fd := f];
      EpollSetEvents(fd, false, true, env);
    }

    method Perform(a: Action, env: Env)
      requires Valid()
      modifies this, fdTable, epollState
      ensures Valid() && State() == Apply(old(State()), a, env)
    {
      hide SetEvents, CloseFd, Timed;
      if !aborted {
        if !(0 <= a.fd < fdTable.Length) {
          aborted := true;
          return;
        }
        match a
        case Opened(fd) => open := open + {fd};
        case UpdateRead(fd, handler, data) => CommUpdateReadHandler(fd, handler, data, env);
        case UpdateWrite(fd, handler, data) => CommUpdateWriteHandler(fd, handler, data, env);
        case SetTimeout(fd, timeout, handler, data) => var _ := CommSetTimeout(fd, timeout, handler, data);
        case Close(fd) => CommClose(fd, env);
      }
    }

    /** A handler, as the oracle has it run. */
    method CallHandler(handler: Pointer, fd: int, data: Pointer, env: Env)
      requires Valid()
      modifies this, fdTable, epollState
      ensures Valid() && State() == Invoke(old(State()), Call(handler, fd, data), env)
    {
      hide Apply;
      var call := Call(handler, fd, data);
      var actions := env.reacts(call, |calls|);
      calls := calls + [call];
      ghost var goal := ApplyAll(State(), actions, env);
      var i := 0;
      assert actions[0..] == actions;
      while i < |actions|
        invariant 0 <= i <= |actions| && Valid() && ApplyAll(State(), actions[i..], env) == goal
      {
        assert actions[i..][1..] == actions[i + 1..];
        Perform(actions[i], env);
        i := i + 1;
      }
    }

    method CommCallHandlers(fd: nat, readEvent: bool, writeEvent: bool, env: Env)
      requires Valid() && fd < fdTable.Length
      modifies this, fdTable, epollState
      ensures Valid() && State() == Dispatch(old(State()), fd, readEvent, writeEvent, env)
    {
      hide Invoke;
      if !aborted && fdTable[fd].readHandler != 0 && readEvent {
        CallHandler(fdTable[fd].readHandler, fd, fdTable[fd].readData, env);
      }
      if !aborted && fdTable[fd].writeHandler != 0 && writeEvent {
        CallHandler(fdTable[fd].writeHandler, fd, fdTable[fd].writeData, env);
      }
    }

    /** do_epoll_select, from what epoll_wait returned. */
    method DoEpollSelect(events: seq<Ready>, env: Env)
      requires Valid() && AllWithin(events, fdTable.Length)
      modifies this, fdTable, epollState
      ensures Valid() && State() == DispatchAll(old(State()), events, env)
    {
      hide Dispatch, ForReading, ForWriting;
      ghost var goal := DispatchAll(State(), events, env);
      var i := 0;
      assert events[0..] == events;
      while i < |events|
        invariant 0 <= i <= |events| && Valid() && DispatchAll(State(), events[i..], env) == goal
      {
        assert events[i..][1..] == events[i + 1..];
        var e := events[i];
        CommCallHandlers(e.fd, ForReading(e.events), ForWriting(e.events), env);
        i := i + 1;
      }
    }

    method CheckTimeouts(env: Env)
      requires Valid()
      modifies this, fdTable, epollState
      ensures Valid() && State() == CheckFrom(old(State()), 0, env)
    {
      hide Invoke, CloseFd;
      ghost var goal := CheckFrom(State(), 0, env);
      var fd := 0;
      while fd < fdTable.Length
        invariant 0 <= fd <= fdTable.Length && Valid() && CheckFrom(State(), fd, env) == goal
      {
        var f := fdTable[fd];
        ghost var before := State();
        if !aborted && f.timeout != 0 && f.timeout <= sysCurtime {
          if f.timeoutHandler != 0 {
            fdTable[fd] := f.(timeoutHandler := 0);
            assert fdTable[..] == before.table[fd := f.(timeoutHandler := 0)];
            CallHandler(f.timeoutHandler, fd, f.timeoutData, env);
          } else {
            CommClose(fd, env);
          }
        }
        assert State() == CheckOne(before, fd, env);
        fd := fd + 1;
      }
    }
  }

  lemma MaskOf(events: Events, needRead: bool, needWrite: bool)
    requires var ev := (if needRead then {EPOLLIN} else {}) + (if needWrite then {EPOLLOUT} else {});
      events == if ev != {} then ev + {EPOLLHUP, EPOLLERR} else ev
    ensures events == Mask(needRead, needWrite)
  {
  }
}
