/**
 * The driver's per-device state and the imperative entry points of
 * src/vmmouse.c that change it.
 *
 * A `Device` holds what the C code keeps in `InputInfoRec`, `MouseDevRec`
 * and `VMMousePrivRec`, restricted to the fields these operations read or
 * write.  Events posted to the X server and commands sent through the
 * backdoor are appended to `log`; the results `VMMouseClient_GetInput` will
 * return are the queue `channel`.  `FlushButtons`, `RequestAbsoluteOnce` and
 * `Poll` state their effect directly; every other method is proved to do
 * exactly what the pure functions of the `Translate` and `Lifecycle` modules
 * describe.
 */
module Driver {
  import opened Bits
  import opened ButtonMap
  import opened Translate
  import opened Lifecycle
  import opened Options

  class Device {
    /** `pMse->buttons`, fixed when the options are read. */
    const buttons: int
    /** The Z-axis mapping held in `pMse->negativeZ` and its three companions. */
    const cfg: ZConfig

    var fdValid: bool
    var buffer: bool
    var registered: bool
    var on: bool
    var available: bool
    var absoluteRequested: bool
    var lastButtons: bv32
    var isCurrRelative: bool
    var prevInput: Input

    /** Everything posted to the X server or sent to the backdoor, oldest first. */
    var log: seq<Event>
    /** What the backdoor will answer to the next polls. */
    var channel: seq<Poll>

    /** The translation state. */
    function Translation(): Translator
      reads this
    {
      Translator(lastButtons, isCurrRelative, prevInput)
    }

    /** The lifecycle state. */
    function State(): DeviceState
      reads this
    {
      DeviceState(fdValid, buffer, registered, on, available, absoluteRequested, lastButtons)
    }

    /**
     * A device as `VMMousePreInit` leaves it: zeroed private state with the
     * backdoor marked available and absolute mode not yet requested, the
     * probe descriptor closed again, and the options read.
     */
    constructor(options: MouseConfig, pending: seq<Poll>)
      ensures buttons == options.buttons && cfg == options.zmap
      ensures State() == DeviceState(false, false, false, false, true, false, 0)
      ensures Translation() == Translator(0, false, NoInput)
      ensures log == [] && channel == pending
    {
      buttons := options.buttons;
      cfg := options.zmap;
      fdValid, buffer, registered, on := false, false, false, false;
      available, absoluteRequested := true, false;
      lastButtons := 0;
      isCurrRelative := false;
      prevInput := NoInput;
      log := [];
      channel := pending;
    }

    /** `FlushButtons`: forget every held button. */
    method FlushButtons()
      modifies this`lastButtons
      ensures lastButtons == 0
    {
      lastButtons := 0;
    }

    /** `VMMouseDoPostEvent`. */
    method DoPostEvent(newButtons: bv32, dx: int, dy: int)
      modifies this`log, this`lastButtons
      ensures var r := DoPost(old(Translation()), newButtons, dx, dy);
        Translation() == r.state && log == old(log) + r.events
    {
      var moved: bool;
      if isCurrRelative {
        moved := dx != 0 || dy != 0;
      } else {
        moved := dx != prevInput.x || dy != prevInput.y || IsRelative(prevInput.flags);
      }
      var motion: seq<Event> := [];
      if moved {
        motion := [Motion(!isCurrRelative, dx, dy)];
      }
      log := log + motion;
      var presses: seq<Event> := [];
      if newButtons != lastButtons {
        presses := ButtonChangeEvents(lastButtons, newButtons);
        lastButtons := newButtons;
      }
      AppendAssoc(old(log), motion, presses);
      log := log + presses;
    }

    /** The button half of `VMMouseDoPostEvent` for a mask that changed: remap, then post each change. */
    static method ButtonChangeEvents(last: bv32, buttons: bv32) returns (events: seq<Event>)
      requires buttons != last
      ensures events == ButtonEvents(last, buttons)
    {
      var remapped := ReverseBits(buttons);
      var change := remapped ^ ReverseBits(last);
      events := ButtonEdgeEvents(change, remapped);
    }

    /**
     * The `while (change)` loop of `VMMouseDoPostEvent`: post the lowest
     * changed bit's button and clear it, until no change is left.
     */
    static method ButtonEdgeEvents(change: bv32, now: bv32) returns (events: seq<Event>)
      ensures events == Edges(change, now, 0)
    {
      events := [];
      var left := change;
      ghost var pending := Edges(change, now, 0);
      assert [] + pending == pending;
      while left != 0
        invariant pending == Edges(left, now, 0)
        invariant Edges(change, now, 0) == events + pending
        decreases |pending|
      {
        events, left, pending := EdgeTurn(now, events, left, pending);
      }
      EdgesOfZero(now, 0);
      assert events + [] == events;
    }

    /** One turn of that loop: post the lowest changed bit's button and clear the bit. */
    static method EdgeTurn(now: bv32, events: seq<Event>, left: bv32, ghost pending: seq<Event>)
      returns (events': seq<Event>, left': bv32, ghost pending': seq<Event>)
      requires left != 0 && pending == Edges(left, now, 0)
      ensures pending != [] && events' == events + [pending[0]]
      ensures pending' == Edges(left', now, 0)
      ensures events' + pending' == events + pending && |pending'| < |pending|
    {
      var id, down, next := LowestEdge(left, now);
      pending' := Edges(next, now, 0);
      AppendAssoc(events, [Button(id, down)], pending');
      events', left' := events + [Button(id, down)], next;
    }

    /** Inside that turn, `ffs` picks the lowest changed bit, which is then cleared. */
    static method LowestEdge(left: bv32, now: bv32) returns (id: bv32, down: bool, next: bv32)
      requires left != 0
      ensures Edges(left, now, 0) == [Button(id, down)] + Edges(next, now, 0)
    {
      EdgesAtFfs(left, now);
      id, down, next := Ffs(left), Bit(now, Ffs(left) - 1), DropLowest(left);
    }

    /** `VMMousePostEvent`: map the Z axis, post, and release a wheel button again. */
    method PostEvent(newButtons: bv32, dx: int, dy: int, dz: int, dw: int)
      modifies this`log, this`lastButtons
      ensures var r := Post(cfg, old(Translation()), newButtons, dx, dy, dz, dw);
        Translation() == r.state && log == old(log) + r.events
    {
      var m := MapZ(cfg, isCurrRelative, newButtons, dx, dy, dz, dw);
      DoPostEvent(m.buttons, m.dx, m.dy);
      if m.zbutton != 0 {
        PostMappedSplit(old(Translation()), m);
        ghost var firstLog := log;
        var released := m.buttons & !m.zbutton;
        if isCurrRelative {
          DoPostEvent(released, 0, 0);
        } else {
          DoPostEvent(released, m.dx, m.dy);
        }
        AppendAssoc(old(log), firstLog[|old(log)|..], log[|firstLog|..]);
      }
    }

    /** `VMMouseClient_GetInput`: take the next answer of the backdoor. */
    method Poll() returns (p: Poll)
      modifies this`channel
      ensures p == NextPoll(old(channel)) && channel == AfterPoll(old(channel))
    {
      if channel == [] {
        p := Empty;
      } else {
        p := channel[0];
        channel := channel[1..];
      }
    }

    /**
     * `GetVMMouseMotionEvent`: translate polled samples until the backdoor
     * has nothing more, or fails and is reset.
     */
    method GetMotionEvents()
      modifies this`log, this`lastButtons, this`isCurrRelative, this`prevInput, this`channel
      ensures var r := Fetch(cfg, old(Translation()), old(channel));
        Translation() == r.state && log == old(log) + r.events && channel == r.rest
    {
      ghost var goal := Fetch(cfg, Translation(), channel);
      ghost var done: seq<Event> := [];
      CompletesStart(cfg, Translation(), channel);
      var more := true;
      while more
        invariant more ==> Completes(cfg, goal, done, Translation(), channel)
        invariant !more ==> goal == FetchResult(Translation(), done, channel)
        invariant log == old(log) + done
        decreases more, |channel|
      {
        more, done := FetchTurn(goal, done, old(log));
      }
    }

    /**
     * One turn of that loop, kept apart so that the loop reasons only about
     * `Completes`: poll once and account for what the poll posted.
     */
    method FetchTurn(ghost goal: FetchResult, ghost done: seq<Event>, ghost start: seq<Event>)
      returns (more: bool, ghost done': seq<Event>)
      requires Completes(cfg, goal, done, Translation(), channel) && log == start + done
      modifies this`log, this`lastButtons, this`isCurrRelative, this`prevInput, this`channel
      ensures log == start + done'
      ensures more ==> Completes(cfg, goal, done', Translation(), channel) && |channel| < |old(channel)|
      ensures !more ==> goal == FetchResult(Translation(), done', channel)
    {
      ghost var queue := channel;
      ghost var before := Translation();
      more := PollOnce();
      if !more {
        CompletesStop(cfg, goal, done, before, queue);
        done' := done + (if NextPoll(queue).Error? then Recovery else []);
        AppendAssoc(start, done, if NextPoll(queue).Error? then Recovery else []);
      } else {
        ghost var step := TranslateSample(cfg, before, NextPoll(queue).data);
        CompletesSample(cfg, goal, done, before, queue);
        AppendAssoc(start, done, step.events);
        done' := done + step.events;
      }
    }

    /**
     * What the loop of `GetVMMouseMotionEvent` does with one poll: post a
     * sample and go on, or reset the backdoor after an error, or stop when empty.
     */
    method PollOnce() returns (more: bool)
      modifies this`log, this`lastButtons, this`isCurrRelative, this`prevInput, this`channel
      ensures var p := NextPoll(old(channel));
        && more == p.Sample?
        && channel == AfterPoll(old(channel))
        && (p.Sample? ==> var step := TranslateSample(cfg, old(Translation()), p.data);
              Translation() == step.state && log == old(log) + step.events)
        && (!p.Sample? ==>
              && Translation() == old(Translation())
              && log == old(log) + (if p.Error? then Recovery else []))
    {
      var p := Poll();
      if p.Error? {
        log := log + [Disable, Enable, RequestAbsolute];
        return false;
      }
      if p.Empty? {
        return false;
      }
      PostSample(p.data);
      return true;
    }

    /** The body of the loop of `GetVMMouseMotionEvent`: post one sample and remember it. */
    method PostSample(d: Input)
      modifies this`log, this`lastButtons, this`isCurrRelative, this`prevInput
      ensures var step := TranslateSample(cfg, old(Translation()), d);
        Translation() == step.state && log == old(log) + step.events
    {
      isCurrRelative := d.flags & MoveRelative != 0;
      PostEvent(SampleButtons(d.buttons), d.x, d.y, SignExtend8(d.z), 0);
      prevInput := d;
    }

    /**
     * `VMMouseReadInput`: request absolute mode once, fetch after every full
     * three-byte PS/2 packet read from the notification port, and once more
     * at the end.
     */
    method ReadInput(bytes: nat)
      modifies this`log, this`lastButtons, this`isCurrRelative, this`prevInput, this`channel
      modifies this`absoluteRequested
      ensures absoluteRequested
      ensures var r := FetchTimes(cfg, old(Translation()), old(channel), bytes / 3 + 1);
        && Translation() == r.state && channel == r.rest
        && log == old(log) + (if old(absoluteRequested) then [] else [RequestAbsolute]) + r.events
    {
      RequestAbsoluteOnce();
      ghost var s1 := Translation();
      ghost var q1 := channel;
      ghost var l1 := log;
      var len := 0;
      var read := 0;
      ghost var packets: nat := 0;
      while read < bytes
        invariant read <= bytes && 0 <= len < 3 && read == 3 * packets + len
        invariant var r := FetchTimes(cfg, s1, q1, packets);
          Translation() == r.state && channel == r.rest && log == l1 + r.events
        invariant absoluteRequested
      {
        read := read + 1;
        len := len + 1;
        if len < 3 {
          continue;
        }
        len := 0;
        FetchAgain(s1, q1, l1, packets);
        packets := packets + 1;
      }
      PacketCount(bytes, packets, len);
      FetchAgain(s1, q1, l1, packets);
    }

    /**
     * The call of `GetVMMouseMotionEvent` after a full packet, or at the end
     * of `VMMouseReadInput`: the `k`-th call since `start` picks up where
     * the calls before it stopped.
     */
    method FetchAgain(ghost s: Translator, ghost queue: seq<Poll>, ghost start: seq<Event>, ghost k: nat)
      requires var r := FetchTimes(cfg, s, queue, k);
        Translation() == r.state && channel == r.rest && log == start + r.events
      modifies this`log, this`lastButtons, this`isCurrRelative, this`prevInput, this`channel
      ensures var r := FetchTimes(cfg, s, queue, k + 1);
        Translation() == r.state && channel == r.rest && log == start + r.events
    {
      FetchTimesNext(cfg, s, queue, k, start);
      GetMotionEvents();
    }

    /** The latch at the start of `VMMouseReadInput`: ask the host for absolute mode only once. */
    method RequestAbsoluteOnce()
      modifies this`log, this`absoluteRequested
      ensures absoluteRequested
      ensures log == old(log) + (if old(absoluteRequested) then [] else [RequestAbsolute])
    {
      if !absoluteRequested {
        log := log + [RequestAbsolute];
        absoluteRequested := true;
      }
    }

    /** `VMMouseDeviceControl`, returning the status it means to report. */
    method DeviceControl(mode: Mode, o: Outcomes) returns (status: Status)
      modifies this`fdValid, this`buffer, this`registered, this`on, this`available
      modifies this`absoluteRequested, this`lastButtons, this`log
      ensures var r := Lifecycle.DeviceControl(old(State()), mode, o);
        State() == r.state && log == old(log) + r.events && status == r.status
    {
      status := Ok;
      match mode
      case Init =>
        on := false;
      case On =>
        fdValid := o.open;
        if fdValid {
          buffer := o.buffer;
          if !buffer {
            fdValid := false;
          } else {
            log := log + [Enable];
            if !o.enable {
              available := false;
              on := false;
              return Failed;
            }
            available := true;
            registered := true;
          }
        }
        lastButtons := 0;
        on := true;
        FlushButtons();
      case Off =>
        Shutdown();
      case Close =>
        Shutdown();
      case Abort =>
        if fdValid && available {
          log := log + [Disable];
        }
    }

    /** The shared `DEVICE_OFF`/`DEVICE_CLOSE` branch. */
    method Shutdown()
      modifies this`fdValid, this`buffer, this`registered, this`on, this`available
      modifies this`absoluteRequested, this`log
      ensures var r := Lifecycle.Shutdown(old(State()));
        State() == r.state && log == old(log) + r.events
    {
      if fdValid {
        if available {
          log := log + [Disable];
          available := false;
          absoluteRequested := false;
        }
        registered := false;
        buffer := false;
        fdValid := false;
      }
      on := false;
    }
  }
}
