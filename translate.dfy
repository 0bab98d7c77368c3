/**
 * The decode-and-translate engine of src/vmmouse.c as pure functions.
 *
 * `VMMouseDoPostEvent`, `VMMousePostEvent` and `GetVMMouseMotionEvent` work
 * on three fields of the driver's private record (`lastButtons`,
 * `isCurrRelative`, `vmmousePrevInput`) and post events to the X server.
 * Here that state is the value `Translator`, and everything posted or sent to
 * the backdoor channel is an `Event` appended to a log.  The class in
 * device.dfy runs the imperative versions of these operations and is proved
 * to produce exactly what these functions describe.
 */
module Translate {
  import opened Bits
  import opened ButtonMap

  /** `VMMOUSE_MOVE_RELATIVE`, the flag bit of a relative sample. */
  const MoveRelative: bv32 := 1

  /** One `VMMOUSE_INPUT_DATA` record read from the backdoor channel. */
  datatype Input = Input(buttons: bv32, flags: bv32, x: int, y: int, z: int)

  /** The zero record the driver's private state starts with (it is calloc'ed). */
  const NoInput := Input(0, 0, 0, 0, 0)

  predicate IsRelative(flags: bv32)
  {
    flags & MoveRelative != 0
  }

  /** What one call of `VMMouseClient_GetInput` yields. */
  datatype Poll = Empty | Sample(data: Input) | Error

  /**
   * Everything the core emits, in order: the two X server calls
   * `xf86PostMotionEvent`/`xf86PostButtonEvent`, and the backdoor commands.
   */
  datatype Event =
    | Motion(absolute: bool, x: int, y: int)
    | Button(id: bv32, down: bool)
    | Disable
    | Enable
    | RequestAbsolute

  /** The fields `lastButtons`, `isCurrRelative` and `vmmousePrevInput`. */
  datatype Translator = Translator(lastButtons: bv32, isCurrRelative: bool, prev: Input)

  /**
   * The Z-axis mapping held in `negativeZ`, `positiveZ`, `negativeW` and
   * `positiveW`.  `VMMousePostEvent` switches on `negativeZ`: the two axis
   * codes select `MapToX`/`MapToY`, `MSE_NOZMAP` (0) selects `NoMap`, and
   * any other value means the four fields hold button bits.
   */
  datatype ZMap = NoMap | MapToX | MapToY | ToButtons(negZ: bv32, posZ: bv32, negW: bv32, posW: bv32)

  /**
   * The switch takes its button branch only when `negativeZ` is not
   * `MSE_NOZMAP`; every mapping the option parser builds has this form.
   */
  predicate WellFormed(z: ZMap)
  {
    z.ToButtons? ==> z.negZ != 0
  }

  type ZConfig = z: ZMap | WellFormed(z) witness NoMap

  /** The working values after the Z-axis mapping step. */
  datatype Mapped = Mapped(buttons: bv32, dx: int, dy: int, zbutton: bv32)

  /** The four button bits a `ToButtons` mapping owns. */
  function WheelMask(cfg: ZMap): bv32
  {
    match cfg
    case ToButtons(nz, pz, nw, pw) => nz | pz | nw | pw
    case _ => 0
  }

  /** The Z-axis mapping step of `VMMousePostEvent`. */
  function MapZ(cfg: ZConfig, relative: bool, buttons: bv32, dx: int, dy: int, dz: int, dw: int): Mapped
  {
    match cfg
    case NoMap => Mapped(buttons, dx, dy, 0)
    case MapToX =>
      if dz != 0 then Mapped(buttons, if relative then dz else dx + dz, dy, 0)
      else Mapped(buttons, dx, dy, 0)
    case MapToY =>
      if dz != 0 then Mapped(buttons, dx, if relative then dz else dy + dz, 0)
      else Mapped(buttons, dx, dy, 0)
    case ToButtons(nz, pz, nw, pw) =>
      var zbutton := WheelButton(nz, pz, nw, pw, dz, dw);
      Mapped((buttons & !WheelMask(cfg)) | zbutton, dx, dy, zbutton)
  }

  /** The wheel button chosen for a Z (`dz`) and W (`dw`) movement; 0 for none. */
  function WheelButton(negZ: bv32, posZ: bv32, negW: bv32, posW: bv32, dz: int, dw: int): bv32
  {
    if dw < 0 || dz < -1 then negW
    else if dz < 0 then negZ
    else if dw > 0 || dz > 1 then posW
    else if dz > 0 then posZ
    else 0
  }

  /** The motion test of `VMMouseDoPostEvent`. */
  predicate MouseMoved(relative: bool, prev: Input, dx: int, dy: int)
  {
    if relative then dx != 0 || dy != 0
    else dx != prev.x || dy != prev.y || IsRelative(prev.flags)
  }

  function MotionEvents(relative: bool, prev: Input, dx: int, dy: int): seq<Event>
  {
    if MouseMoved(relative, prev, dx, dy) then [Motion(!relative, dx, dy)] else []
  }

  /**
   * Reference definition of the button events for a change mask: one event
   * per set bit of `change` at position `i` or above, in ascending order,
   * numbered from 1, pressed when the bit is set in `now`.
   */
  function Edges(change: bv32, now: bv32, i: bv32): seq<Event>
    requires i <= 32
    decreases 32 - i
  {
    if i == 32 then []
    else (if Bit(change, i) then [Button(i + 1, Bit(now, i))] else []) + Edges(change, now, i + 1)
  }

  /** The button events `VMMouseDoPostEvent` posts when the mask goes from `last` to `buttons`. */
  function ButtonEvents(last: bv32, buttons: bv32): seq<Event>
  {
    if buttons == last then []
    else Edges(ReverseBits(buttons) ^ ReverseBits(last), ReverseBits(buttons), 0)
  }

  /** How the X server's view of the buttons changes with one event (1-based ids). */
  function ApplyButton(mask: bv32, e: Event): bv32
  {
    if e.Button? && 1 <= e.id <= 32 then SetBit(mask, e.id - 1, e.down) else mask
  }

  /** Events posted in two runs read as one run. */
  lemma AppendAssoc(a: seq<Event>, b: seq<Event>, c: seq<Event>)
    ensures (a + b) + c == a + (b + c)
  {
  }

  /** The X server's view of the buttons after a run of events. */
  function ApplyButtons(mask: bv32, events: seq<Event>): bv32
    decreases |events|
  {
    if events == [] then mask else ApplyButtons(ApplyButton(mask, events[0]), events[1..])
  }

  lemma {:induction false} ApplyButtonsAppend(mask: bv32, a: seq<Event>, b: seq<Event>)
    ensures ApplyButtons(mask, a + b) == ApplyButtons(ApplyButtons(mask, a), b)
    decreases |a|
  {
    if a == [] {
      assert a + b == b;
    } else {
      assert (a + b)[0] == a[0] && (a + b)[1..] == a[1..] + b;
      ApplyButtonsAppend(ApplyButton(mask, a[0]), a[1..], b);
    }
  }

  /** Positions in `[p, k)` that are clear in `change` yield no event. */
  lemma {:induction false} EdgesSkip(change: bv32, now: bv32, p: bv32, k: bv32)
    requires p <= k <= 32 && ClearBetween(change, p, k)
    ensures Edges(change, now, p) == Edges(change, now, k)
    decreases k - p
  {
    if p < k {
      ClearBetweenStep(change, p, k);
      EdgesSkip(change, now, p + 1, k);
      EdgesClearBit(change, now, p);
    }
  }

  /** A position whose bit is clear in `change` contributes no event. */
  lemma EdgesClearBit(change: bv32, now: bv32, i: bv32)
    requires i < 32
    ensures !Bit(change, i) ==> Edges(change, now, i) == Edges(change, now, i + 1)
  {
    if !Bit(change, i) {
      assert Edges(change, now, i) == [] + Edges(change, now, i + 1);
      assert [] + Edges(change, now, i + 1) == Edges(change, now, i + 1);
    }
  }

  /** Only the bits at position `k` and above matter. */
  lemma {:induction false} EdgesAgree(a: bv32, b: bv32, now: bv32, k: bv32)
    requires k <= 32 && AgreeFrom(a, b, k)
    ensures Edges(a, now, k) == Edges(b, now, k)
    decreases 32 - k
  {
    if k < 32 {
      AgreeFromStep(a, b, k);
      EdgesAgree(a, b, now, k + 1);
    }
  }

  /** No change, no event. */
  lemma EdgesOfZero(now: bv32, i: bv32)
    requires i <= 32
    ensures Edges(0, now, i) == []
  {
    EdgesSkip(0, now, i, 32);
  }

  /** Below the lowest changed bit `k` nothing is posted. */
  lemma EdgesFromLowest(change: bv32, now: bv32, k: Index)
    requires Bit(change, k) && ClearBelow(change, k)
    ensures Edges(change, now, 0) == [Button(k + 1, Bit(now, k))] + Edges(change, now, k + 1)
  {
    ClearBelowIsClearBetween(change, k);
    EdgesSkip(change, now, 0, k);
  }

  /** Clearing the lowest changed bit `k` leaves the events above it. */
  lemma EdgesAfterLowest(change: bv32, now: bv32, k: Index)
    requires Bit(change, k) && ClearBelow(change, k)
    ensures Edges(change & !(1 << k), now, 0) == Edges(change, now, k + 1)
  {
    var cleared := change & !(1 << k);
    ClearLowestBit(change, k);
    ClearBelowIsClearBetween(cleared, k + 1);
    EdgesSkip(cleared, now, 0, k + 1);
    ClearBitKeepsHigher(change, k);
    EdgesAgree(change, cleared, now, k + 1);
  }

  /**
   * With `k` the lowest changed bit (what `ffs` finds), the first event is for
   * bit `k` and the rest are the events of the change mask with that bit
   * cleared: one turn of the loop in `VMMouseDoPostEvent`.
   */
  lemma EdgesLowest(change: bv32, now: bv32, k: Index)
    requires Bit(change, k) && ClearBelow(change, k)
    ensures Edges(change, now, 0) == [Button(k + 1, Bit(now, k))] + Edges(change & !(1 << k), now, 0)
  {
    EdgesFromLowest(change, now, k);
    EdgesAfterLowest(change, now, k);
  }

  /** The events for a non-zero change start with the one for the bit `ffs` finds. */
  lemma EdgesAtFfs(change: bv32, now: bv32)
    ensures change != 0 ==>
      Edges(change, now, 0) == [Button(Ffs(change), Bit(now, Ffs(change) - 1))] + Edges(DropLowest(change), now, 0)
  {
    FfsFindsLowest(change);
    EdgesAtLowest(change, now);
  }

  /** `EdgesLowest` at the bit `ffs` finds, given what `FfsFindsLowest` establishes about it. */
  lemma EdgesAtLowest(change: bv32, now: bv32)
    ensures change != 0 && LowestSet(change) ==>
      Edges(change, now, 0) == [Button(Ffs(change), Bit(now, Ffs(change) - 1))] + Edges(DropLowest(change), now, 0)
  {
    if change != 0 && LowestSet(change) {
      EdgesLowest(change, now, Ffs(change) - 1);
    }
  }

  /** Every event is a button event for a changed bit at `i` or above, carrying its new state. */
  lemma {:induction false} EdgesSound(change: bv32, now: bv32, i: bv32)
    requires i <= 32
    ensures forall e :: e in Edges(change, now, i) ==>
      e.Button? && i < e.id <= 32 && Bit(change, e.id - 1) && e.down == Bit(now, e.id - 1)
    decreases 32 - i
  {
    if i < 32 {
      EdgesSound(change, now, i + 1);
    }
  }

  /** Every changed bit at `i` or above has its event. */
  lemma {:induction false} EdgesComplete(change: bv32, now: bv32, i: bv32, j: Index)
    requires i <= j && Bit(change, j)
    ensures Button(j + 1, Bit(now, j)) in Edges(change, now, i)
    decreases j - i
  {
    EdgesUnfold(change, now, i);
    if i < j {
      EdgesComplete(change, now, i + 1, j);
    }
  }

  /** The events of position `i` and above: the one for `i`, if its bit changed, then the rest. */
  lemma EdgesUnfold(change: bv32, now: bv32, i: bv32)
    requires i < 32
    ensures Edges(change, now, i) ==
      (if Bit(change, i) then [Button(i + 1, Bit(now, i))] else []) + Edges(change, now, i + 1)
  {
  }

  /**
   * Only button events, each numbered below the next one: strictly ascending
   * button order, so no button is reported twice.
   */
  predicate Ascending(es: seq<Event>)
    decreases |es|
  {
    if |es| <= 1 then es == [] || es[0].Button?
    else es[0].Button? && es[1].Button? && es[0].id < es[1].id && Ascending(es[1..])
  }

  /** The first event of the positions `i` and above, if any, names a button above `i`. */
  lemma {:induction false} EdgesHead(change: bv32, now: bv32, i: bv32)
    requires i <= 32
    ensures var es := Edges(change, now, i);
      es != [] ==> es[0].Button? && i < es[0].id
    decreases 32 - i
  {
    if i < 32 && !Bit(change, i) {
      EdgesHead(change, now, i + 1);
      assert Edges(change, now, i) == [] + Edges(change, now, i + 1);
    }
  }

  lemma AscendingPrepend(e: Event, tail: seq<Event>)
    requires e.Button? && Ascending(tail)
    requires tail != [] ==> tail[0].Button? && e.id < tail[0].id
    ensures Ascending([e] + tail)
  {
    assert ([e] + tail)[1..] == tail;
  }

  lemma {:induction false} EdgesAscending(change: bv32, now: bv32, i: bv32)
    requires i <= 32
    ensures Ascending(Edges(change, now, i))
    decreases 32 - i
  {
    if i < 32 {
      var tail := Edges(change, now, i + 1);
      EdgesAscending(change, now, i + 1);
      if Bit(change, i) {
        EdgesHead(change, now, i + 1);
        AscendingPrepend(Button(i + 1, Bit(now, i)), tail);
      } else {
        assert Edges(change, now, i) == [] + tail;
        assert [] + tail == tail;
      }
    }
  }

  /** Replaying the events of the positions `i` and above on `mask` replaces exactly those changed bits. */
  lemma {:induction false} ApplyEdges(mask: bv32, change: bv32, now: bv32, i: bv32)
    requires i <= 32
    ensures ApplyButtons(mask, Edges(change, now, i)) == Replace(mask, change, now, HighMask(i))
    decreases 32 - i
  {
    if i == 32 {
      ReplaceNone(mask, change, now);
    } else {
      var head := if Bit(change, i) then [Button(i + 1, Bit(now, i))] else [];
      ApplyButtonsAppend(mask, head, Edges(change, now, i + 1));
      if Bit(change, i) {
        var next := SetBit(mask, i, Bit(now, i));
        assert ApplyButtons(mask, head) == next;
        ApplyEdges(next, change, now, i + 1);
        if Bit(now, i) {
          ReplaceStepSet(mask, change, now, i);
        } else {
          ReplaceStepClear(mask, change, now, i);
        }
      } else {
        ApplyEdges(mask, change, now, i + 1);
        ReplaceStepSkip(mask, change, now, i);
      }
    }
  }

  /**
   * The events `VMMouseDoPostEvent` posts take the server's view of the
   * buttons from the remapped old mask to the remapped new mask.
   */
  lemma ButtonEventsReachMask(last: bv32, buttons: bv32)
    ensures ApplyButtons(ReverseBits(last), ButtonEvents(last, buttons)) == ReverseBits(buttons)
  {
    if buttons != last {
      EdgesReachMask(ReverseBits(last), ReverseBits(buttons));
    }
  }

  /** Replaying the events of every changed bit takes `from` to `to`. */
  lemma EdgesReachMask(from: bv32, to: bv32)
    ensures ApplyButtons(from, Edges(to ^ from, to, 0)) == to
  {
    ApplyEdges(from, to ^ from, to, 0);
    ReplaceAll(from, to);
  }

  /** An event is posted exactly when the mask changed. */
  lemma ButtonEventsEmpty(last: bv32, buttons: bv32)
    ensures ButtonEvents(last, buttons) == [] <==> buttons == last
  {
    if buttons != last {
      var change := ReverseBits(buttons) ^ ReverseBits(last);
      ReverseBitsInjective(buttons, last);
      FfsSpec(change);
      EdgesComplete(change, ReverseBits(buttons), 0, Ffs(change) - 1);
    }
  }

  /**
   * The button events of `VMMouseDoPostEvent`, all in one: none when the
   * pre-remap mask is unchanged; otherwise one event per bit of the change
   * between the remapped masks, in strictly ascending button order, each
   * pressed exactly when that bit is set in the new remapped mask.
   */
  lemma ButtonEventsExact(last: bv32, buttons: bv32)
    ensures buttons == last ==> ButtonEvents(last, buttons) == []
    ensures Ascending(ButtonEvents(last, buttons))
    ensures var change := ReverseBits(buttons) ^ ReverseBits(last);
      && (forall e :: e in ButtonEvents(last, buttons) ==>
            e.Button? && 0 < e.id <= 32 && Bit(change, e.id - 1) && e.down == Bit(ReverseBits(buttons), e.id - 1))
      && (forall j: Index :: Bit(change, j) ==> Button(j + 1, Bit(ReverseBits(buttons), j)) in ButtonEvents(last, buttons))
  {
    var change := ReverseBits(buttons) ^ ReverseBits(last);
    if buttons != last {
      EdgesAscending(change, ReverseBits(buttons), 0);
      EdgesSound(change, ReverseBits(buttons), 0);
      forall j: Index | Bit(change, j)
        ensures Button(j + 1, Bit(ReverseBits(buttons), j)) in ButtonEvents(last, buttons)
      {
        EdgesComplete(change, ReverseBits(buttons), 0, j);
      }
    } else {
      assert change == 0;
    }
  }

  /** The result of translating: the new state and what was emitted. */
  datatype Step = Step(state: Translator, events: seq<Event>)

  /** `VMMouseDoPostEvent`: motion edge detection, then per-bit button events. */
  function DoPost(s: Translator, buttons: bv32, dx: int, dy: int): Step
  {
    Step(s.(lastButtons := buttons),
         MotionEvents(s.isCurrRelative, s.prev, dx, dy) + ButtonEvents(s.lastButtons, buttons))
  }

  /** `VMMousePostEvent`: map the Z axis, then post. */
  function Post(cfg: ZConfig, s: Translator, buttons: bv32, dx: int, dy: int, dz: int, dw: int): Step
  {
    PostMapped(s, MapZ(cfg, s.isCurrRelative, buttons, dx, dy, dz, dw))
  }

  /**
   * The posting half of `VMMousePostEvent`: post once, and when a wheel button
   * was pressed post again without it (without motion in relative mode).
   */
  function PostMapped(s: Translator, m: Mapped): Step
  {
    var first := DoPost(s, m.buttons, m.dx, m.dy);
    if m.zbutton != 0 then
      var second := DoPost(first.state, m.buttons & !m.zbutton,
                           if s.isCurrRelative then 0 else m.dx,
                           if s.isCurrRelative then 0 else m.dy);
      Step(second.state, first.events + second.events)
    else
      first
  }

  /**
   * Where the release pass of `VMMousePostEvent` posts.  It runs only when a
   * wheel button was pressed.  In relative mode it posts no motion, only the
   * release; in absolute mode it repeats the first pass's motion, because the
   * previous sample is recorded only after both passes.
   */
  lemma PostReleasePass(s: Translator, m: Mapped)
    ensures var first := DoPost(s, m.buttons, m.dx, m.dy);
      var release := ButtonEvents(m.buttons, m.buttons & !m.zbutton);
      var motion := MotionEvents(s.isCurrRelative, s.prev, m.dx, m.dy);
      && (m.zbutton == 0 ==> PostMapped(s, m).events == first.events)
      && (m.zbutton != 0 && s.isCurrRelative ==> PostMapped(s, m).events == first.events + release)
      && (m.zbutton != 0 && !s.isCurrRelative ==> PostMapped(s, m).events == first.events + (motion + release))
  {
    if m.zbutton != 0 {
      var first := DoPost(s, m.buttons, m.dx, m.dy);
      var dx2 := if s.isCurrRelative then 0 else m.dx;
      var dy2 := if s.isCurrRelative then 0 else m.dy;
      PostMappedSplit(s, m);
      ReleaseEvents(first.state, s, m.buttons, m.buttons & !m.zbutton, dx2, dy2);
      if s.isCurrRelative {
        NoMotionAtRest(s.prev);
        assert forall es: seq<Event> :: [] + es == es;
      }
    }
  }

  /** The pass after the first one posts from the state the first left. */
  lemma ReleaseEvents(t: Translator, s: Translator, pressed: bv32, kept: bv32, dx: int, dy: int)
    requires t == s.(lastButtons := pressed)
    ensures DoPost(t, kept, dx, dy).events == MotionEvents(s.isCurrRelative, s.prev, dx, dy) + ButtonEvents(pressed, kept)
  {
  }

  /** In relative mode a zero delta is no motion. */
  lemma NoMotionAtRest(prev: Input)
    ensures MotionEvents(true, prev, 0, 0) == []
  {
  }

  /** `(char)z`: the low 8 bits of `z` read as a signed byte. */
  function SignExtend8(z: int): (r: int)
    ensures -128 <= r < 128
    ensures (z - r) % 256 == 0
  {
    var low := z % 256;
    if low >= 128 then low - 256 else low
  }

  /** How one sample is translated inside the loop of `GetVMMouseMotionEvent`. */
  function TranslateSample(cfg: ZConfig, s: Translator, d: Input): Step
  {
    var step := Post(cfg, s.(isCurrRelative := IsRelative(d.flags)),
                     SampleButtons(d.buttons), d.x, d.y, SignExtend8(d.z), 0);
    Step(step.state.(prev := d), step.events)
  }

  datatype FetchResult = FetchResult(state: Translator, events: seq<Event>, rest: seq<Poll>)

  /**
   * `GetVMMouseMotionEvent`: poll the queued results until one is empty (an
   * exhausted queue polls as empty) or an error, which triggers the
   * disable/enable/re-request sequence and ends the call.
   */
  function Fetch(cfg: ZConfig, s: Translator, queue: seq<Poll>): FetchResult
    decreases |queue|
  {
    if queue == [] then FetchResult(s, [], [])
    else
      match queue[0]
      case Empty => FetchResult(s, [], queue[1..])
      case Error => FetchResult(s, [Disable, Enable, RequestAbsolute], queue[1..])
      case Sample(d) =>
        var step := TranslateSample(cfg, s, d);
        var r := Fetch(cfg, step.state, queue[1..]);
        FetchResult(r.state, step.events + r.events, r.rest)
  }

  /** `k` calls of `GetVMMouseMotionEvent` in a row. */
  function FetchTimes(cfg: ZConfig, s: Translator, queue: seq<Poll>, k: nat): FetchResult
  {
    if k == 0 then FetchResult(s, [], queue)
    else
      var r := FetchTimes(cfg, s, queue, k - 1);
      var f := Fetch(cfg, r.state, r.rest);
      FetchResult(f.state, r.events + f.events, f.rest)
  }

  /** One more call after `k` calls: it starts where they stopped, and its events follow theirs. */
  lemma FetchTimesNext(cfg: ZConfig, s: Translator, queue: seq<Poll>, k: nat, before: seq<Event>)
    ensures var r := FetchTimes(cfg, s, queue, k);
      var f := Fetch(cfg, r.state, r.rest);
      var r' := FetchTimes(cfg, s, queue, k + 1);
      r'.state == f.state && r'.rest == f.rest && (before + r.events) + f.events == before + r'.events
  {
    var r := FetchTimes(cfg, s, queue, k);
    AppendAssoc(before, r.events, Fetch(cfg, r.state, r.rest).events);
  }

  /** `len` counts the bytes of an unfinished packet, so whole packets number `bytes / 3`. */
  lemma PacketCount(bytes: nat, packets: nat, len: nat)
    requires bytes == 3 * packets + len && len < 3
    ensures bytes / 3 == packets
  {
  }

  /** A motion event leads the events of one post. */
  predicate PostsMotion(es: seq<Event>)
  {
    |es| > 0 && es[0].Motion?
  }

  /** Button events are all a change of mask produces. */
  lemma ButtonEventsAreButtons(last: bv32, buttons: bv32)
    ensures forall e :: e in ButtonEvents(last, buttons) ==> e.Button?
  {
    if buttons != last {
      EdgesSound(ReverseBits(buttons) ^ ReverseBits(last), ReverseBits(buttons), 0);
    }
  }

  /**
   * `VMMouseDoPostEvent` records the new mask and nothing else, posts at most
   * one motion event, first, in the device's current mode.
   */
  lemma DoPostShape(s: Translator, buttons: bv32, dx: int, dy: int)
    ensures var r := DoPost(s, buttons, dx, dy);
      && r.state == s.(lastButtons := buttons)
      && (forall k :: 0 < k < |r.events| ==> r.events[k].Button?)
      && (PostsMotion(r.events) ==> r.events[0] == Motion(!s.isCurrRelative, dx, dy))
  {
    var r := DoPost(s, buttons, dx, dy);
    var motion := MotionEvents(s.isCurrRelative, s.prev, dx, dy);
    var presses := ButtonEvents(s.lastButtons, buttons);
    ButtonEventsAreButtons(s.lastButtons, buttons);
    if motion == [] && |presses| > 0 {
      assert r.events[0] == presses[0] && presses[0] in presses;
    }
    forall k | 0 < k < |r.events|
      ensures r.events[k].Button?
    {
      assert r.events[k] == presses[k - |motion|];
      assert presses[k - |motion|] in presses;
    }
  }

  /**
   * When `VMMouseDoPostEvent` posts motion: in relative mode on any non-zero
   * delta; in absolute mode on a new position, and always right after a
   * relative sample.
   */
  lemma DoPostMotion(s: Translator, buttons: bv32, dx: int, dy: int)
    ensures var r := DoPost(s, buttons, dx, dy);
      && (s.isCurrRelative ==> (PostsMotion(r.events) <==> dx != 0 || dy != 0))
      && (!s.isCurrRelative && IsRelative(s.prev.flags) ==> PostsMotion(r.events))
      && (!s.isCurrRelative && !IsRelative(s.prev.flags) ==>
            (PostsMotion(r.events) <==> dx != s.prev.x || dy != s.prev.y))
  {
    var r := DoPost(s, buttons, dx, dy);
    var presses := ButtonEvents(s.lastButtons, buttons);
    ButtonEventsAreButtons(s.lastButtons, buttons);
    if !MouseMoved(s.isCurrRelative, s.prev, dx, dy) && |presses| > 0 {
      assert r.events[0] == presses[0] && presses[0] in presses;
    }
  }

  /** The X server's view of the buttons ignores everything but button events. */
  lemma {:induction false} ApplyPointerMotion(mask: bv32, es: seq<Event>)
    requires forall e :: e in es ==> !e.Button?
    ensures ApplyButtons(mask, es) == mask
    decreases |es|
  {
    if es != [] {
      assert es[0] in es;
      assert forall e :: e in es[1..] ==> e in es;
      ApplyPointerMotion(mask, es[1..]);
    }
  }

  /**
   * After `VMMouseDoPostEvent` the server's view of the buttons is the remapped
   * `lastButtons`, provided it was before.
   */
  lemma DoPostSync(s: Translator, buttons: bv32, dx: int, dy: int)
    ensures var r := DoPost(s, buttons, dx, dy);
      ApplyButtons(ReverseBits(s.lastButtons), r.events) == ReverseBits(r.state.lastButtons)
  {
    var motion := MotionEvents(s.isCurrRelative, s.prev, dx, dy);
    var m := ReverseBits(s.lastButtons);
    ApplyButtonsAppend(m, motion, ButtonEvents(s.lastButtons, buttons));
    ApplyPointerMotion(m, motion);
    ButtonEventsReachMask(s.lastButtons, buttons);
  }

  /** The chosen wheel button is one of the four mapped ones, or none. */
  lemma WheelButtonIsMapped(negZ: bv32, posZ: bv32, negW: bv32, posW: bv32, dz: int, dw: int)
    ensures WheelButton(negZ, posZ, negW, posW, dz, dw) & !(negZ | posZ | negW | posW) == 0
  {
    var w := negZ | posZ | negW | posW;
    if dw < 0 || dz < -1 {
      InsideUnion(negW, negZ | posZ, posW);
    } else if dz < 0 {
      InsideUnion(negZ, 0, posZ | negW | posW);
    } else if dw > 0 || dz > 1 {
      InsideUnion(posW, negZ | posZ | negW, 0);
    } else if dz > 0 {
      InsideUnion(posZ, negZ, negW | posW);
    }
  }

  lemma InsideUnion(a: bv32, before: bv32, after: bv32)
    ensures a & !(before | a | after) == 0
  {
  }

  /*
   * Clearing the bits of `w` in `b` and setting `z` inside them, one fact per
   * lemma.  Stated as implications so that callers carry no proof obligation.
   */
  lemma InsertKeepsOutside(x: bv32, b: bv32, w: bv32, z: bv32)
    ensures x == (b & !w) | z && z & !w == 0 ==> x & !w == b & !w
  {
  }

  lemma InsertSetsInside(x: bv32, b: bv32, w: bv32, z: bv32)
    ensures x == (b & !w) | z && z & !w == 0 ==> x & w == z
  {
  }

  lemma InsertThenClear(x: bv32, b: bv32, w: bv32, z: bv32)
    ensures x == (b & !w) | z && z & !w == 0 ==> x & !z == b & !w
  {
  }

  /** `x & !0 == x` and `x & 0 == 0`, for the masks of a mapping with no wheel button. */
  lemma ClearNothing(x: bv32)
    ensures x & !0 == x
  {
  }

  lemma AndZero(x: bv32)
    ensures x & 0 == 0
  {
  }

  /** The button branch of the switch, written out. */
  lemma MapZButtonsForm(cfg: ZConfig, relative: bool, buttons: bv32, dx: int, dy: int, dz: int, dw: int)
    requires cfg.ToButtons?
    ensures var z := WheelButton(cfg.negZ, cfg.posZ, cfg.negW, cfg.posW, dz, dw);
      MapZ(cfg, relative, buttons, dx, dy, dz, dw) == Mapped((buttons & !WheelMask(cfg)) | z, dx, dy, z)
  {
  }

  /** The axis branches of the switch leave the buttons alone. */
  lemma MapZAxisForm(cfg: ZConfig, relative: bool, buttons: bv32, dx: int, dy: int, dz: int, dw: int)
    ensures var m := MapZ(cfg, relative, buttons, dx, dy, dz, dw);
      !cfg.ToButtons? ==> m.buttons == buttons && m.zbutton == 0 && WheelMask(cfg) == 0
  {
  }

  /*
   * A button mapping clears the wheel buttons and sets the chosen one, which
   * is one of them.
   */
  lemma MapZWheelLayout(cfg: ZConfig, relative: bool, buttons: bv32, dx: int, dy: int, dz: int, dw: int)
    requires cfg.ToButtons?
    ensures var m := MapZ(cfg, relative, buttons, dx, dy, dz, dw);
      m.buttons == (buttons & !WheelMask(cfg)) | m.zbutton
  {
    MapZButtonsForm(cfg, relative, buttons, dx, dy, dz, dw);
  }

  lemma MapZWheelInside(cfg: ZConfig, relative: bool, buttons: bv32, dx: int, dy: int, dz: int, dw: int)
    requires cfg.ToButtons?
    ensures MapZ(cfg, relative, buttons, dx, dy, dz, dw).zbutton & !WheelMask(cfg) == 0
  {
    MapZButtonsForm(cfg, relative, buttons, dx, dy, dz, dw);
    WheelButtonIsMapped(cfg.negZ, cfg.posZ, cfg.negW, cfg.posW, dz, dw);
  }

  /** The Z-axis step keeps every button outside the four wheel buttons. */
  lemma MapZKeepsOtherButtons(cfg: ZConfig, relative: bool, buttons: bv32, dx: int, dy: int, dz: int, dw: int)
    ensures MapZ(cfg, relative, buttons, dx, dy, dz, dw).buttons & !WheelMask(cfg) == buttons & !WheelMask(cfg)
  {
    if cfg.ToButtons? {
      ButtonsKeepOthers(cfg, relative, buttons, dx, dy, dz, dw);
    } else {
      MapZAxisForm(cfg, relative, buttons, dx, dy, dz, dw);
      ClearNothing(buttons);
    }
  }

  lemma ButtonsKeepOthers(cfg: ZConfig, relative: bool, buttons: bv32, dx: int, dy: int, dz: int, dw: int)
    requires cfg.ToButtons?
    ensures MapZ(cfg, relative, buttons, dx, dy, dz, dw).buttons & !WheelMask(cfg) == buttons & !WheelMask(cfg)
  {
    var m := MapZ(cfg, relative, buttons, dx, dy, dz, dw);
    MapZWheelLayout(cfg, relative, buttons, dx, dy, dz, dw);
    MapZWheelInside(cfg, relative, buttons, dx, dy, dz, dw);
    InsertKeepsOutside(m.buttons, buttons, WheelMask(cfg), m.zbutton);
  }

  /** Inside the wheel buttons only the chosen one is set. */
  lemma MapZSetsWheelButton(cfg: ZConfig, relative: bool, buttons: bv32, dx: int, dy: int, dz: int, dw: int)
    ensures MapZ(cfg, relative, buttons, dx, dy, dz, dw).buttons & WheelMask(cfg)
         == MapZ(cfg, relative, buttons, dx, dy, dz, dw).zbutton
  {
    if cfg.ToButtons? {
      ButtonsSetWheel(cfg, relative, buttons, dx, dy, dz, dw);
    } else {
      MapZAxisForm(cfg, relative, buttons, dx, dy, dz, dw);
      AndZero(buttons);
    }
  }

  lemma ButtonsSetWheel(cfg: ZConfig, relative: bool, buttons: bv32, dx: int, dy: int, dz: int, dw: int)
    requires cfg.ToButtons?
    ensures MapZ(cfg, relative, buttons, dx, dy, dz, dw).buttons & WheelMask(cfg)
         == MapZ(cfg, relative, buttons, dx, dy, dz, dw).zbutton
  {
    var m := MapZ(cfg, relative, buttons, dx, dy, dz, dw);
    MapZWheelLayout(cfg, relative, buttons, dx, dy, dz, dw);
    MapZWheelInside(cfg, relative, buttons, dx, dy, dz, dw);
    InsertSetsInside(m.buttons, buttons, WheelMask(cfg), m.zbutton);
  }

  /** Releasing the chosen wheel button leaves no wheel button set. */
  lemma MapZRelease(cfg: ZConfig, relative: bool, buttons: bv32, dx: int, dy: int, dz: int, dw: int)
    requires cfg.ToButtons?
    ensures var m := MapZ(cfg, relative, buttons, dx, dy, dz, dw);
      m.buttons & !m.zbutton == buttons & !WheelMask(cfg)
  {
    var m := MapZ(cfg, relative, buttons, dx, dy, dz, dw);
    MapZWheelLayout(cfg, relative, buttons, dx, dy, dz, dw);
    MapZWheelInside(cfg, relative, buttons, dx, dy, dz, dw);
    InsertThenClear(m.buttons, buttons, WheelMask(cfg), m.zbutton);
  }

  /**
   * The axis mappings leave the buttons alone and choose no wheel button, a
   * button mapping never moves the pointer, and without Z movement the deltas
   * pass through; without any wheel movement no wheel button is chosen.
   */
  lemma MapZAxes(cfg: ZConfig, relative: bool, buttons: bv32, dx: int, dy: int, dz: int, dw: int)
    ensures var m := MapZ(cfg, relative, buttons, dx, dy, dz, dw);
      && (cfg.NoMap? ==> m == Mapped(buttons, dx, dy, 0))
      && (!cfg.ToButtons? ==> m.zbutton == 0 && m.buttons == buttons)
      && (cfg.ToButtons? ==> m.dx == dx && m.dy == dy)
      && (cfg.MapToX? && dz != 0 ==> m.dx == (if relative then dz else dx + dz) && m.dy == dy)
      && (cfg.MapToY? && dz != 0 ==> m.dy == (if relative then dz else dy + dz) && m.dx == dx)
      && (dz == 0 ==> m.dx == dx && m.dy == dy)
      && (dz == 0 && dw == 0 ==> m.zbutton == 0)
  {
  }

  /**
   * With the default mapping (wheel to buttons 4 and 5, no second wheel) one
   * wheel step selects a button and a larger step selects none: those deltas
   * are reserved for the unmapped second wheel.
   */
  lemma DefaultMappingSteps(relative: bool, buttons: bv32, dx: int, dy: int, dz: int)
    ensures MapZ(ToButtons(0x08, 0x10, 0, 0), relative, buttons, dx, dy, dz, 0).zbutton ==
      (if dz == -1 then 0x08 else if dz == 1 then 0x10 else 0)
  {
  }

  /** The two posts of a wheel click, one after the other. */
  lemma PostMappedSplit(s: Translator, m: Mapped)
    requires m.zbutton != 0
    ensures var first := DoPost(s, m.buttons, m.dx, m.dy);
      var second := DoPost(first.state, m.buttons & !m.zbutton,
                           if s.isCurrRelative then 0 else m.dx,
                           if s.isCurrRelative then 0 else m.dy);
      PostMapped(s, m) == Step(second.state, first.events + second.events)
  {
  }

  /** Two runs of events that each keep the server in step keep it in step together. */
  lemma SyncChain(m0: bv32, l1: bv32, l2: bv32, e1: seq<Event>, e2: seq<Event>)
    ensures ApplyButtons(ReverseBits(m0), e1) == ReverseBits(l1) &&
            ApplyButtons(ReverseBits(l1), e2) == ReverseBits(l2) ==>
            ApplyButtons(ReverseBits(m0), e1 + e2) == ReverseBits(l2)
  {
    ApplyButtonsAppend(ReverseBits(m0), e1, e2);
  }

  lemma PostMappedSync(s: Translator, m: Mapped)
    ensures var r := PostMapped(s, m);
      ApplyButtons(ReverseBits(s.lastButtons), r.events) == ReverseBits(r.state.lastButtons)
  {
    var first := DoPost(s, m.buttons, m.dx, m.dy);
    DoPostSync(s, m.buttons, m.dx, m.dy);
    if m.zbutton != 0 {
      var dx2 := if s.isCurrRelative then 0 else m.dx;
      var dy2 := if s.isCurrRelative then 0 else m.dy;
      var second := DoPost(first.state, m.buttons & !m.zbutton, dx2, dy2);
      DoPostSync(first.state, m.buttons & !m.zbutton, dx2, dy2);
      SyncChain(s.lastButtons, first.state.lastButtons, second.state.lastButtons, first.events, second.events);
      PostMappedSplit(s, m);
    }
  }

  lemma PostMappedState(s: Translator, m: Mapped)
    ensures PostMapped(s, m).state == s.(lastButtons := if m.zbutton != 0 then m.buttons & !m.zbutton else m.buttons)
  {
    if m.zbutton != 0 {
      PostMappedSplit(s, m);
    }
  }

  lemma PostMappedRecords(s: Translator, m: Mapped, kept: bv32)
    requires m.buttons & !m.zbutton == kept
    ensures PostMapped(s, m).state == s.(lastButtons := kept)
  {
    PostMappedState(s, m);
    if m.zbutton == 0 {
      ClearNothing(m.buttons);
    }
  }

  /**
   * `VMMousePostEvent` records the given mask without the wheel buttons, so
   * a wheel button is never left held, and changes nothing else.
   */
  lemma PostReleasesWheel(cfg: ZConfig, s: Translator, buttons: bv32, dx: int, dy: int, dz: int, dw: int)
    ensures Post(cfg, s, buttons, dx, dy, dz, dw).state
         == s.(lastButtons := if cfg.ToButtons? then buttons & !WheelMask(cfg) else buttons)
  {
    var m := MapZ(cfg, s.isCurrRelative, buttons, dx, dy, dz, dw);
    if cfg.ToButtons? {
      MapZRelease(cfg, s.isCurrRelative, buttons, dx, dy, dz, dw);
      PostMappedRecords(s, m, buttons & !WheelMask(cfg));
    } else {
      MapZAxes(cfg, s.isCurrRelative, buttons, dx, dy, dz, dw);
      ClearNothing(buttons);
      PostMappedRecords(s, m, buttons);
    }
  }

  /** `VMMousePostEvent` keeps the server's view of the buttons in step with `lastButtons`. */
  lemma PostSync(cfg: ZConfig, s: Translator, buttons: bv32, dx: int, dy: int, dz: int, dw: int)
    ensures var r := Post(cfg, s, buttons, dx, dy, dz, dw);
      ApplyButtons(ReverseBits(s.lastButtons), r.events) == ReverseBits(r.state.lastButtons)
  {
    PostMappedSync(s, MapZ(cfg, s.isCurrRelative, buttons, dx, dy, dz, dw));
  }

  /*
   * The wheel click, on the mapped values: the first post's events come
   * first, after them the button is held, and after all of them released.
   */
  lemma ClickPressFirst(s: Translator, m: Mapped)
    ensures m.zbutton != 0 ==> DoPost(s, m.buttons, m.dx, m.dy).events <= PostMapped(s, m).events
  {
    if m.zbutton != 0 {
      PostMappedSplit(s, m);
    }
  }

  lemma ClickHeld(s: Translator, m: Mapped, w: bv32)
    ensures m.buttons & w == m.zbutton ==>
      ApplyButtons(ReverseBits(s.lastButtons), DoPost(s, m.buttons, m.dx, m.dy).events) & ReverseBits(m.zbutton)
         == ReverseBits(m.zbutton)
  {
    DoPostSync(s, m.buttons, m.dx, m.dy);
    HeldAfterPress(m.buttons, w, m.zbutton);
  }

  lemma ClickReleased(s: Translator, m: Mapped)
    ensures m.zbutton != 0 ==>
      ApplyButtons(ReverseBits(s.lastButtons), PostMapped(s, m).events) & ReverseBits(m.zbutton) == 0
  {
    PostMappedSync(s, m);
    PostMappedState(s, m);
    ReleasedAfterRelease(m.buttons, m.zbutton);
  }

  /*
   * A wheel movement mapped to a button is a click: the events of the first
   * post come first, the server sees the button held after them, and
   * released after all the events.
   */
  lemma WheelPressFirst(cfg: ZConfig, s: Translator, buttons: bv32, dx: int, dy: int, dz: int, dw: int)
    ensures var m := MapZ(cfg, s.isCurrRelative, buttons, dx, dy, dz, dw);
      m.zbutton != 0 ==> DoPost(s, m.buttons, m.dx, m.dy).events <= Post(cfg, s, buttons, dx, dy, dz, dw).events
  {
    ClickPressFirst(s, MapZ(cfg, s.isCurrRelative, buttons, dx, dy, dz, dw));
  }

  lemma WheelHeld(cfg: ZConfig, s: Translator, buttons: bv32, dx: int, dy: int, dz: int, dw: int, m: Mapped)
    requires m == MapZ(cfg, s.isCurrRelative, buttons, dx, dy, dz, dw)
    ensures ApplyButtons(ReverseBits(s.lastButtons), DoPost(s, m.buttons, m.dx, m.dy).events) & ReverseBits(m.zbutton)
         == ReverseBits(m.zbutton)
  {
    MapZSetsWheelButton(cfg, s.isCurrRelative, buttons, dx, dy, dz, dw);
    ClickHeld(s, m, WheelMask(cfg));
  }

  lemma WheelReleased(cfg: ZConfig, s: Translator, buttons: bv32, dx: int, dy: int, dz: int, dw: int)
    ensures var m := MapZ(cfg, s.isCurrRelative, buttons, dx, dy, dz, dw);
      m.zbutton != 0 ==>
        ApplyButtons(ReverseBits(s.lastButtons), Post(cfg, s, buttons, dx, dy, dz, dw).events) & ReverseBits(m.zbutton) == 0
  {
    ClickReleased(s, MapZ(cfg, s.isCurrRelative, buttons, dx, dy, dz, dw));
  }

  lemma HeldAfterPress(b: bv32, w: bv32, z: bv32)
    ensures b & w == z ==> ReverseBits(b) & ReverseBits(z) == ReverseBits(z)
  {
    ReverseBitsAnd(b, z);
    AndWithin(b, w, z);
  }

  lemma AndWithin(b: bv32, w: bv32, z: bv32)
    ensures b & w == z ==> b & z == z
  {
  }

  lemma ReleasedAfterRelease(b: bv32, z: bv32)
    ensures ReverseBits(b & !z) & ReverseBits(z) == 0
  {
    ReverseBitsAnd(b & !z, z);
    ClearedIsClear(b, z);
  }

  lemma ClearedIsClear(b: bv32, z: bv32)
    ensures (b & !z) & z == 0
  {
  }

  /** Translating a sample records its mode and the sample itself, and the mask without wheel buttons. */
  lemma TranslateSampleRecords(cfg: ZConfig, s: Translator, d: Input)
    ensures TranslateSample(cfg, s, d).state ==
      Translator(if cfg.ToButtons? then SampleButtons(d.buttons) & !WheelMask(cfg) else SampleButtons(d.buttons),
                 IsRelative(d.flags), d)
  {
    PostReleasesWheel(cfg, s.(isCurrRelative := IsRelative(d.flags)), SampleButtons(d.buttons), d.x, d.y, SignExtend8(d.z), 0);
  }

  /** Translating a sample keeps the server's view of the buttons in step with `lastButtons`. */
  lemma TranslateSampleSync(cfg: ZConfig, s: Translator, d: Input)
    ensures var r := TranslateSample(cfg, s, d);
      ApplyButtons(ReverseBits(s.lastButtons), r.events) == ReverseBits(r.state.lastButtons)
  {
    PostSync(cfg, s.(isCurrRelative := IsRelative(d.flags)), SampleButtons(d.buttons), d.x, d.y, SignExtend8(d.z), 0);
  }

  /** What the driver sends the backdoor after a failed read. */
  const Recovery: seq<Event> := [Disable, Enable, RequestAbsolute]

  /** A run of samples as the channel yields them. */
  function Samples(ds: seq<Input>): (q: seq<Poll>)
    ensures |q| == |ds|
    ensures forall i :: 0 <= i < |ds| ==> q[i] == Sample(ds[i])
  {
    if ds == [] then [] else [Sample(ds[0])] + Samples(ds[1..])
  }

  /** Reference definition: the samples translated one after the other. */
  function Drain(cfg: ZConfig, s: Translator, ds: seq<Input>): Step
    decreases |ds|
  {
    if ds == [] then Step(s, [])
    else
      var step := TranslateSample(cfg, s, ds[0]);
      var r := Drain(cfg, step.state, ds[1..]);
      Step(r.state, step.events + r.events)
  }

  /**
   * One call of `GetVMMouseMotionEvent` translates every queued sample in
   * order and stops at the first empty poll, or at the first error, after
   * which it sends the recovery commands; it consumes exactly that much.
   */
  lemma {:induction false} FetchSamplesThen(cfg: ZConfig, s: Translator, ds: seq<Input>, stop: Poll, rest: seq<Poll>)
    requires !stop.Sample?
    ensures var d := Drain(cfg, s, ds);
      Fetch(cfg, s, Samples(ds) + [stop] + rest)
        == FetchResult(d.state, d.events + (if stop.Error? then Recovery else []), rest)
    decreases |ds|
  {
    var recovery := if stop.Error? then Recovery else [];
    if ds == [] {
      var q := [stop] + rest;
      assert q[1..] == rest;
      assert Samples(ds) + [stop] + rest == q;
    } else {
      var tail := Samples(ds[1..]) + [stop] + rest;
      assert Samples(ds) + [stop] + rest == [Sample(ds[0])] + tail;
      FetchSampleFirst(cfg, s, ds[0], tail);
      var step := TranslateSample(cfg, s, ds[0]);
      FetchSamplesThen(cfg, step.state, ds[1..], stop, rest);
      AppendAssoc(step.events, Drain(cfg, step.state, ds[1..]).events, recovery);
    }
  }

  /** A call that finds a sample first translates it and carries on with the rest of the queue. */
  lemma FetchSampleFirst(cfg: ZConfig, s: Translator, d: Input, tail: seq<Poll>)
    ensures var step := TranslateSample(cfg, s, d);
      var r := Fetch(cfg, step.state, tail);
      Fetch(cfg, s, [Sample(d)] + tail) == FetchResult(r.state, step.events + r.events, r.rest)
  {
    var q := [Sample(d)] + tail;
    assert q[0] == Sample(d) && q[1..] == tail;
  }

  /** When the queue runs out the call translates everything and consumes it all. */
  lemma {:induction false} FetchAllSamples(cfg: ZConfig, s: Translator, ds: seq<Input>)
    ensures var d := Drain(cfg, s, ds);
      Fetch(cfg, s, Samples(ds)) == FetchResult(d.state, d.events, [])
    decreases |ds|
  {
    if ds != [] {
      var q := Samples(ds);
      assert q[1..] == Samples(ds[1..]);
      FetchAllSamples(cfg, TranslateSample(cfg, s, ds[0]).state, ds[1..]);
    }
  }

  /** What is left after a call is a proper suffix of a non-empty queue. */
  lemma {:induction false} FetchConsumes(cfg: ZConfig, s: Translator, queue: seq<Poll>)
    ensures var r := Fetch(cfg, s, queue);
      && |r.rest| <= |queue|
      && (queue != [] ==> |r.rest| < |queue|)
      && r.rest == queue[|queue| - |r.rest|..]
    decreases |queue|
  {
    if queue != [] && queue[0].Sample? {
      FetchConsumes(cfg, TranslateSample(cfg, s, queue[0].data).state, queue[1..]);
    }
  }

  /** Two calls in a row: the second starts where the first stopped. */
  lemma FetchTwice(cfg: ZConfig, s: Translator, queue: seq<Poll>)
    ensures var r1 := Fetch(cfg, s, queue);
      var r2 := Fetch(cfg, r1.state, r1.rest);
      FetchTimes(cfg, s, queue, 2) == FetchResult(r2.state, r1.events + r2.events, r2.rest)
  {
    assert FetchTimes(cfg, s, queue, 0) == FetchResult(s, [], queue);
    var r1 := Fetch(cfg, s, queue);
    assert [] + r1.events == r1.events;
  }

  /** A single sample drains to its own translation. */
  lemma DrainOne(cfg: ZConfig, s: Translator, d: Input)
    ensures var step := TranslateSample(cfg, s, d);
      Drain(cfg, s, [d]) == step && Samples([d]) == [Sample(d)]
  {
    var step := TranslateSample(cfg, s, d);
    assert [d][1..] == [];
    assert step.events + [] == step.events;
  }

  /**
   * A failed poll between two samples: the first read translates `a`, sends
   * the recovery commands once and stops; the next read picks up with `b`.
   */
  lemma ErrorThenResume(cfg: ZConfig, s: Translator, a: Input, b: Input)
    ensures var sa := TranslateSample(cfg, s, a);
      var sb := TranslateSample(cfg, sa.state, b);
      && Fetch(cfg, s, [Sample(a), Error, Sample(b)]) == FetchResult(sa.state, sa.events + Recovery, [Sample(b)])
      && FetchTimes(cfg, s, [Sample(a), Error, Sample(b)], 2)
           == FetchResult(sb.state, (sa.events + Recovery) + sb.events, [])
  {
    var q := [Sample(a), Error, Sample(b)];
    DrainOne(cfg, s, a);
    FetchSamplesThen(cfg, s, [a], Error, [Sample(b)]);
    assert Samples([a]) + [Error] + [Sample(b)] == q;
    var sa := TranslateSample(cfg, s, a);
    DrainOne(cfg, sa.state, b);
    FetchAllSamples(cfg, sa.state, [b]);
    FetchTwice(cfg, s, q);
  }

  /** Backdoor commands do not touch the server's view of the buttons. */
  lemma RecoveryKeepsButtons(mask: bv32)
    ensures ApplyButtons(mask, Recovery) == mask
  {
    ApplyPointerMotion(mask, Recovery);
  }

  /** After a call the server's view of the buttons is the remapped `lastButtons`, provided it was before. */
  lemma {:induction false} FetchSync(cfg: ZConfig, s: Translator, queue: seq<Poll>)
    ensures var r := Fetch(cfg, s, queue);
      ApplyButtons(ReverseBits(s.lastButtons), r.events) == ReverseBits(r.state.lastButtons)
    decreases |queue|
  {
    if queue != [] {
      match queue[0]
      case Empty =>
      case Error => RecoveryKeepsButtons(ReverseBits(s.lastButtons));
      case Sample(d) =>
        var step := TranslateSample(cfg, s, d);
        var r := Fetch(cfg, step.state, queue[1..]);
        TranslateSampleSync(cfg, s, d);
        FetchSync(cfg, step.state, queue[1..]);
        SyncChain(s.lastButtons, step.state.lastButtons, r.state.lastButtons, step.events, r.events);
    }
  }

  /** The server's view of the buttons after `r.events`, starting from `last`, is the remapped mask `r` records. */
  predicate Synced(last: bv32, r: FetchResult)
  {
    ApplyButtons(ReverseBits(last), r.events) == ReverseBits(r.state.lastButtons)
  }

  lemma SyncedAppend(last: bv32, r: FetchResult, f: FetchResult, t: FetchResult)
    ensures t == FetchResult(f.state, r.events + f.events, f.rest) && Synced(last, r) && Synced(r.state.lastButtons, f)
      ==> Synced(last, t)
  {
    SyncChain(last, r.state.lastButtons, f.state.lastButtons, r.events, f.events);
  }

  lemma FetchSynced(cfg: ZConfig, s: Translator, queue: seq<Poll>, f: FetchResult)
    ensures f == Fetch(cfg, s, queue) ==> Synced(s.lastButtons, f)
  {
    FetchSync(cfg, s, queue);
  }

  /** Repeated calls keep the server's view of the buttons in step too. */
  lemma {:induction false} FetchTimesSync(cfg: ZConfig, s: Translator, queue: seq<Poll>, k: nat)
    ensures Synced(s.lastButtons, FetchTimes(cfg, s, queue, k))
  {
    if k > 0 {
      var r := FetchTimes(cfg, s, queue, k - 1);
      var f := Fetch(cfg, r.state, r.rest);
      FetchTimesSync(cfg, s, queue, k - 1);
      FetchSynced(cfg, r.state, r.rest, f);
      SyncedAppend(s.lastButtons, r, f, FetchTimes(cfg, s, queue, k));
    }
  }

  /** A change of a single bit `k` is one event, for button `k + 1`. */
  lemma EdgesOneBit(k: Index, now: bv32)
    ensures Edges(1 << k, now, 0) == [Button(k + 1, Bit(now, k))]
  {
    EdgesLowest(1 << k, now, k);
    assert ((1 as bv32) << k) & !((1 as bv32) << k) == 0;
    EdgesOfZero(now, 0);
  }

  /**
   * One notch of the wheel with the default mapping (Z to buttons 4 and 5):
   * a relative sample whose Z byte is 0xff, with no button held and no
   * motion, is a press and a release of button 4 and leaves no button held.
   */
  lemma DefaultWheelNotch(s: Translator)
    requires s.lastButtons == 0
    ensures var r := TranslateSample(ToButtons(0x08, 0x10, 0, 0), s, Input(0, MoveRelative, 0, 0, 0xff));
      r.events == [Button(4, true), Button(4, false)] && r.state.lastButtons == 0
  {
    EdgesOneBit(3, 0x08);
    EdgesOneBit(3, 0);
    assert ButtonEvents(0, 0x08) == [Button(4, true)];
    assert ButtonEvents(0x08, 0) == [Button(4, false)];
  }

  /** What `VMMouseClient_GetInput` yields next: the head of the queue, or nothing once it is exhausted. */
  function NextPoll(queue: seq<Poll>): Poll
  {
    if queue == [] then Empty else queue[0]
  }

  /** The queue after one poll. */
  function AfterPoll(queue: seq<Poll>): (rest: seq<Poll>)
    ensures queue != [] ==> |rest| < |queue|
  {
    if queue == [] then [] else queue[1..]
  }

  /**
   * Part of a call of `GetVMMouseMotionEvent` is done: `done` was emitted,
   * and carrying on from the state `s` with the queue `queue` completes the
   * call as `goal`.
   */
  predicate Completes(cfg: ZConfig, goal: FetchResult, done: seq<Event>, s: Translator, queue: seq<Poll>)
  {
    var r := Fetch(cfg, s, queue);
    goal == FetchResult(r.state, done + r.events, r.rest)
  }

  /** Nothing done yet: the call itself. */
  lemma CompletesStart(cfg: ZConfig, s: Translator, queue: seq<Poll>)
    ensures Completes(cfg, Fetch(cfg, s, queue), [], s, queue)
  {
    assert [] + Fetch(cfg, s, queue).events == Fetch(cfg, s, queue).events;
  }

  /**
   * One turn of the polling loop: the next poll yields a sample, which is
   * translated, and the call carries on with the rest of the queue.
   */
  lemma CompletesSample(cfg: ZConfig, goal: FetchResult, done: seq<Event>, s: Translator, queue: seq<Poll>)
    requires NextPoll(queue).Sample?
    ensures var step := TranslateSample(cfg, s, NextPoll(queue).data);
      Completes(cfg, goal, done, s, queue) ==> Completes(cfg, goal, done + step.events, step.state, AfterPoll(queue))
  {
    var step := TranslateSample(cfg, s, NextPoll(queue).data);
    AppendAssoc(done, step.events, Fetch(cfg, step.state, AfterPoll(queue)).events);
  }

  /** The next poll yields nothing or an error: the call ends there. */
  lemma CompletesStop(cfg: ZConfig, goal: FetchResult, done: seq<Event>, s: Translator, queue: seq<Poll>)
    requires !NextPoll(queue).Sample?
    ensures Completes(cfg, goal, done, s, queue) ==>
      goal == FetchResult(s, done + (if NextPoll(queue).Error? then Recovery else []), AfterPoll(queue))
  {
    if queue == [] {
      assert done + [] == done;
    }
  }
}
