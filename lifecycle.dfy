/**
 * The device lifecycle of `VMMouseDeviceControl` (src/vmmouse.c) as a pure
 * state machine over the fields it writes.
 *
 * Opening the serial device, allocating the `Xisb` buffer and enabling the
 * backdoor are host calls; their outcomes are parameters.  The backdoor
 * commands issued (`VMMouseClient_Enable`, `VMMouseClient_Disable`) are
 * events, as in the translation model.
 */
module Lifecycle {
  import opened Translate

  /** The modes the X server passes (`DEVICE_INIT`, `DEVICE_ON`, ...). */
  datatype Mode = Init | On | Off | Close | Abort

  /** The outcomes of `xf86OpenSerial`, `XisbNew` and `VMMouseClient_Enable`. */
  datatype Outcomes = Outcomes(open: bool, buffer: bool, enable: bool)

  /** What the X server is told: the call succeeded, or it failed. */
  datatype Status = Ok | Failed

  /**
   * The fields `VMMouseDeviceControl` writes: whether `pInfo->fd` is open,
   * whether `pMse->buffer` is allocated, whether the device is registered
   * with `xf86AddEnabledDevice`, `device->public.on`, `vmmouseAvailable`,
   * `absoluteRequested` and `lastButtons`.
   */
  datatype DeviceState = DeviceState(
    fdValid: bool, buffer: bool, registered: bool, on: bool,
    available: bool, absoluteRequested: bool, lastButtons: bv32)

  datatype ControlStep = ControlStep(state: DeviceState, events: seq<Event>, status: Status)

  /** The only path of `DEVICE_ON` that gives up: the device opened, but the backdoor refused. */
  predicate EnableFails(mode: Mode, o: Outcomes)
  {
    mode == On && o.open && o.buffer && !o.enable
  }

  /** `VMMouseDeviceControl`, with the failure it means to report. */
  function DeviceControl(d: DeviceState, mode: Mode, o: Outcomes): ControlStep
  {
    match mode
    case Init => ControlStep(d.(on := false), [], Ok)
    case On =>
      if !o.open then
        ControlStep(d.(fdValid := false, lastButtons := 0, on := true), [], Ok)
      else if !o.buffer then
        ControlStep(d.(fdValid := false, buffer := false, lastButtons := 0, on := true), [], Ok)
      else if !o.enable then
        ControlStep(d.(fdValid := true, buffer := true, available := false, on := false), [Enable], Failed)
      else
        ControlStep(d.(fdValid := true, buffer := true, available := true, registered := true,
                       lastButtons := 0, on := true), [Enable], Ok)
    case Off => Shutdown(d)
    case Close => Shutdown(d)
    case Abort => ControlStep(d, if d.fdValid && d.available then [Disable] else [], Ok)
  }

  /** The shared `DEVICE_OFF`/`DEVICE_CLOSE` branch. */
  function Shutdown(d: DeviceState): ControlStep
  {
    if d.fdValid then
      var d' := if d.available then d.(available := false, absoluteRequested := false) else d;
      ControlStep(d'.(registered := false, buffer := false, fdValid := false, on := false),
                  if d.available then [Disable] else [], Ok)
    else
      ControlStep(d.(on := false), [], Ok)
  }

  /** A failed enable turns the device off and marks the backdoor unavailable, but keeps it open. */
  lemma EnableFailure(d: DeviceState, o: Outcomes)
    requires EnableFails(On, o)
    ensures var r := DeviceControl(d, On, o);
      && r.status == Failed
      && !r.state.on && !r.state.available && r.state.registered == d.registered
      && r.state.fdValid && r.state.buffer
      && r.state.lastButtons == d.lastButtons && r.state.absoluteRequested == d.absoluteRequested
      && r.events == [Enable]
  {
  }

  /**
   * Every other `DEVICE_ON`, even one that could not open the device, ends on
   * with no button held and the absolute-mode latch as it was.  A failed open
   * leaves the buffer pointer alone; a failed allocation leaves it null.
   */
  lemma TurnedOn(d: DeviceState, o: Outcomes)
    requires !EnableFails(On, o)
    ensures var r := DeviceControl(d, On, o);
      && r.status == Ok && r.state.on && r.state.lastButtons == 0
      && r.state.absoluteRequested == d.absoluteRequested
      && (r.state.fdValid <==> o.open && o.buffer)
      && (r.state.fdValid ==> r.state.available && r.state.registered && r.state.buffer && r.events == [Enable])
      && (!r.state.fdValid ==> r.events == [] && r.state.available == d.available && r.state.registered == d.registered)
      && (!o.open ==> r.state.buffer == d.buffer)
      && (o.open && !o.buffer ==> !r.state.buffer)
  {
  }

  /** Only a failed enable is reported as a failure. */
  lemma StatusReportsFailure(d: DeviceState, mode: Mode, o: Outcomes)
    ensures DeviceControl(d, mode, o).status == Failed <==> EnableFails(mode, o)
  {
  }

  /**
   * `DEVICE_OFF` and `DEVICE_CLOSE` disable the backdoor when it is
   * available on an open device, then leave the device closed and off; the
   * absolute-mode latch is cleared only together with a disable.
   */
  lemma ShutdownCloses(d: DeviceState, mode: Mode, o: Outcomes)
    requires mode == Off || mode == Close
    ensures var r := DeviceControl(d, mode, o);
      && r.status == Ok && !r.state.on && !r.state.fdValid
      && (r.events == [Disable] <==> d.fdValid && d.available)
      && (r.events == [] <==> !(d.fdValid && d.available))
      && (d.fdValid ==> !r.state.available && !r.state.registered && !r.state.buffer)
      && (r.state.absoluteRequested <==> d.absoluteRequested && !(d.fdValid && d.available))
      && r.state.lastButtons == d.lastButtons
      && (!d.fdValid ==> r.state == d.(on := false))
  {
  }

  /**
   * The absolute-mode latch outlives a failed enable: `DEVICE_ON` never
   * clears it, and the `DEVICE_OFF` that follows a failed enable sends no
   * Disable and so keeps it too.  The next successful `DEVICE_ON` leaves the
   * backdoor available with the latch still set, so the next read sends no
   * RequestAbsolute.
   */
  lemma LatchOutlivesFailedEnable(d: DeviceState, ok: Outcomes, failed: Outcomes)
    requires d.absoluteRequested
    requires EnableFails(On, failed) && !EnableFails(On, ok) && ok.open && ok.buffer
    ensures var r1 := DeviceControl(d, On, failed);
      var r2 := DeviceControl(r1.state, Off, ok);
      var r3 := DeviceControl(r2.state, On, ok);
      && r2.events == []
      && r3.state.available && r3.state.fdValid && r3.state.absoluteRequested
  {
  }

  /** A second `DEVICE_OFF` issues no second disable and changes nothing more. */
  lemma ShutdownTwice(d: DeviceState, mode1: Mode, mode2: Mode, o: Outcomes)
    requires mode1 == Off || mode1 == Close
    requires mode2 == Off || mode2 == Close
    ensures var r1 := DeviceControl(d, mode1, o);
      var r2 := DeviceControl(r1.state, mode2, o);
      r2.events == [] && r2.state == r1.state
  {
  }

  /** `DEVICE_ABORT` changes nothing and disables only an available, open device. */
  lemma AbortDisables(d: DeviceState, o: Outcomes)
    ensures var r := DeviceControl(d, Abort, o);
      && r.state == d && r.status == Ok
      && (r.events == [Disable] <==> d.fdValid && d.available)
      && (r.events == [] <==> !(d.fdValid && d.available))
  {
  }

  /** `Success` from the X server's headers: 0. */
  const SuccessCode: int := 0

  /**
   * What the function returns as written: it is declared `bool`, returns
   * `false` on a failed enable and `Success`, that is 0 converted to
   * `bool`, on every other path.
   */
  function ReturnedAsWritten(mode: Mode, o: Outcomes): bool
  {
    if EnableFails(mode, o) then false else SuccessCode != 0
  }

  /** As written, a failed `DEVICE_ON` returns exactly what a successful one does. */
  lemma FailureLooksLikeSuccess()
    ensures ReturnedAsWritten(On, Outcomes(true, true, false)) == ReturnedAsWritten(On, Outcomes(true, true, true))
    ensures ReturnedAsWritten(On, Outcomes(true, true, false)) == (SuccessCode != 0)
  {
  }
}
