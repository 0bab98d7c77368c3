# vmmouse decode-and-translate core in Dafny

This project models the core of the VMware mouse input driver for the X
server (`src/vmmouse.c`). The driver reads two channels:

- the legacy PS/2 notification port. Its bytes mean only "data is ready",
  counted in 3-byte packets.
- the backdoor side channel (`VMMouseClient_*`). It yields absolute or
  relative motion samples, or an error sentinel.

The driver turns the samples into X server motion and button events. The
model covers:

- **Button remapping** (`ButtonMap`): the `reverseMap` table, the
  `reverseBits` macro, and the native-to-PS/2-to-driver bit shuffle of
  `GetVMMouseMotionEvent`.
- **Per-sample translation** (`Translate`, pure; `Driver.Device`,
  imperative):
  - `VMMouseDoPostEvent`: motion edge detection, plus one button event per
    changed bit, lowest bit first.
  - `VMMousePostEvent`: the Z axis mapped onto X, Y or a wheel button,
    with a manufactured release.
  - The state these work on is `lastButtons`, `isCurrRelative` and
    `vmmousePrevInput`.
- **Reading and fetching** (`Driver.Device.ReadInput`,
  `Driver.Device.GetMotionEvents`):
  - Every full 3-byte packet triggers one fetch, and one more fetch follows
    the byte loop.
  - The `absoluteRequested` latch is set on the first read.
  - A fetch drains polls until one is empty. On the error sentinel it sends
    Disable, Enable and RequestAbsolute, then stops.
- **Option decision** (`Options`): the "Buttons" and "ZAxisMapping" choices
  of `MouseCommonOptions`, taken from already-tokenised input.
- **Device lifecycle** (`Lifecycle`, pure; `Driver.Device.DeviceControl`,
  imperative): `VMMouseDeviceControl` for `DEVICE_INIT`, `DEVICE_ON`,
  `DEVICE_OFF`, `DEVICE_CLOSE` and `DEVICE_ABORT`.

Everything posted to the X server (`xf86PostMotionEvent`,
`xf86PostButtonEvent`) and every backdoor command (`VMMouseClient_Enable`,
`_Disable`, `_RequestAbsolute`) is an `Event` appended to a log. The results
`VMMouseClient_GetInput` will return form a queue of
`Empty | Sample | Error` values.

The C functions that update the device records in place are methods of the
class `Driver.Device`. `FlushButtons`, `RequestAbsoluteOnce` and `Poll`
state their small effect directly in their contracts. Every other method is
proved to produce exactly the state and log that a pure function in
`Translate` or `Lifecycle` describes, and the properties are proved as
lemmas about those functions. `MouseCommonOptions` writes `pMse` fields in
C; here it is the pure `Options.CommonOptions`, whose result the
constructor takes.

Button masks are `bv32`, like the C `int` masks. `ffs` is `Bits.Ffs`.

Header constants the source uses but does not define are fixed as follows:

- `MSE_MAXBUTTONS` = 24 and `MSE_DFLTBUTTONS` = 3.
- `MSE_NOZMAP` = 0.
- `VMMOUSE_LEFT_BUTTON` = 0x20, `VMMOUSE_RIGHT_BUTTON` = 0x10 and
  `VMMOUSE_MIDDLE_BUTTON` = 0x08.
- `VMMOUSE_MOVE_RELATIVE` = 1.
- `Success` = 0.

`MSE_MAPTOX` and `MSE_MAPTOY` become the constructors `MapToX` and
`MapToY` of `ZMap`, so they are distinct from every button mask.

Details of the code the model keeps:

- The packet counter `len` is a local variable of `VMMouseReadInput`
  (src/vmmouse.c:785). A partial 1–2 byte packet is therefore forgotten at
  the end of a read; it is not carried over to the next one.
- `reverseBits` permutes only the low four bits (mask `0x0f`,
  src/vmmouse.c:156).
- `lastButtons` stores the mask before remapping (src/vmmouse.c:359, 382).
- `VMMouseReadInput` does not check whether the device is on.
- The option parser sets `negativeW = positiveW = MSE_NOZMAP`
  (src/vmmouse.c:558). So with a button mapping, a wheel delta of magnitude
  2 or more chooses button 0 and posts no wheel event.

## Model

| member | source | states |
|---|---|---|
| `Bits.FfsSpec` | src/vmmouse.c:377-378 | `ffs` returns 0 exactly for 0; otherwise one plus the position of a set bit with no set bit below it |
| `Bits.Ffs` | src/vmmouse.c:377 | libc `ffs`: at most 32, and 0 exactly for 0; `FfsSpec` states that it finds the lowest set bit |
| `Bits.DropLowest` | src/vmmouse.c:378 | `change &= ~(1 << (ffs(change) - 1))`; `Bits.FfsFindsLowest` states that it clears exactly the lowest set bit |
| `Bits.FfsFindsLowest` | src/vmmouse.c:377-378 | for a non-zero mask, `ffs - 1` is a set bit with none below it, and the clearing step removes exactly that bit |
| `ButtonMap.ReverseMapEntry` | src/vmmouse.c:151-154 | each entry n of the `reverseMap` table (`ButtonMap.ReverseMap`) is n with bits 0 and 2 exchanged |
| `ButtonMap.ReverseBitsIsTableLookup` | src/vmmouse.c:151-156 | the bit-swap definition equals the macro: high bits kept, low nibble looked up in `reverseMap` |
| `ButtonMap.ReverseBitsSwapsBits` | src/vmmouse.c:151-156 | `reverseBits` exchanges bits 0 and 2 and keeps bit 1, bit 3 and every bit above 0x0f |
| `ButtonMap.ReverseBitsInvolution` | src/vmmouse.c:151-156 | applying `reverseBits` twice gives the mask back |
| `ButtonMap.ReverseBitsInjective` | src/vmmouse.c:361 | two masks have equal remaps if and only if they are equal |
| `ButtonMap.ReverseBitsXor` | src/vmmouse.c:375 | remapping commutes with XOR, so the change mask is the remap of the raw change |
| `ButtonMap.NativeButtonsToHost` | src/vmmouse.c:869-878 | after the PS/2 shuffle and `reverseBits`, native left, middle and right land on bits 0, 1 and 2 (X buttons 1, 2, 3), and the shuffle sets nothing above bit 2 |
| `ButtonMap.ReverseBits` | src/vmmouse.c:151-156 | the `reverseBits` macro as a bit swap: defines the remap; its table equality, involution and injectivity are the `ReverseBits*` lemmas |
| `ButtonMap.SampleButtons` | src/vmmouse.c:869-878 | the native-to-PS/2-to-driver button shuffle of one sample; `NativeButtonsToHost` states its result |
| `Translate.MouseMoved` | src/vmmouse.c:363-369 | the motion test of `VMMouseDoPostEvent`; `DoPostMotion` states it case by case |
| `Translate.MotionEvents` | src/vmmouse.c:363-372 | the motion event `VMMouseDoPostEvent` posts, if any; `DoPostMotion` and `DoPostShape` state when and in what form |
| `Translate.ButtonEvents` | src/vmmouse.c:374-383 | the button events of one post, defined through the per-bit reference `Edges`; `ButtonEventsExact`, `ButtonEventsEmpty` and `ButtonEventsReachMask` state them, and `Driver.Device.ButtonChangeEvents` proves the `ffs` loop equal to them |
| `Translate.DoPostMotion` | src/vmmouse.c:363-372 | motion is posted: in relative mode iff dx or dy is non-zero; in absolute mode always after a relative previous sample, otherwise iff (dx, dy) differs from the previous X, Y |
| `Translate.DoPostShape` | src/vmmouse.c:343-384 | `lastButtons` becomes the new pre-remap mask and nothing else changes; at most one motion event is posted, first, tagged absolute = not `isCurrRelative` |
| `Translate.ButtonEventsExact` | src/vmmouse.c:374-383 | no button event for an unchanged mask; otherwise exactly one event per bit of the remapped change, ids strictly ascending, each pressed iff that bit is set in the new remapped mask |
| `Translate.ButtonEventsEmpty` | src/vmmouse.c:374 | button events are posted iff the pre-remap mask differs from `lastButtons` |
| `Translate.ButtonEventsReachMask` | src/vmmouse.c:374-383 | replaying the button events on the remapped old mask gives the remapped new mask |
| `Translate.EdgesAscending` | src/vmmouse.c:376-381 | the loop over the change mask posts only button events, in strictly ascending id order |
| `Translate.DoPostSync` | src/vmmouse.c:343-384 | if the server's button state was the remapped `lastButtons`, it still is after the post |
| `Translate.MapZ` | src/vmmouse.c:414-453 | the Z-axis switch of `VMMousePostEvent`: defines the mapped buttons, deltas and `zbutton`; `MapZAxes`, `MapZKeepsOtherButtons` and `MapZSetsWheelButton` state its effect |
| `Translate.WheelButton` | src/vmmouse.c:438-449 | the `zbutton` choice: negative W first, then negative Z, positive W, positive Z, else none; `DefaultMappingSteps` and `Options.ScannedWheel` pin it for concrete mappings |
| `Translate.DoPost` | src/vmmouse.c:343-384 | `VMMouseDoPostEvent` as a pure step; `DoPostMotion`, `DoPostShape`, `ButtonEventsExact` and `DoPostSync` state what it posts |
| `Translate.Post` | src/vmmouse.c:404-468 | `VMMousePostEvent` as a pure step: map Z, post, and post the release pass; `PostReleasePass`, `PostReleasesWheel` and `PostSync` state its effect |
| `Translate.PostMapped` | src/vmmouse.c:455-467 | the posting half of `VMMousePostEvent` after the Z mapping: one post, and a second without the wheel button when one was chosen; `PostReleasePass`, `PostReleasesWheel`, `WheelHeld` and `WheelReleased` state it |
| `Translate.PostReleasePass` | src/vmmouse.c:455-467 | without a wheel button there is one pass only; with one, the second pass posts only the release in relative mode and repeats the first pass's motion before the release in absolute mode |
| `Translate.TranslateSample` | src/vmmouse.c:869-890 | one polled sample: set the mode, post the shuffled buttons, X, Y and `(char)Z`, record the raw sample; `TranslateSampleRecords` states its new state |
| `Translate.Fetch` | src/vmmouse.c:850-892 | `GetVMMouseMotionEvent` as a pure function of the poll queue; `FetchSamplesThen` proves it equal to translating the samples in order up to the first empty or error poll |
| `Translate.FetchTimes` | src/vmmouse.c:811-828 | the consecutive fetches of one read; `FetchTimesSync` states the button sync it keeps |
| `Translate.MapZAxes` | src/vmmouse.c:414-433 | `MSE_NOZMAP` passes buttons, dx and dy through unchanged and chooses no wheel button; axis mappings keep the buttons and choose no wheel button; with dz non-zero, MapToX (MapToY) replaces dx (dy) by dz in relative mode and adds dz in absolute mode; button mapping and dz = 0 keep dx, dy |
| `Translate.MapZKeepsOtherButtons` | src/vmmouse.c:434-436 | the Z step keeps every button outside the four wheel buttons |
| `Translate.MapZSetsWheelButton` | src/vmmouse.c:434-451 | among the four wheel buttons only the chosen `zbutton` is set, so at most one |
| `Translate.DefaultMappingSteps` | src/vmmouse.c:437-449 | with the default mapping "4 5", dz = -1 selects button 4, dz = 1 selects button 5, and any other dz selects none |
| `Translate.PostReleasesWheel` | src/vmmouse.c:455-467 | `VMMousePostEvent` records the mask without the wheel buttons, so `zbutton` is never left in `lastButtons`; nothing else changes |
| `Translate.WheelPressFirst` | src/vmmouse.c:455-467 | with a wheel button chosen, the first post's events come first |
| `Translate.WheelHeld` | src/vmmouse.c:434-455 | after the first post the server sees the wheel button pressed |
| `Translate.WheelReleased` | src/vmmouse.c:459-467 | after the second post the server sees the wheel button released |
| `Translate.PostSync` | src/vmmouse.c:404-468 | `VMMousePostEvent` keeps the server's button state equal to the remapped `lastButtons` |
| `Translate.SignExtend8` | src/vmmouse.c:882 | `(char)Z` lies in [-128, 128) and agrees with Z modulo 256 |
| `Translate.TranslateSampleRecords` | src/vmmouse.c:880-890 | after one sample, `isCurrRelative` is the sample's relative flag, `vmmousePrevInput` is the raw sample, and `lastButtons` is the shuffled mask without the wheel buttons |
| `Translate.DefaultWheelNotch` | src/vmmouse.c:859-891 | one notch (Z byte 0xff) under the default mapping posts exactly a press and a release of button 4 and leaves no button held |
| `Translate.FetchSamplesThen` | src/vmmouse.c:859-891 | one fetch translates the queued samples in poll order and stops at the first empty or error poll; after an error it sends exactly Disable, Enable, RequestAbsolute and consumes nothing more |
| `Translate.FetchAllSamples` | src/vmmouse.c:859-891 | a queue of samples only is translated completely and consumed |
| `Translate.FetchConsumes` | src/vmmouse.c:859 | each fetch consumes a prefix of the queue, at least one poll when it is non-empty |
| `Translate.ErrorThenResume` | src/vmmouse.c:861-867 | for polls [A, Error, B], the first fetch translates A and recovers once; the second translates B |
| `Translate.FetchSync` | src/vmmouse.c:859-891 | a fetch keeps the server's button state equal to the remapped `lastButtons` |
| `Translate.FetchTimesSync` | src/vmmouse.c:811-828 | so do the repeated fetches of one read |
| `Options.ButtonBit` | src/vmmouse.c:549-550 | `1 << (b - 1)` is a single-bit mask, with bit b - 1 set |
| `Options.CommonOptions` | src/vmmouse.c:512-571 | the decision of `MouseCommonOptions` from the tokenised options; `CommonOptionsButtons`, `CommonOptionsZAxis` and `DefaultOptions` characterise it |
| `Options.BaseButtons` | src/vmmouse.c:519-522 | the "Buttons" option with 0 replaced by `MSE_DFLTBUTTONS`; `CommonOptionsButtons` states the final count |
| `Options.ValidButtons` | src/vmmouse.c:544-546 | the `sscanf` test: at least two numbers, both from 1 to `MSE_MAXBUTTONS`; `CommonOptionsZAxis` states both directions of its use |
| `Options.CommonOptionsButtons` | src/vmmouse.c:519-522 | the button count is the option, or `MSE_DFLTBUTTONS` for 0, raised to b1 and b2 when they are taken: it is the maximum of these |
| `Options.CommonOptionsZAxis` | src/vmmouse.c:531-562 | "x" maps to X and "y" to Y; two scanned numbers in 1..`MSE_MAXBUTTONS` map to buttons `1 << (N1 - 1)` and `1 << (N2 - 1)` with both W fields NOZMAP; anything else maps to nothing; each direction holds |
| `Options.DefaultOptions` | src/vmmouse.c:519-562 | with no options: five buttons, wheel on buttons 4 (0x08) and 5 (0x10) |
| `Options.ScannedWheel` | src/vmmouse.c:545-558 | with "N1 N2", dz = -1 selects button N1, dz = 1 selects N2, and any other dz selects none |
| `Options.ButtonBitPosted` | src/vmmouse.c:361 | a wheel mapped to button 1 or 3 is posted as the other one; other button numbers are posted unchanged |
| `Lifecycle.DeviceControl` | src/vmmouse.c:626-758 | `VMMouseDeviceControl` as a pure step with the corrected status; each branch is characterised by `EnableFailure`, `TurnedOn`, `ShutdownCloses` and `AbortDisables` |
| `Lifecycle.Shutdown` | src/vmmouse.c:724-745 | the shared OFF/CLOSE branch; `ShutdownCloses` and `ShutdownTwice` state its effect |
| `Lifecycle.ReturnedAsWritten` | src/vmmouse.c:706-757 | the value the function returns as written; `FailureLooksLikeSuccess` shows it is the same for failure and success |
| `Lifecycle.EnableFailure` | src/vmmouse.c:703-711 | DEVICE_ON with a failed Enable: failure, off, backdoor unavailable, device left open with its buffer, registration, `lastButtons` and absolute-mode latch untouched, log holds Enable |
| `Lifecycle.TurnedOn` | src/vmmouse.c:690-723 | every other DEVICE_ON, even with no fd, ends on with `lastButtons` = 0 and the latch untouched; the fd is valid iff open and buffer succeeded, and then the backdoor is available, the device registered and the buffer set; otherwise nothing is sent and availability and registration are kept; a failed open keeps the buffer pointer, a failed allocation leaves it null |
| `Lifecycle.StatusReportsFailure` | src/vmmouse.c:690-757 | the corrected status reports failure exactly for a failed Enable |
| `Lifecycle.ShutdownCloses` | src/vmmouse.c:724-745 | OFF/CLOSE disables iff the fd is valid and the backdoor available, clears the latch only then, and leaves the device closed and off; on a closed fd it changes only `on` |
| `Lifecycle.LatchOutlivesFailedEnable` | src/vmmouse.c:690-745 | with the latch set, a failed DEVICE_ON, then DEVICE_OFF (which sends nothing), then a successful DEVICE_ON leave the backdoor available with the latch still set |
| `Lifecycle.ShutdownTwice` | src/vmmouse.c:724-745 | a second OFF/CLOSE issues nothing and changes nothing |
| `Lifecycle.AbortDisables` | src/vmmouse.c:747-753 | ABORT changes no state and disables iff the fd is valid and the backdoor available |
| `Lifecycle.FailureLooksLikeSuccess` | src/vmmouse.c:710 | as written, a failed DEVICE_ON returns the same value as a successful one |
| `Driver.Device.constructor` | src/vmmouse.c:230-270 | the state `VMMousePreInit` leaves: zeroed private record with the backdoor marked available, absolute mode not requested, no open descriptor, options read |
| `Driver.Device.FlushButtons` | src/vmmouse.c:487-491 | clears `lastButtons` |
| `Driver.Device.DoPostEvent` | src/vmmouse.c:343-384 | the method's new state and log are those of `Translate.DoPost` |
| `Driver.Device.ButtonEdgeEvents` | src/vmmouse.c:376-381 | the `while (change)` loop posts exactly the reference edge events |
| `Driver.Device.EdgeTurn` | src/vmmouse.c:376-381 | one loop turn appends the first remaining reference event and leaves strictly fewer to post |
| `Driver.Device.LowestEdge` | src/vmmouse.c:377-380 | one loop turn: `ffs` picks the first reference event, and clearing that bit leaves the rest |
| `Driver.Device.ButtonChangeEvents` | src/vmmouse.c:374-381 | the button half of the post equals `Translate.ButtonEvents` |
| `Driver.Device.PostEvent` | src/vmmouse.c:404-468 | the method's new state and log are those of `Translate.Post` |
| `Driver.Device.Poll` | src/vmmouse.c:859 | takes the head of the result queue; an exhausted queue polls as empty |
| `Driver.Device.PostSample` | src/vmmouse.c:880-890 | sets `isCurrRelative`, posts, then records the raw sample, as `Translate.TranslateSample` |
| `Driver.Device.GetMotionEvents` | src/vmmouse.c:850-892 | the polling loop's new state, log and remaining queue are those of `Translate.Fetch` |
| `Driver.Device.PollOnce` | src/vmmouse.c:859-891 | one poll: a sample is translated as `Translate.TranslateSample` and the loop goes on; an error sends disable, enable and the absolute request and stops; an empty poll stops |
| `Driver.Device.FetchTurn` | src/vmmouse.c:859-891 | one loop turn keeps the events posted so far a prefix of `Translate.Fetch`'s, and a stop ends exactly at its result |
| `Driver.Device.FetchAgain` | src/vmmouse.c:818-828 | each further `GetVMMouseMotionEvent` call extends `Translate.FetchTimes` by one call |
| `Driver.Device.RequestAbsoluteOnce` | src/vmmouse.c:790-798 | RequestAbsolute is sent iff the latch was clear, and the latch ends set |
| `Driver.Device.ReadInput` | src/vmmouse.c:780-829 | reading n bytes runs exactly n / 3 + 1 fetches, the last one after the byte loop, after the one-time absolute request |
| `Driver.Device.DeviceControl` | src/vmmouse.c:626-758 | the method's new state, log and status are those of `Lifecycle.DeviceControl` |
| `Driver.Device.Shutdown` | src/vmmouse.c:724-745 | the OFF/CLOSE branch, as `Lifecycle.Shutdown` |

## Findings

| source | as written | input that shows it | evidently intended | confidence | as-written member | corrected member |
|---|---|---|---|---|---|---|
| src/vmmouse.c:710 | `VMMouseDeviceControl` is declared `bool`. It returns `false` when the backdoor Enable fails and `Success` (0, that is `false`) on every other path | DEVICE_ON with open and buffer succeeding and Enable failing returns the same value as DEVICE_ON with Enable succeeding | the header comment says "false, if failed": the X server should be told that activation failed | high, not executed | `Lifecycle.FailureLooksLikeSuccess` | `Lifecycle.StatusReportsFailure` |

## Left out

- `VMMousePreInit` and `VMMouseInitPassthru`: I/O-port enabling, allocation and the fallback to the "mouse" driver are host plumbing. The `Device` constructor stands for the state they leave.
- DEVICE_INIT: only `on = false` is modelled. `InitPointerDeviceStruct`, valuator ranges and label atoms are X server registration. The button count it passes, `pMse->buttons`, is kept as `Driver.Device.buttons`: the constructor sets it from `Options.CommonOptions`, and nothing in the model reads it.
- Serial open, close and flush, the `Xisb` buffer, its blocking duration, `xf86AddEnabledDevice`/`xf86RemoveEnabledDevice` and `usleep`: these are I/O. Their outcomes are booleans (`Lifecycle.Outcomes`), registration is a flag, and the bytes read are a count.
- `VMMouseClient_*` backdoor calls: these are port I/O whose header is not part of this model. They appear only as logged events and a queue of poll results.
- Textual parsing in `MouseCommonOptions` (`xf86SetIntOption`, `xf86NameCmp`, `sscanf`, message strings): these are library calls. The decision is modelled from their tokenised results.
- `Lifecycle.TurnedOn`: does not model a missing private record (`mPriv == NULL`, src/vmmouse.c:701-702), because `VMMousePreInit` always allocates one.
- `MouseCtrl`, `VMMouseControlProc`, `VMMouseSwitchMode`, `VMMouseUnInit` and the module-loader records: these are stubs or frees with no effect on the core.
- Logging (`xf86Msg`, `LogMessageVerbSigSafe`): it is diagnostic only.
- Integer widths of X, Y and the deltas: they are unbounded integers, because the core only compares, adds and passes them on. Z is reduced explicitly to a signed byte, which assumes plain `char` is signed, as on x86, for the cast `(char)vmmouseInput.Z` (src/vmmouse.c:882).
