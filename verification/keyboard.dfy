/** Translation of a CEF key event into an SWT key event: the key code and
    the state mask built from CEF's modifier flags (enum cef_event_flags and
    on_key_event). Java `int` arithmetic is 32-bit and wraps, so every `int`
    here is a `bv32`. The SWT constants are parameters. */
module Keyboard {
  import opened Wrappers

  /** The SWT constants the translation uses (SWT.CONTROL and SWT.CTRL are the
      same constant in SWT and are both `ctrl` here). */
  datatype SwtConstants = SwtConstants(
    none: bv32,
    shift: bv32,
    ctrl: bv32,
    alt: bv32,
    command: bv32,
    capsLock: bv32,
    numLock: bv32,
    keypad: bv32,
    left: bv32,
    right: bv32)

  /** The cef_event_flags that on_key_event consults (NONE is never consulted). */
  datatype CefFlag = CapsLockOn | ShiftDown | ControlDown | AltDown | CommandDown | NumLockOn | IsKeyPad | IsLeft | IsRight

  /** The flags in the order on_key_event adds them up. */
  const ALL_FLAGS: seq<CefFlag> := [CapsLockOn, ShiftDown, ControlDown, AltDown, CommandDown, NumLockOn, IsKeyPad, IsLeft, IsRight]

  /** The CEF modifier bit of a flag. */
  function CefBit(f: CefFlag): bv32 {
    match f
    case CapsLockOn => 1
    case ShiftDown => 2
    case ControlDown => 4
    case AltDown => 8
    case CommandDown => 128
    case NumLockOn => 256
    case IsKeyPad => 512
    case IsLeft => 1024
    case IsRight => 2048
  }

  /** The SWT key whose own press or release the flag describes, or SWT.NONE. */
  function OwnKey(f: CefFlag, swt: SwtConstants): bv32 {
    match f
    case ShiftDown => swt.shift
    case ControlDown => swt.ctrl
    case AltDown => swt.alt
    case CommandDown => swt.command
    case _ => swt.none
  }

  /** The SWT state-mask value on_key_event adds for the flag. */
  function StateBit(f: CefFlag, swt: SwtConstants): bv32 {
    match f
    case CapsLockOn => swt.capsLock
    case ShiftDown => swt.shift
    case ControlDown => swt.ctrl
    case AltDown => swt.alt
    case CommandDown => swt.command
    case NumLockOn => swt.numLock
    case IsKeyPad => swt.keypad
    case IsLeft => swt.left
    case IsRight => swt.right
  }

  datatype SwtEventType = KeyDown | KeyUp

  /** The part of the SWT event the flags look at. */
  datatype KeyInfo = KeyInfo(eventType: SwtEventType, keyCode: bv32)

  /** isSet: the flag's bit is set in the CEF modifiers. */
  predicate IsSet(f: CefFlag, modifiers: bv32) {
    modifiers & CefBit(f) != 0
  }

  /** The event is the press (or release) of the flag's own key. */
  predicate IsOwnKey(f: CefFlag, ev: KeyInfo, swt: SwtConstants, t: SwtEventType) {
    ev.eventType == t && ev.keyCode == OwnKey(f, swt) && OwnKey(f, swt) != swt.none
  }

  /** shouldSetState: a set flag counts unless this is the press of its own
      key; an unset flag counts only on the release of its own key. */
  predicate ShouldSetState(f: CefFlag, modifiers: bv32, ev: KeyInfo, swt: SwtConstants) {
    if IsSet(f, modifiers) then !IsOwnKey(f, ev, swt, KeyDown) else IsOwnKey(f, ev, swt, KeyUp)
  }

  /** A lock or location flag (one without a key of its own) counts exactly
      when it is set. */
  lemma KeylessFlagCountsWhenSet(f: CefFlag, modifiers: bv32, ev: KeyInfo, swt: SwtConstants)
    requires OwnKey(f, swt) == swt.none
    ensures ShouldSetState(f, modifiers, ev, swt) <==> IsSet(f, modifiers)
  {
  }

  /** A modifier key reports its own state as it is after the event: absent
      from the mask while it is being pressed, present while it is released. */
  lemma ModifierKeyReportsStateBefore(f: CefFlag, modifiers: bv32, ev: KeyInfo, swt: SwtConstants)
    requires OwnKey(f, swt) != swt.none && ev.keyCode == OwnKey(f, swt)
    ensures ev.eventType == KeyDown ==> !ShouldSetState(f, modifiers, ev, swt)
    ensures ev.eventType == KeyUp ==> ShouldSetState(f, modifiers, ev, swt)
  {
  }

  /** Any other key leaves a modifier flag as CEF reports it. */
  lemma OtherKeyKeepsFlag(f: CefFlag, modifiers: bv32, ev: KeyInfo, swt: SwtConstants)
    requires ev.keyCode != OwnKey(f, swt)
    ensures ShouldSetState(f, modifiers, ev, swt) <==> IsSet(f, modifiers)
  {
  }

  /** The flags that pass for this event. */
  function Passing(modifiers: bv32, ev: KeyInfo, swt: SwtConstants): (r: set<CefFlag>)
    ensures forall f :: f in r <==> ShouldSetState(f, modifiers, ev, swt)
  {
    set f | f in ALL_FLAGS && ShouldSetState(f, modifiers, ev, swt)
  }

  /** Java `int` addition: 32-bit, wrapping on overflow. */
  function Add32(a: bv32, b: bv32): bv32 {
    a + b
  }

  /** Every bit of `bit` is set in `mask` (the test `(mask & bit) == bit`). */
  predicate HasBits(mask: bv32, bit: bv32) {
    mask & bit == bit
  }

  /** `a` and `b` share no bit. */
  predicate NoCommonBits(a: bv32, b: bv32) {
    a & b == 0
  }

  /** The sum, in 32-bit arithmetic, of the state bits of the listed flags
      that are in `passing`. */
  function MaskOf(flags: seq<CefFlag>, passing: set<CefFlag>, swt: SwtConstants): bv32
    decreases |flags|
  {
    if |flags| == 0 then 0
    else
      var rest := MaskOf(flags[1..], passing, swt);
      if flags[0] in passing then Add32(StateBit(flags[0], swt), rest) else rest
  }

  /** The state bits of distinct flags do not overlap and each is non-zero. */
  ghost predicate DisjointStateBits(swt: SwtConstants) {
    && (forall f :: StateBit(f, swt) != 0)
    && (forall f, g :: f != g ==> NoCommonBits(StateBit(f, swt), StateBit(g, swt)))
  }

  /** Adding values that share no bit is their bitwise or. */
  lemma AddIsOr(a: bv32, m: bv32)
    requires NoCommonBits(m, a)
    ensures Add32(a, m) == a | m
  {
  }

  /** Or-ing in a value that shares no bit with `b` leaves the bits of `b`
      as they were. */
  lemma OrOtherBits(a: bv32, m: bv32, b: bv32)
    requires NoCommonBits(a, b)
    ensures (a | m) & b == m & b
  {
  }

  /** One step of the sum, for the flag being added: a non-zero value that
      shares no bit with the sum so far is present afterwards exactly when it
      was added. */
  lemma AddOwnBits(a: bv32, m: bv32, added: bool)
    requires a != 0 && NoCommonBits(m, a)
    ensures HasBits(if added then Add32(a, m) else m, a) <==> added
  {
    AddIsOr(a, m);
  }

  /** One step of the sum, for another flag: adding a value that shares no
      bit with the sum so far, nor with `b`, leaves the bits of `b` as they
      were. */
  lemma AddOtherBits(a: bv32, m: bv32, b: bv32)
    requires NoCommonBits(m, a) && NoCommonBits(a, b)
    ensures HasBits(Add32(a, m), b) <==> HasBits(m, b)
  {
    AddIsOr(a, m);
    OrOtherBits(a, m, b);
  }

  /** Like AddOtherBits, for the absence of every bit of `b`. */
  lemma AddOtherNoBits(a: bv32, m: bv32, b: bv32)
    requires NoCommonBits(m, a) && NoCommonBits(a, b)
    ensures NoCommonBits(Add32(a, m), b) <==> NoCommonBits(m, b)
  {
    AddIsOr(a, m);
    OrOtherBits(a, m, b);
  }

  /** With disjoint state bits, the sum over a list of distinct flags holds
      no bit of a flag outside the list. */
  lemma {:induction false} MaskOfOmits(flags: seq<CefFlag>, passing: set<CefFlag>, swt: SwtConstants, g: CefFlag)
    requires DisjointStateBits(swt) && g !in flags
    requires forall i, j :: 0 <= i < j < |flags| ==> flags[i] != flags[j]
    ensures NoCommonBits(MaskOf(flags, passing, swt), StateBit(g, swt))
    decreases |flags|
  {
    if |flags| > 0 {
      var f := flags[0];
      var rest := flags[1..];
      assert forall i :: 0 <= i < |rest| ==> rest[i] == flags[i + 1];
      assert f != g by { assert flags[0] in flags; }
      assert g !in rest;
      assert f !in rest;
      MaskOfOmits(rest, passing, swt, g);
      MaskOfOmits(rest, passing, swt, f);
      if f in passing {
        DisjointPair(swt, f, g);
        AddOtherNoBits(StateBit(f, swt), MaskOf(flags[1..], passing, swt), StateBit(g, swt));
      }
    }
  }

  /** With disjoint state bits, the sum over a list of distinct flags holds
      the bits of a listed flag exactly when that flag passes. */
  lemma {:induction false} MaskOfHolds(flags: seq<CefFlag>, passing: set<CefFlag>, swt: SwtConstants, g: CefFlag)
    requires DisjointStateBits(swt) && g in flags
    requires forall i, j :: 0 <= i < j < |flags| ==> flags[i] != flags[j]
    ensures HasBits(MaskOf(flags, passing, swt), StateBit(g, swt)) <==> g in passing
    decreases |flags|
  {
    var f := flags[0];
    var rest := flags[1..];
    assert forall i :: 0 <= i < |rest| ==> rest[i] == flags[i + 1];
    MaskOfOmits(rest, passing, swt, f);
    var m := MaskOf(rest, passing, swt);
    if f == g {
      assert f !in rest;
      NonZeroBit(swt, f);
      AddOwnBits(StateBit(f, swt), m, f in passing);
    } else {
      assert g in rest;
      MaskOfHolds(rest, passing, swt, g);
      if f in passing {
        DisjointPair(swt, f, g);
        AddOtherBits(StateBit(f, swt), m, StateBit(g, swt));
      }
    }
  }

  lemma NonZeroBit(swt: SwtConstants, f: CefFlag)
    requires DisjointStateBits(swt)
    ensures StateBit(f, swt) != 0
  {
  }

  lemma DisjointPair(swt: SwtConstants, f: CefFlag, g: CefFlag)
    requires DisjointStateBits(swt) && f != g
    ensures NoCommonBits(StateBit(f, swt), StateBit(g, swt))
  {
  }

  /** The translated SWT event. */
  datatype FiredEvent = FiredEvent(eventType: SwtEventType, keyCode: bv32, stateMask: bv32, character: char)

  /** The CEF key event types. */
  datatype CefKeyEventType = RawKeyDown | KeyDownEvent | KeyUpEvent | CharEvent

  /** The fields of a CefKeyEvent the translation reads. */
  datatype CefKeyEvent = CefKeyEvent(kind: CefKeyEventType, windowsKeyCode: bv32, modifiers: bv32, character: char)

  /** The SWT key code: 91 and 93 (the Windows keys) are COMMAND; otherwise the
      inherited translateKey's answer, or the Windows code when that is 0. */
  function TranslatedKeyCode(windowsKeyCode: bv32, swt: SwtConstants, translateKey: bv32 -> bv32): (r: bv32)
    ensures (windowsKeyCode == 91 || windowsKeyCode == 93) && swt.command != 0 ==> r == swt.command
    ensures !(windowsKeyCode == 91 || windowsKeyCode == 93) && translateKey(windowsKeyCode) != 0 ==> r == translateKey(windowsKeyCode)
    ensures !(windowsKeyCode == 91 || windowsKeyCode == 93) && translateKey(windowsKeyCode) == 0 ==> r == windowsKeyCode
  {
    var translated := if windowsKeyCode == 91 || windowsKeyCode == 93 then swt.command else translateKey(windowsKeyCode);
    if translated != 0 then translated else windowsKeyCode
  }

  /** on_key_event's translation: nothing for a disposed browser or a
      character event; otherwise a KeyDown (for raw and plain key-down) or
      KeyUp event with the translated key code and the summed state mask. */
  function OnKeyEvent(disposed: bool, e: CefKeyEvent, swt: SwtConstants, translateKey: bv32 -> bv32): (r: Option<FiredEvent>)
    ensures r.Some? <==> !disposed && e.kind != CharEvent
    ensures r.Some? ==> (r.value.eventType == KeyUp <==> e.kind == KeyUpEvent)
    ensures r.Some? ==> r.value.keyCode == TranslatedKeyCode(e.windowsKeyCode, swt, translateKey)
    ensures r.Some? ==>
      r.value.stateMask == MaskOf(ALL_FLAGS, Passing(e.modifiers, KeyInfo(r.value.eventType, r.value.keyCode), swt), swt)
    ensures r.Some? && DisjointStateBits(swt) ==>
      forall f :: (HasBits(r.value.stateMask, StateBit(f, swt))
                   <==> ShouldSetState(f, e.modifiers, KeyInfo(r.value.eventType, r.value.keyCode), swt))
  {
    if disposed then None
    else
      var eventType :=
        match e.kind
        case RawKeyDown => Some(KeyDown)
        case KeyDownEvent => Some(KeyDown)
        case KeyUpEvent => Some(KeyUp)
        case CharEvent => None;
      match eventType
      case None => None
      case Some(t) =>
        var keyCode := TranslatedKeyCode(e.windowsKeyCode, swt, translateKey);
        var info := KeyInfo(t, keyCode);
        var mask := MaskOf(ALL_FLAGS, Passing(e.modifiers, info, swt), swt);
        StateMaskDecodes(e.modifiers, info, swt);
        Some(FiredEvent(t, keyCode, mask, e.character))
  }

  /** Every flag is in ALL_FLAGS once, so with disjoint state bits the mask
      records exactly the flags that pass. */
  lemma StateMaskDecodes(modifiers: bv32, ev: KeyInfo, swt: SwtConstants)
    ensures DisjointStateBits(swt) ==>
      forall f :: (HasBits(MaskOf(ALL_FLAGS, Passing(modifiers, ev, swt), swt), StateBit(f, swt))
                   <==> ShouldSetState(f, modifiers, ev, swt))
  {
    if DisjointStateBits(swt) {
      var passing := Passing(modifiers, ev, swt);
      AllFlagsDistinct();
      forall f
        ensures HasBits(MaskOf(ALL_FLAGS, passing, swt), StateBit(f, swt))
                <==> ShouldSetState(f, modifiers, ev, swt)
      {
        FlagListed(f);
        MaskOfHolds(ALL_FLAGS, passing, swt, f);
      }
    }
  }

  lemma AllFlagsDistinct()
    ensures forall i, j :: 0 <= i < j < |ALL_FLAGS| ==> ALL_FLAGS[i] != ALL_FLAGS[j]
  {
  }

  lemma FlagListed(f: CefFlag)
    ensures f in ALL_FLAGS
  {
    match f
    case CapsLockOn => assert ALL_FLAGS[0] == f;
    case ShiftDown => assert ALL_FLAGS[1] == f;
    case ControlDown => assert ALL_FLAGS[2] == f;
    case AltDown => assert ALL_FLAGS[3] == f;
    case CommandDown => assert ALL_FLAGS[4] == f;
    case NumLockOn => assert ALL_FLAGS[5] == f;
    case IsKeyPad => assert ALL_FLAGS[6] == f;
    case IsLeft => assert ALL_FLAGS[7] == f;
    case IsRight => assert ALL_FLAGS[8] == f;
  }

  /** The state mask is a 32-bit sum, not a union. SWT gives SHIFT and RIGHT
      the same bit (1 << 17) and CTRL the next one (1 << 18), so a key
      pressed with the right Shift key held carries the CTRL bit and not the
      SHIFT bit. */
  lemma RightShiftCarriesIntoCtrl(swt: SwtConstants, translateKey: bv32 -> bv32)
    requires swt.none == 0 && swt.shift == 0x2_0000 && swt.right == 0x2_0000 && swt.ctrl == 0x4_0000
    requires translateKey(65) == 97
    ensures var r := OnKeyEvent(false, CefKeyEvent(KeyDownEvent, 65, 0x802, 'A'), swt, translateKey);
      && r.Some? && r.value.stateMask == swt.ctrl
      && !HasBits(r.value.stateMask, swt.shift)
  {
    RightShiftPassing(swt);
    ShiftAndRightMask(swt);
  }

  /** Shift held and reported on the right: exactly those two flags pass for
      an ordinary key press. */
  lemma RightShiftPassing(swt: SwtConstants)
    requires swt.none == 0 && swt.shift == 0x2_0000
    ensures Passing(0x802, KeyInfo(KeyDown, 97), swt) == {ShiftDown, IsRight}
  {
    var passing := Passing(0x802, KeyInfo(KeyDown, 97), swt);
    forall f ensures f in passing <==> f == ShiftDown || f == IsRight {
      assert f in passing <==> ShouldSetState(f, 0x802, KeyInfo(KeyDown, 97), swt);
    }
  }

  /** The sum over the flag list of the SHIFT and RIGHT bits alone. */
  lemma ShiftAndRightMask(swt: SwtConstants)
    requires swt.shift == 0x2_0000 && swt.right == 0x2_0000
    ensures MaskOf(ALL_FLAGS, {ShiftDown, IsRight}, swt) == 0x4_0000
  {
    var passing := {ShiftDown, IsRight};
    var tail := ALL_FLAGS[2..];
    assert tail == [ControlDown, AltDown, CommandDown, NumLockOn, IsKeyPad, IsLeft, IsRight];
    MaskOfSkips(tail, passing, swt, 6);
    assert MaskOf(tail[6..], passing, swt) == 0x2_0000;
    assert MaskOf(tail, passing, swt) == 0x2_0000;
    assert MaskOf(ALL_FLAGS[1..], passing, swt) == Add32(0x2_0000, 0x2_0000);
  }

  /** Flags ahead of position `k` that do not pass add nothing. */
  lemma {:induction false} MaskOfSkips(flags: seq<CefFlag>, passing: set<CefFlag>, swt: SwtConstants, k: nat)
    requires k <= |flags|
    requires forall i :: 0 <= i < k ==> flags[i] !in passing
    ensures MaskOf(flags, passing, swt) == MaskOf(flags[k..], passing, swt)
    decreases k
  {
    if k > 0 {
      MaskOfSkips(flags[1..], passing, swt, k - 1);
      assert flags[1..][k - 1..] == flags[k..];
    }
  }
}
