/** The statusword decoder and the controlword builders of the drive profile (CiA DSP 402 V2.0,
    section 10, Device control). Words are 16 bits wide. */
module Ds402 {

  /** The modes of operation by their numbers; 0 is none. */
  const OP_MODE_PP := 1
  const OP_MODE_VL := 2
  const OP_MODE_PV := 3
  const OP_MODE_HM := 6
  const OP_MODE_IP := 7
  const OP_MODE_CSP := 8
  const OP_MODE_CSV := 9
  const OP_MODE_CST := 10

  datatype AxleState =
    | NotReadyToSwitchOn
    | SwitchOnDisabled
    | ReadyToSwitchOn
    | SwitchedOn
    | OperationEnabled
    | QuickStopActive
    | FaultReactionActive
    | Fault

  function GetAxleState(statusword: bv16): AxleState {
    if statusword & 0x4F == 0x40 then SwitchOnDisabled
    else if statusword & 0x6F == 0x21 then ReadyToSwitchOn
    else if statusword & 0x6F == 0x23 then SwitchedOn
    else if statusword & 0x6F == 0x27 then OperationEnabled
    else if statusword & 0x6F == 0x07 then QuickStopActive
    else if statusword & 0x4F == 0x0F then FaultReactionActive
    else if statusword & 0x4F == 0x08 then Fault
    else NotReadyToSwitchOn
  }

  predicate Bit(word: bv16, n: nat)
    requires n < 16
  {
    (word >> n) & 1 == 1
  }

  function Shutdown(c: bv16): bv16 { (c | 0x6) & !0x81 }
  function SwitchOn(c: bv16): bv16 { (c | 0x7) & !0x88 }
  function DisableVoltage(c: bv16): bv16 { c & !0x82 }
  function QuickStop(c: bv16): bv16 { (c | 0x2) & !0x84 }
  function EnableOperation(c: bv16): bv16 { (c | 0xF) & !0x80 }
  function NewSetPoint(c: bv16): bv16 { c | 0x10 }

  predicate IsTargetReached(statusword: bv16) { statusword & 0x400 != 0 }

  lemma TargetReachedIff(statusword: bv16)
    ensures IsTargetReached(statusword) <==> Bit(statusword, 10)
  {
  }

  // ----- the statusword table of the profile -----

  /** Whether the drive may show this statusword in this state: bits 0 to 3 and 6 are fixed, and bit 5
      tells a running drive from one that is stopping quickly. */
  predicate Shows(state: AxleState, w: bv16) {
    var fixed := !Bit(w, 6);
    match state
    case NotReadyToSwitchOn => fixed && !Bit(w, 3) && !Bit(w, 2) && !Bit(w, 1) && !Bit(w, 0)
    case SwitchOnDisabled => Bit(w, 6) && !Bit(w, 3) && !Bit(w, 2) && !Bit(w, 1) && !Bit(w, 0)
    case ReadyToSwitchOn => fixed && Bit(w, 5) && !Bit(w, 3) && !Bit(w, 2) && !Bit(w, 1) && Bit(w, 0)
    case SwitchedOn => fixed && Bit(w, 5) && !Bit(w, 3) && !Bit(w, 2) && Bit(w, 1) && Bit(w, 0)
    case OperationEnabled => fixed && Bit(w, 5) && !Bit(w, 3) && Bit(w, 2) && Bit(w, 1) && Bit(w, 0)
    case QuickStopActive => fixed && !Bit(w, 5) && !Bit(w, 3) && Bit(w, 2) && Bit(w, 1) && Bit(w, 0)
    case FaultReactionActive => fixed && Bit(w, 3) && Bit(w, 2) && Bit(w, 1) && Bit(w, 0)
    case Fault => fixed && Bit(w, 3) && !Bit(w, 2) && !Bit(w, 1) && !Bit(w, 0)
  }

  /** The decoder inverts the table: for every state but the first, it answers that state exactly on
      the words the profile gives it. */
  lemma DecodeIsTable(state: AxleState, w: bv16)
    ensures state != NotReadyToSwitchOn ==> (GetAxleState(w) == state <==> Shows(state, w))
    ensures Shows(NotReadyToSwitchOn, w) ==> GetAxleState(w) == NotReadyToSwitchOn
  {
  }

  /** The first state also takes every word the table has no row for, so the decoder is total and
      answers "not ready" exactly when no other state shows the word. */
  lemma DecodeDefault(w: bv16)
    ensures GetAxleState(w) == NotReadyToSwitchOn <==>
              forall state :: state != NotReadyToSwitchOn ==> !Shows(state, w)
    ensures GetAxleState(0x0001) == NotReadyToSwitchOn && !Shows(NotReadyToSwitchOn, 0x0001)
  {
    forall state | state != NotReadyToSwitchOn
      ensures GetAxleState(w) == state <==> Shows(state, w)
    {
      DecodeIsTable(state, w);
    }
    assert GetAxleState(w) != NotReadyToSwitchOn ==> Shows(GetAxleState(w), w);
  }
}
