/** The drive side: the device control automaton of CiA DSP 402 V2.0, section 10, without its fault
    transitions. A drive takes at most one of these transitions at a time. */
module Drive {
  import opened Ds402

  predicate IsShutdown(cw: bv16) { !Bit(cw, 7) && Bit(cw, 2) && Bit(cw, 1) && !Bit(cw, 0) }
  predicate IsSwitchOn(cw: bv16) { !Bit(cw, 7) && !Bit(cw, 3) && Bit(cw, 2) && Bit(cw, 1) && Bit(cw, 0) }
  predicate IsEnableOperation(cw: bv16) { !Bit(cw, 7) && Bit(cw, 3) && Bit(cw, 2) && Bit(cw, 1) && Bit(cw, 0) }
  predicate IsDisableVoltage(cw: bv16) { !Bit(cw, 7) && !Bit(cw, 1) }
  predicate IsQuickStop(cw: bv16) { !Bit(cw, 7) && !Bit(cw, 2) && Bit(cw, 1) }

  /** Whatever the controlword was, each builder makes it the command it is named after, and changes no bits
      but those of the command. */
  lemma BuildersCommand(c: bv16)
    ensures IsShutdown(Shutdown(c)) && Shutdown(c) & !0x87 == c & !0x87
    ensures IsSwitchOn(SwitchOn(c)) && SwitchOn(c) & !0x8F == c & !0x8F
    ensures IsEnableOperation(EnableOperation(c)) && EnableOperation(c) & !0x8F == c & !0x8F
    ensures IsDisableVoltage(DisableVoltage(c)) && DisableVoltage(c) & !0x82 == c & !0x82
    ensures IsQuickStop(QuickStop(c)) && QuickStop(c) & !0x86 == c & !0x86
    ensures Bit(NewSetPoint(c), 4) && NewSetPoint(c) & !0x10 == c & !0x10
  {
    ShutdownIs(c);
    SwitchOnIs(c);
    EnableOperationIs(c);
    DisableVoltageIs(c);
    QuickStopIs(c);
    NewSetPointIs(c);
    hide *;
  }

  lemma ShutdownIs(c: bv16)
    ensures IsShutdown(Shutdown(c)) && Shutdown(c) & !0x87 == c & !0x87
  {
  }

  lemma SwitchOnIs(c: bv16)
    ensures IsSwitchOn(SwitchOn(c)) && SwitchOn(c) & !0x8F == c & !0x8F
  {
  }

  lemma EnableOperationIs(c: bv16)
    ensures IsEnableOperation(EnableOperation(c)) && EnableOperation(c) & !0x8F == c & !0x8F
  {
  }

  lemma DisableVoltageIs(c: bv16)
    ensures IsDisableVoltage(DisableVoltage(c)) && DisableVoltage(c) & !0x82 == c & !0x82
  {
  }

  lemma QuickStopIs(c: bv16)
    ensures IsQuickStop(QuickStop(c)) && QuickStop(c) & !0x86 == c & !0x86
  {
  }

  lemma NewSetPointIs(c: bv16)
    ensures Bit(NewSetPoint(c), 4) && NewSetPoint(c) & !0x10 == c & !0x10
  {
  }

  /** The transitions, by their numbers in the profile. "Switch on" and "disable operation" share a code. */
  predicate Transition(from: AxleState, cw: bv16, to: AxleState) {
    || (from == NotReadyToSwitchOn && to == SwitchOnDisabled)                          // 1
    || (from == SwitchOnDisabled && to == ReadyToSwitchOn && IsShutdown(cw))           // 2
    || (from == ReadyToSwitchOn && to == SwitchedOn && (IsSwitchOn(cw) || IsEnableOperation(cw)))  // 3
    || (from == SwitchedOn && to == OperationEnabled && IsEnableOperation(cw))         // 4
    || (from == OperationEnabled && to == SwitchedOn && IsSwitchOn(cw))                // 5
    || (from == SwitchedOn && to == ReadyToSwitchOn && IsShutdown(cw))                 // 6
    || (from == ReadyToSwitchOn && to == SwitchOnDisabled && (IsQuickStop(cw) || IsDisableVoltage(cw)))  // 7
    || (from == OperationEnabled && to == ReadyToSwitchOn && IsShutdown(cw))           // 8
    || (from == OperationEnabled && to == SwitchOnDisabled && IsDisableVoltage(cw))    // 9
    || (from == SwitchedOn && to == SwitchOnDisabled && (IsQuickStop(cw) || IsDisableVoltage(cw)))  // 10
    || (from == OperationEnabled && to == QuickStopActive && IsQuickStop(cw))          // 11
    || (from == QuickStopActive && to == SwitchOnDisabled)                             // 12
    || (from == QuickStopActive && to == OperationEnabled && IsEnableOperation(cw))    // 16
  }

  /** One cycle of a drive that may or may not react. */
  predicate MayMove(from: AxleState, cw: bv16, to: AxleState) {
    from == to || Transition(from, cw, to)
  }

  /** One cycle of a drive that takes an enabled transition. */
  ghost predicate Moves(from: AxleState, cw: bv16, to: AxleState) {
    MayMove(from, cw, to) && (from == to ==> forall other :: !Transition(from, cw, other))
  }

  /** How far a drive has come on the way to operation. */
  function Rank(s: AxleState): nat {
    match s
    case NotReadyToSwitchOn => 0
    case SwitchOnDisabled => 1
    case ReadyToSwitchOn => 2
    case SwitchedOn => 3
    case OperationEnabled => 4
    case QuickStopActive => 5
    case FaultReactionActive => 6
    case Fault => 7
  }
}
