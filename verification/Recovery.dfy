/** The server's start sequence with a drive behind it, faults included: the transitions of the drive
    automaton that lead through a fault, and from where the sequence brings a drive into operation. */
module Recovery {
  import opened AxisControl
  import opened Ds402
  import opened Drive

  /** The transitions 14 and 15: a fault reaction ends in the fault, which is left when bit 7 of the
      controlword goes from 0 to 1. Transition 13, into the fault reaction, is nobody's command. */
  predicate FaultTransition(from: AxleState, before: bv16, cw: bv16, to: AxleState) {
    || (from == FaultReactionActive && to == Fault)
    || (from == Fault && to == SwitchOnDisabled && !Bit(before, 7) && Bit(cw, 7))
  }

  predicate CanMove(from: AxleState, before: bv16, cw: bv16, to: AxleState) {
    Transition(from, cw, to) || FaultTransition(from, before, cw, to)
  }

  /** A drive with the controlword it has been given. */
  datatype Server = Server(drive: AxleState, controlword: bv16)

  /** One cycle: the drive shows its state, the start sequence answers, and the drive takes an enabled
      transition if there is one. */
  ghost predicate Cycle(s: Server, word: bv16, s': Server) {
    && Shows(s.drive, word)
    && s'.controlword == StartControl(word, s.controlword)
    && (CanMove(s.drive, s.controlword, s'.controlword, s'.drive)
        || (s'.drive == s.drive && forall to :: !CanMove(s.drive, s.controlword, s'.controlword, to)))
  }

  ghost predicate Run(ss: seq<Server>, words: seq<bv16>) {
    |ss| == |words| + 1 && forall k :: 0 <= k < |words| ==> Cycle(ss[k], words[k], ss[k + 1])
  }

  /** The reset bit has no edge to give any more: the sequence sets it as soon as it sees the fault reaction,
      and never clears it while the fault lasts. */
  predicate Stuck(s: Server) {
    s.drive == FaultReactionActive || (s.drive == Fault && Bit(s.controlword, 7))
  }

  /** How many cycles it may take from here. */
  function Distance(s: Server): nat {
    match s.drive
    case OperationEnabled => if IsEnableOperation(s.controlword) || Bit(s.controlword, 7) then 0 else 5
    case SwitchedOn => 1
    case ReadyToSwitchOn => 2
    case SwitchOnDisabled => 3
    case NotReadyToSwitchOn | QuickStopActive | FaultReactionActive | Fault => 4
  }

  /** The controlword the sequence answers each state with. */
  function AnswerTo(drive: AxleState, controlword: bv16): bv16 {
    match drive
    case NotReadyToSwitchOn | SwitchOnDisabled => 0x06
    case ReadyToSwitchOn => 0x07
    case SwitchedOn => 0x0F
    case OperationEnabled | QuickStopActive => controlword
    case FaultReactionActive | Fault => 0x80
  }

  lemma Answers(drive: AxleState, word: bv16, controlword: bv16)
    requires Shows(drive, word)
    ensures StartControl(word, controlword) == AnswerTo(drive, controlword)
  {
    DecodeIsTable(drive, word);
    FaultBit(drive, word);
    assert Shutdown(0) == 0x06 && SwitchOn(0) == 0x07 && EnableOperation(0) == 0x0F;
    hide Shows, GetAxleState, Shutdown, SwitchOn, EnableOperation;
  }

  lemma FaultBit(drive: AxleState, word: bv16)
    requires Shows(drive, word)
    ensures word & 0x8 != 0 <==> drive == FaultReactionActive || drive == Fault
  {
  }

  lemma Words()
    ensures IsShutdown(0x06) && IsSwitchOn(0x07) && IsEnableOperation(0x0F)
    ensures !IsSwitchOn(0x06) && !IsEnableOperation(0x06) && !IsDisableVoltage(0x06) && !IsQuickStop(0x06)
    ensures !IsShutdown(0x07) && !IsEnableOperation(0x07) && !IsDisableVoltage(0x07) && !IsQuickStop(0x07)
    ensures !IsShutdown(0x0F) && !IsSwitchOn(0x0F) && !IsDisableVoltage(0x0F) && !IsQuickStop(0x0F)
    ensures Bit(0x80, 7) && !Bit(0x0F, 7)
  {
  }

  /** Every controlword without the reset bit is exactly one of the five commands. */
  lemma OneCommand(cw: bv16)
    ensures !Bit(cw, 7) ==>
              IsShutdown(cw) || IsSwitchOn(cw) || IsEnableOperation(cw) || IsDisableVoltage(cw) || IsQuickStop(cw)
    ensures Bit(cw, 7) ==>
              !IsShutdown(cw) && !IsSwitchOn(cw) && !IsEnableOperation(cw) && !IsDisableVoltage(cw) && !IsQuickStop(cw)
    ensures IsEnableOperation(cw) ==>
              !IsShutdown(cw) && !IsSwitchOn(cw) && !IsDisableVoltage(cw) && !IsQuickStop(cw)
    ensures IsQuickStop(cw) ==> !IsShutdown(cw) && !IsSwitchOn(cw) && !IsDisableVoltage(cw)
  {
  }

  lemma CycleIsCloser(s: Server, word: bv16, s': Server)
    requires Cycle(s, word, s')
    ensures Stuck(s') <==> Stuck(s)
    ensures !Stuck(s) ==> if Distance(s) == 0 then Distance(s') == 0 else Distance(s') < Distance(s)
  {
    Answers(s.drive, word, s.controlword);
    Words();
    OneCommand(s.controlword);
    hide Shows, StartControl, IsShutdown, IsSwitchOn, IsEnableOperation, IsDisableVoltage, IsQuickStop, Bit;
    assert !CanMove(s.drive, s.controlword, s'.controlword, s'.drive) ==>
             && !CanMove(s.drive, s.controlword, s'.controlword, SwitchOnDisabled)
             && !CanMove(s.drive, s.controlword, s'.controlword, ReadyToSwitchOn)
             && !CanMove(s.drive, s.controlword, s'.controlword, SwitchedOn)
             && !CanMove(s.drive, s.controlword, s'.controlword, OperationEnabled)
             && !CanMove(s.drive, s.controlword, s'.controlword, QuickStopActive)
             && !CanMove(s.drive, s.controlword, s'.controlword, Fault);
  }

  /** From any state and with any controlword, a drive that reacts within the cycle is in operation after
      its distance, at most five cycles, and stays there -- except when it is stuck, and then it never
      is. A drive whose fault reaction is seen by the sequence is stuck for good; one that is first seen in
      the fault itself, with the reset bit clear, is in operation four cycles later. */
  lemma {:induction false} OperationIffNotStuck(ss: seq<Server>, words: seq<bv16>, n: nat)
    requires Run(ss, words) && n <= |words|
    ensures Stuck(ss[n]) <==> Stuck(ss[0])
    ensures !Stuck(ss[0]) ==> Distance(ss[n]) <= if n <= Distance(ss[0]) then Distance(ss[0]) - n else 0
    ensures n >= Distance(ss[0]) ==> (ss[n].drive == OperationEnabled <==> !Stuck(ss[0]))
    decreases n
  {
    hide Cycle, Bit, IsEnableOperation;
    if n > 0 {
      OperationIffNotStuck(ss, words, n - 1);
      CycleIsCloser(ss[n - 1], words[n - 1], ss[n]);
    }
  }
}
