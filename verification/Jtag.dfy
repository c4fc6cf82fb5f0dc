/**
The JTAG port of the emulated device (emulation/peripherals/Jtag.cs; the state diagram of
section 6.1 of IEEE Std 1149.1). Registers are 64 bits wide, and a shift amount counts
modulo 64.
*/
module Jtag {
  import opened Bits

  datatype TapState =
    | TestLogicReset | RunTestIdle
    | SelectDrScan | CaptureDr | ShiftDr | Exit1Dr | PauseDr | Exit2Dr | UpdateDr
    | SelectIrScan | CaptureIr | ShiftIr | Exit1Ir | PauseIr | Exit2Ir | UpdateIr

  const IDCODE: nat := 0x362f093

  datatype Pins = Pins(tdi: bool, tms: bool)

  function NextState(s: TapState, tms: bool): TapState {
    match s
    case TestLogicReset => if tms then TestLogicReset else RunTestIdle
    case RunTestIdle => if tms then SelectDrScan else RunTestIdle
    case SelectDrScan => if tms then SelectIrScan else CaptureDr
    case CaptureDr => if tms then Exit1Dr else ShiftDr
    case ShiftDr => if tms then Exit1Dr else ShiftDr
    case Exit1Dr => if tms then UpdateDr else PauseDr
    case PauseDr => if tms then Exit2Dr else PauseDr
    case Exit2Dr => if tms then UpdateDr else ShiftDr
    case UpdateDr => if tms then SelectDrScan else RunTestIdle
    case SelectIrScan => if tms then TestLogicReset else CaptureIr
    case CaptureIr => if tms then Exit1Ir else ShiftIr
    case ShiftIr => if tms then Exit1Ir else ShiftIr
    case Exit1Ir => if tms then UpdateIr else PauseIr
    case PauseIr => if tms then Exit2Ir else PauseIr
    case Exit2Ir => if tms then UpdateIr else ShiftIr
    case UpdateIr => if tms then SelectDrScan else RunTestIdle
  }

  /** The fields of the device. */
  datatype Tap = Tap(state: TapState, count: nat, dr: nat, ir: nat, out: nat, tdo: bool)

  function ShiftIn(reg: nat, count: nat, tdi: bool): nat {
    if tdi then Or(reg, Pow2(count % 64)) else reg
  }

  /** One write to the Next register. */
  function Step(t: Tap, p: Pins): Tap {
    var u := t.(state := NextState(t.state, p.tms));
    match t.state
    case SelectDrScan => u.(tdo := false)
    case CaptureDr => u.(count := 0, dr := 0, tdo := false)
    case ShiftDr => u.(dr := ShiftIn(t.dr, t.count, p.tdi), tdo := BitSet(t.out, t.count % 64), count := t.count + 1)
    case Exit1Dr => u.(tdo := false)
    case CaptureIr => u.(count := 0, ir := 0, tdo := false)
    case ShiftIr => u.(ir := ShiftIn(t.ir, t.count, p.tdi), tdo := BitSet(t.out, t.count % 64), count := t.count + 1)
    case Exit1Ir => u.(tdo := false)
    case UpdateIr => if t.ir == 9 then u.(out := IDCODE) else u
    case _ => u
  }

  function Run(t: Tap, ps: seq<Pins>): Tap
    decreases |ps|
  {
    if ps == [] then t else Run(Step(t, ps[0]), ps[1..])
  }

  class BetrustedJtag {
    var state: TapState
    var count: nat
    var dataRegister: nat
    var instructionRegister: nat
    var outputValue: nat
    var nextTdoBit: bool

    ghost function View(): Tap
      reads this
    {
      Tap(state, count, dataRegister, instructionRegister, outputValue, nextTdoBit)
    }

    constructor ()
      ensures View() == Tap(TestLogicReset, 0, 0, 0, 0, false)
    {
      state, count, dataRegister, instructionRegister, outputValue, nextTdoBit := TestLogicReset, 0, 0, 0, 0, false;
    }

    /** Reset touches nothing but the state. */
    method Reset()
      modifies this
      ensures View() == old(View()).(state := TestLogicReset)
    {
      state := TestLogicReset;
    }

    method AdvanceStateMachine(tdi: bool, tms: bool) returns (isNew: bool)
      modifies this`state
      ensures state == NextState(old(state), tms) && isNew == (state != old(state))
    {
      isNew := true;
      match state {
        case TestLogicReset => if tms { return false; } else { state := RunTestIdle; }
        case RunTestIdle => if tms { state := SelectDrScan; } else { return false; }
        case SelectDrScan => if tms { state := SelectIrScan; } else { state := CaptureDr; }
        case CaptureDr => if tms { state := Exit1Dr; } else { state := ShiftDr; }
        case ShiftDr => if tms { state := Exit1Dr; } else { return false; }
        case Exit1Dr => if tms { state := UpdateDr; } else { state := PauseDr; }
        case PauseDr => if tms { state := Exit2Dr; } else { return false; }
        case Exit2Dr => if tms { state := UpdateDr; } else { state := ShiftDr; }
        case UpdateDr => if tms { state := SelectDrScan; } else { state := RunTestIdle; }
        case SelectIrScan => if tms { state := TestLogicReset; } else { state := CaptureIr; }
        case CaptureIr => if tms { state := Exit1Ir; } else { state := ShiftIr; }
        case ShiftIr => if tms { state := Exit1Ir; } else { return false; }
        case Exit1Ir => if tms { state := UpdateIr; } else { state := PauseIr; }
        case PauseIr => if tms { state := Exit2Ir; } else { return false; }
        case Exit2Ir => if tms { state := UpdateIr; } else { state := ShiftIr; }
        case UpdateIr => if tms { state := SelectDrScan; } else { state := RunTestIdle; }
      }
    }

    /** The write callback of the Next register: bit 0 is TDI, bit 1 is TMS. */
    method Next(val: nat)
      modifies this
      ensures View() == Step(old(View()), Pins(val % 2 == 1, val / 2 % 2 == 1))
    {
      hide Pow2, Or, And, BitSet, NextState;
      var tdi, tms := val % 2 == 1, val / 2 % 2 == 1;
      var oldState := state;
      var isNew := AdvanceStateMachine(tdi, tms);
      var mask := Pow2(count % 64);
      AndPow2(outputValue, count % 64);
      match oldState {
        case SelectDrScan =>
          nextTdoBit := false;
        case CaptureDr =>
          count := 0;
          dataRegister := 0;
          nextTdoBit := false;
        case ShiftDr =>
          if tdi { dataRegister := Or(dataRegister, mask); }
          nextTdoBit := And(outputValue, mask) != 0;
          count := count + 1;
        case Exit1Dr =>
          nextTdoBit := false;
        case CaptureIr =>
          count := 0;
          instructionRegister := 0;
          nextTdoBit := false;
        case ShiftIr =>
          if tdi { instructionRegister := Or(instructionRegister, mask); }
          nextTdoBit := And(outputValue, mask) != 0;
          count := count + 1;
        case Exit1Ir =>
          nextTdoBit := false;
        case UpdateIr =>
          if instructionRegister == 9 { outputValue := IDCODE; }
        case _ =>
      }
    }
  }

  // ----- the state diagram

  /** Five clocks with TMS high reset the controller from any state. */
  lemma FiveOnesReset(s: TapState)
    ensures NextState(NextState(NextState(NextState(NextState(s, true), true), true), true), true) == TestLogicReset
  {}

  // ----- scans

  /** The two scan paths. */
  datatype Path = DataPath | InstructionPath {
    function Capture(): TapState { if DataPath? then CaptureDr else CaptureIr }
    function Shift(): TapState { if DataPath? then ShiftDr else ShiftIr }
    function Register(t: Tap): nat { if DataPath? then t.dr else t.ir }

    /** States that cannot be entered from this path without a capture on the other. */
    predicate Foreign(s: TapState) {
      if DataPath? then s.ShiftIr? || s.Exit1Ir? || s.PauseIr? || s.Exit2Ir? || s.UpdateIr?
      else s.ShiftDr? || s.Exit1Dr? || s.PauseDr? || s.Exit2Dr? || s.UpdateDr?
    }
  }

  predicate IsCapture(s: TapState) { s.CaptureDr? || s.CaptureIr? }

  /** No clock of the run is taken in a capture state. */
  predicate NoCapture(t: Tap, ps: seq<Pins>)
    decreases |ps|
  {
    ps == [] || (!IsCapture(t.state) && NoCapture(Step(t, ps[0]), ps[1..]))
  }

  /** The TDI bits of those clocks that are taken in the shift state. */
  function Shifted(path: Path, t: Tap, ps: seq<Pins>): seq<bool>
    decreases |ps|
  {
    if ps == [] then []
    else (if t.state == path.Shift() then [ps[0].tdi] else []) + Shifted(path, Step(t, ps[0]), ps[1..])
  }

  /** The TDO bits driven by those clocks. */
  function Driven(path: Path, t: Tap, ps: seq<Pins>): seq<bool>
    decreases |ps|
  {
    if ps == [] then []
    else (if t.state == path.Shift() then [Step(t, ps[0]).tdo] else []) + Driven(path, Step(t, ps[0]), ps[1..])
  }

  /** A register after bits were shifted into it from zero. */
  function Collected(bits: seq<bool>): nat {
    if bits == [] then 0 else ShiftIn(Collected(bits[..|bits| - 1]), |bits| - 1, bits[|bits| - 1])
  }

  /** Along a run without capture the register collects exactly the shifted bits. */
  lemma {:induction false} ScanFrom(path: Path, t: Tap, ps: seq<Pins>, before: seq<bool>)
    requires NoCapture(t, ps) && !path.Foreign(t.state)
    requires t.count == |before| && path.Register(t) == Collected(before)
    ensures var u := Run(t, ps);
            var all := before + Shifted(path, t, ps);
            u.count == |all| && path.Register(u) == Collected(all)
    decreases |ps|
  {
    hide ShiftIn, Step, Path.Register, Path.Foreign;
    if ps == [] {
      assert before + [] == before;
    } else {
      var u := Step(t, ps[0]);
      StepOnPath(path, t, ps[0]);
      if t.state == path.Shift() {
        var more := before + [ps[0].tdi];
        assert more[..|more| - 1] == before;
        ScanFrom(path, u, ps[1..], more);
        assert before + ([ps[0].tdi] + Shifted(path, u, ps[1..])) == more + Shifted(path, u, ps[1..]);
      } else {
        ScanFrom(path, u, ps[1..], before);
        assert before + ([] + Shifted(path, u, ps[1..])) == before + Shifted(path, u, ps[1..]);
      }
    }
  }

  /** Outside captures, only shifts of its own path touch a register. */
  lemma StepOnPath(path: Path, t: Tap, p: Pins)
    requires !IsCapture(t.state) && !path.Foreign(t.state)
    ensures var u := Step(t, p);
            && !path.Foreign(u.state)
            && (t.state == path.Shift() ==>
                  u.count == t.count + 1 && path.Register(u) == ShiftIn(path.Register(t), t.count, p.tdi))
            && (t.state != path.Shift() ==> u.count == t.count && path.Register(u) == path.Register(t))
            && (path.DataPath? ==> u.out == t.out && (t.state == ShiftDr ==> u.tdo == BitSet(t.out, t.count % 64)))
  {
    hide ShiftIn, BitSet;
  }

  /**
  A scan: from a capture on, through any number of pauses and up to the next capture, the
  register holds the bits shifted in, and nothing else.
  */
  lemma Scan(path: Path, t: Tap, p: Pins, ps: seq<Pins>)
    requires t.state == path.Capture() && NoCapture(Step(t, p), ps)
    ensures path.Register(Run(t, [p] + ps)) == Collected(Shifted(path, Step(t, p), ps))
  {
    assert ([p] + ps)[1..] == ps;
    ScanFrom(path, Step(t, p), ps, []);
    assert [] + Shifted(path, Step(t, p), ps) == Shifted(path, Step(t, p), ps);
  }

  /** Bit `j` of the register is set when some bit shifted in at a place congruent to `j` was. */
  lemma {:induction false} CollectedBit(bits: seq<bool>, j: nat)
    ensures BitSet(Collected(bits), j) <==> exists i :: 0 <= i < |bits| && bits[i] && i % 64 == j
  {
    if bits == [] {
      BitSetZero(j);
    } else {
      var init, n := bits[..|bits| - 1], |bits| - 1;
      CollectedBit(init, j);
      BitSetOr(Collected(init), Pow2(n % 64), j);
      BitSetPow2(n % 64, j);
      hide BitSet;
      if BitSet(Collected(bits), j) {
        if bits[n] && n % 64 == j {
        } else {
          var i :| 0 <= i < |init| && init[i] && i % 64 == j;
          assert bits[i];
        }
      }
      if i :| 0 <= i < |bits| && bits[i] && i % 64 == j {
        if i < n { assert init[i]; }
      }
    }
  }

  /** The sum of the bits, the first one least significant. */
  function BitSum(bits: seq<bool>): nat {
    if bits == [] then 0
    else BitSum(bits[..|bits| - 1]) + (if bits[|bits| - 1] then Pow2(|bits| - 1) else 0)
  }

  /** Up to 64 bits nothing wraps and the register is the number shifted in. */
  lemma {:induction false} CollectedSum(bits: seq<bool>)
    requires |bits| <= 64
    ensures Collected(bits) == BitSum(bits) < Pow2(|bits|)
  {
    if bits != [] {
      var init, n := bits[..|bits| - 1], |bits| - 1;
      CollectedSum(init);
      ShlIsMul(1, n);
      DisjointSum(1, BitSum(init), n);
      BitwiseComm(OrOp, Pow2(n), BitSum(init));
    }
  }

  /** However many bits are shifted in, the register has 64. */
  lemma {:induction false} CollectedBound(bits: seq<bool>)
    ensures Collected(bits) < Pow2(64)
  {
    hide Pow2, Bitwise;
    if bits == [] {
      Pow2Monotone(0, 64);
      BoundStart();
    } else {
      var n := |bits| - 1;
      CollectedBound(bits[..n]);
      Pow2Above(n % 64);
      BitwiseBound(OrOp, Collected(bits[..n]), Pow2(n % 64), 64);
    }
  }

  lemma BoundStart()
    ensures Pow2(0) == 1
  {}

  lemma Pow2Above(k: nat)
    requires k < 64
    ensures Pow2(k) < Pow2(64)
  {
    Pow2Monotone(k + 1, 64);
  }

  lemma {:induction false} BitSumAtLeast(bits: seq<bool>, i: nat)
    requires i < |bits| && bits[i]
    ensures BitSum(bits) >= Pow2(i)
  {
    hide Pow2;
    if i < |bits| - 1 { BitSumAtLeast(bits[..|bits| - 1], i); }
  }

  lemma {:induction false} QuietTail(bits: seq<bool>)
    requires forall i :: 64 <= i < |bits| ==> !bits[i]
    ensures Collected(bits) == BitSum(bits)
  {
    hide Pow2, Bitwise;
    if |bits| <= 64 {
      CollectedSum(bits);
    } else {
      QuietTail(bits[..|bits| - 1]);
    }
  }

  /** The register holds the number shifted in exactly if nothing was set from position 64 on. */
  lemma CollectedSumIff(bits: seq<bool>)
    ensures Collected(bits) == BitSum(bits) <==> forall i :: 64 <= i < |bits| ==> !bits[i]
  {
    hide Collected, BitSum, Pow2;
    if i :| 64 <= i < |bits| && bits[i] {
      CollectedBound(bits);
      BitSumAtLeast(bits, i);
      Pow2Monotone(64, i);
    } else {
      QuietTail(bits);
    }
  }

  lemma {:induction false} DrivenFrom(t: Tap, ps: seq<Pins>)
    requires NoCapture(t, ps) && !DataPath.Foreign(t.state)
    ensures |Driven(DataPath, t, ps)| == |Shifted(DataPath, t, ps)|
    ensures forall i :: 0 <= i < |Driven(DataPath, t, ps)| ==>
      Driven(DataPath, t, ps)[i] == BitSet(t.out, (t.count + i) % 64)
    decreases |ps|
  {
    hide BitSet, Step, Path.Foreign;
    if ps != [] {
      StepOnPath(DataPath, t, ps[0]);
      DrivenFrom(Step(t, ps[0]), ps[1..]);
    }
  }

  /** During a data scan, shift `i` drives TDO with bit `i` of the output value. */
  lemma DataScanDrives(t: Tap, p: Pins, ps: seq<Pins>, i: nat)
    requires t.state == CaptureDr && NoCapture(Step(t, p), ps)
    requires i < |Driven(DataPath, Step(t, p), ps)|
    ensures Driven(DataPath, Step(t, p), ps)[i] == BitSet(t.out, i % 64)
  {
    DrivenFrom(Step(t, p), ps);
  }

  /** Once selected, the identification code stays the output. */
  lemma {:induction false} IdcodeStays(t: Tap, ps: seq<Pins>)
    requires t.out == IDCODE || (t.state == UpdateIr && t.ir == 9 && ps != [])
    ensures Run(t, ps).out == IDCODE
    decreases |ps|
  {
    if ps != [] { IdcodeStays(Step(t, ps[0]), ps[1..]); }
  }

  lemma {:induction false} RunConcat(t: Tap, ps: seq<Pins>, qs: seq<Pins>)
    ensures Run(t, ps + qs) == Run(Run(t, ps), qs)
    decreases |ps|
  {
    hide Step;
    if ps == [] {
      assert ps + qs == qs;
    } else {
      assert (ps + qs)[1..] == ps[1..] + qs;
      RunConcat(Step(t, ps[0]), ps[1..], qs);
    }
  }

  /**
  Scan the instruction 9, pass through UpdateIr, do anything at all, and every later data
  scan reads the bits of the identification code in order.
  */
  lemma IdcodeRead(t: Tap, p: Pins, ir: seq<Pins>, more: seq<Pins>, q: Pins, dr: seq<Pins>, i: nat)
    requires t.state == CaptureIr && NoCapture(Step(t, p), ir)
    requires Collected(Shifted(InstructionPath, Step(t, p), ir)) == 9
    requires Run(t, [p] + ir).state == UpdateIr && more != []
    requires var u := Run(t, [p] + ir + more);
             && u.state == CaptureDr && NoCapture(Step(u, q), dr)
             && i < |Driven(DataPath, Step(u, q), dr)|
    ensures var u := Run(t, [p] + ir + more);
            Driven(DataPath, Step(u, q), dr)[i] == BitSet(IDCODE, i % 64)
  {
    hide Run, Step, Shifted, Collected, NoCapture, Driven;
    Scan(InstructionPath, t, p, ir);
    RunConcat(t, [p] + ir, more);
    IdcodeStays(Run(t, [p] + ir), more);
    DataScanDrives(Run(t, [p] + ir + more), q, dr, i);
  }
}
