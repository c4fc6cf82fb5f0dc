/** Paths through the state diagram of the JTAG port, and whole scans as a host clocks them. */
module JtagRuns {
  import opened Bits
  import opened Jtag

  // ----- paths

  function Follow(s: TapState, tms: seq<bool>): TapState
    decreases |tms|
  {
    if tms == [] then s else Follow(NextState(s, tms[0]), tms[1..])
  }

  lemma Follow1(s: TapState, a: bool)
    ensures Follow(s, [a]) == NextState(s, a)
  {
    assert [a][1..] == [];
  }

  lemma Follow2(s: TapState, a: bool, b: bool)
    ensures Follow(s, [a, b]) == NextState(NextState(s, a), b)
  {
    assert [a, b][1..] == [b];
    Follow1(NextState(s, a), b);
  }

  lemma Follow3(s: TapState, a: bool, b: bool, c: bool)
    ensures Follow(s, [a, b, c]) == NextState(NextState(NextState(s, a), b), c)
  {
    assert [a, b, c][1..] == [b, c];
    Follow2(NextState(s, a), b, c);
  }

  lemma Follow4(s: TapState, a: bool, b: bool, c: bool, d: bool)
    ensures Follow(s, [a, b, c, d]) == NextState(NextState(NextState(NextState(s, a), b), c), d)
  {
    assert [a, b, c, d][1..] == [b, c, d];
    Follow3(NextState(s, a), b, c, d);
  }

  /** The ways that a host takes: into a scan, through a pause, and out again. */
  lemma Ways()
    ensures Follow(TestLogicReset, [false]) == RunTestIdle && Follow(RunTestIdle, [false]) == RunTestIdle
    ensures Follow(RunTestIdle, [true, false, false]) == ShiftDr
    ensures Follow(RunTestIdle, [true, true, false, false]) == ShiftIr
    ensures Follow(RunTestIdle, [true, true, true]) == TestLogicReset
    ensures Follow(ShiftDr, [false]) == ShiftDr && Follow(ShiftIr, [false]) == ShiftIr
    ensures Follow(ShiftDr, [true, true, false]) == RunTestIdle && Follow(ShiftIr, [true, true, false]) == RunTestIdle
    ensures Follow(ShiftDr, [true, false, true, false]) == ShiftDr
    ensures Follow(ShiftIr, [true, false, true, false]) == ShiftIr
    ensures Follow(ShiftDr, [true, false, true, true]) == UpdateDr
    ensures Follow(ShiftIr, [true, false, true, true]) == UpdateIr
    ensures Follow(PauseDr, [false]) == PauseDr && Follow(PauseIr, [false]) == PauseIr
    ensures Follow(CaptureDr, [true, true]) == UpdateDr && Follow(CaptureIr, [true, true]) == UpdateIr
    ensures Follow(UpdateDr, [true, false]) == CaptureDr && Follow(UpdateIr, [true, false]) == CaptureDr
    ensures Follow(UpdateDr, [false]) == RunTestIdle && Follow(UpdateIr, [false]) == RunTestIdle
  {
    Follow1(TestLogicReset, false);
    Follow1(RunTestIdle, false);
    Follow3(RunTestIdle, true, false, false);
    Follow4(RunTestIdle, true, true, false, false);
    Follow3(RunTestIdle, true, true, true);
    Follow1(ShiftDr, false);
    Follow1(ShiftIr, false);
    Follow3(ShiftDr, true, true, false);
    Follow3(ShiftIr, true, true, false);
    Follow4(ShiftDr, true, false, true, false);
    Follow4(ShiftIr, true, false, true, false);
    Follow4(ShiftDr, true, false, true, true);
    Follow4(ShiftIr, true, false, true, true);
    Follow1(PauseDr, false);
    Follow1(PauseIr, false);
    Follow2(CaptureDr, true, true);
    Follow2(CaptureIr, true, true);
    Follow2(UpdateDr, true, false);
    Follow2(UpdateIr, true, false);
    Follow1(UpdateDr, false);
    Follow1(UpdateIr, false);
    hide Follow;
  }

  // ----- whole scans

  function TmsOf(ps: seq<Pins>): (r: seq<bool>)
    ensures |r| == |ps|
  {
    seq(|ps|, i requires 0 <= i < |ps| => ps[i].tms)
  }

  /** The states and shifted bits of a run depend on nothing but its first state. */
  function ShiftedFrom(path: Path, s: TapState, ps: seq<Pins>): seq<bool>
    decreases |ps|
  {
    if ps == [] then []
    else (if s == path.Shift() then [ps[0].tdi] else []) + ShiftedFrom(path, NextState(s, ps[0].tms), ps[1..])
  }

  predicate PassesCapture(s: TapState, ps: seq<Pins>)
    decreases |ps|
  {
    ps != [] && (IsCapture(s) || PassesCapture(NextState(s, ps[0].tms), ps[1..]))
  }

  lemma {:induction false} RunStates(path: Path, t: Tap, ps: seq<Pins>)
    ensures Run(t, ps).state == Follow(t.state, TmsOf(ps))
    ensures Shifted(path, t, ps) == ShiftedFrom(path, t.state, ps)
    ensures NoCapture(t, ps) <==> !PassesCapture(t.state, ps)
    decreases |ps|
  {
    if ps != [] {
      StepState(t, ps[0]);
      RunStates(path, Step(t, ps[0]), ps[1..]);
      assert TmsOf(ps)[1..] == TmsOf(ps[1..]);
      hide Step, NextState;
    }
  }

  lemma StepState(t: Tap, p: Pins)
    ensures Step(t, p).state == NextState(t.state, p.tms)
  {}

  /** Four clocks that shift in 1, 0, 0, 1 and one more to UpdateIr. */
  const NINE: seq<Pins> :=
    [Pins(true, false), Pins(false, false), Pins(false, false), Pins(true, true), Pins(false, true)]

  /** The same with a pause of two clocks in the middle. */
  const NINE_PAUSED: seq<Pins> :=
    [Pins(true, false), Pins(false, true), Pins(false, false), Pins(false, false), Pins(false, true),
     Pins(false, false), Pins(false, false), Pins(true, true), Pins(false, true)]

  /** From `s` the clocks lead to UpdateIr past no capture, and shift in `bits`. */
  predicate Scans(s: TapState, ps: seq<Pins>, bits: seq<bool>) {
    && Follow(s, TmsOf(ps)) == UpdateIr && !PassesCapture(s, ps)
    && ShiftedFrom(InstructionPath, s, ps) == bits
  }

  lemma ScansNothing()
    ensures Scans(UpdateIr, [], [])
  {}

  /** One clock more in front. */
  lemma Before(s: TapState, p: Pins, ps: seq<Pins>, bits: seq<bool>)
    requires Scans(NextState(s, p.tms), ps, bits) && !IsCapture(s)
    ensures Scans(s, [p] + ps, (if s == ShiftIr then [p.tdi] else []) + bits)
  {
    hide NextState;
    assert ([p] + ps)[1..] == ps;
    assert TmsOf([p] + ps)[1..] == TmsOf(ps) && TmsOf([p] + ps)[0] == p.tms;
  }

  /** The last two bits 0 and 1, and the way to UpdateIr. */
  lemma LastTwo()
    ensures Scans(ShiftIr, [Pins(false, false), Pins(true, true), Pins(false, true)], [false, true])
  {
    hide Scans;
    ScansNothing();
    Before(Exit1Ir, Pins(false, true), [], []);
    var one := [Pins(false, true)] + [];
    Before(ShiftIr, Pins(true, true), one, [] + []);
    Before(ShiftIr, Pins(false, false), [Pins(true, true)] + one, [true] + ([] + []));
    assert [Pins(false, false)] + ([Pins(true, true)] + one)
        == [Pins(false, false), Pins(true, true), Pins(false, true)];
    assert [false] + ([true] + ([] + [])) == [false, true];
  }

  lemma NineStates()
    ensures Scans(ShiftIr, NINE, [true, false, false, true])
  {
    hide Scans;
    var last := [Pins(false, false), Pins(true, true), Pins(false, true)];
    LastTwo();
    Before(ShiftIr, Pins(false, false), last, [false, true]);
    Before(ShiftIr, Pins(true, false), [Pins(false, false)] + last, [false] + [false, true]);
    assert [Pins(true, false)] + ([Pins(false, false)] + last) == NINE;
    assert [true] + ([false] + [false, true]) == [true, false, false, true];
  }

  lemma NinePausedStates()
    ensures Scans(ShiftIr, NINE_PAUSED, [true, false, false, true])
  {
    hide Scans;
    var last := [Pins(false, false), Pins(true, true), Pins(false, true)];
    LastTwo();
    Before(Exit2Ir, Pins(false, false), last, [false, true]);
    var a := [Pins(false, false)] + last;
    Before(PauseIr, Pins(false, true), a, [] + [false, true]);
    var b := [Pins(false, true)] + a;
    assert [] + [false, true] == [false, true] && [] + ([] + [false, true]) == [false, true];
    Before(PauseIr, Pins(false, false), b, [false, true]);
    var c := [Pins(false, false)] + b;
    Before(Exit1Ir, Pins(false, false), c, [false, true]);
    var d := [Pins(false, false)] + c;
    Before(ShiftIr, Pins(false, true), d, [false, true]);
    Before(ShiftIr, Pins(true, false), [Pins(false, true)] + d, [false] + [false, true]);
    assert [Pins(true, false)] + ([Pins(false, true)] + d) == NINE_PAUSED;
    assert [true] + ([false] + [false, true]) == [true, false, false, true];
  }

  lemma CollectNine()
    ensures Collected([true, false, false, true]) == 9
  {
    CollectedSum([true, false, false, true]);
    assert [true, false, false, true][..3] == [true, false, false] && [true, false, false][..2] == [true, false];
    assert [true, false][..1] == [true] && [true][..0] == [];
    assert Pow2(3) == 8 && Pow2(0) == 1;
    assert BitSum([true]) == 1;
    assert BitSum([true, false]) == 1;
    assert BitSum([true, false, false]) == 1;
  }

  /** `n` clocks in the shift state of the data path. */
  function Idle(n: nat): (ps: seq<Pins>)
    ensures |ps| == n
  {
    seq(n, _ => Pins(false, false))
  }

  lemma {:induction false} IdleShifts(t: Tap, n: nat)
    requires t.state == ShiftDr
    ensures NoCapture(t, Idle(n)) && |Driven(DataPath, t, Idle(n))| == n
    decreases n
  {
    if n > 0 {
      StepState(t, Pins(false, false));
      assert Idle(n)[1..] == Idle(n - 1);
      IdleShifts(Step(t, Idle(n)[0]), n - 1);
      hide Step;
    }
  }

  /**
  A host that scans in instruction 9, with or without a pause, and goes on to a data scan of
  any length reads the IDCODE bit by bit.
  */
  lemma HostReadsIdcode(t: Tap, paused: bool, n: nat, i: nat)
    requires t.state == CaptureIr && i < n
    ensures var scan := [Pins(false, false)] + (if paused then NINE_PAUSED else NINE);
            var u := Run(t, scan + [Pins(false, true), Pins(false, false)]);
            && u.state == CaptureDr && |Driven(DataPath, Step(u, Pins(false, false)), Idle(n))| == n
            && Driven(DataPath, Step(u, Pins(false, false)), Idle(n))[i] == BitSet(IDCODE, i % 64)
  {
    var p, ir := Pins(false, false), if paused then NINE_PAUSED else NINE;
    var more := [Pins(false, true), Pins(false, false)];
    NineStates();
    NinePausedStates();
    CollectNine();
    StepState(t, p);
    hide Step, Run, Follow, Shifted, ShiftedFrom, NoCapture, PassesCapture;
    hide Driven, Collected, BitSet, NINE, NINE_PAUSED, TmsOf;
    var t1 := Step(t, p);
    RunStates(InstructionPath, t1, ir);
    RunOne(t, p, ir);
    RunConcat(t, [p] + ir, more);
    var u := Run(t, [p] + ir + more);
    UpdateToCapture(Run(t, [p] + ir));
    StepState(u, p);
    IdleShifts(Step(u, p), n);
    IdcodeRead(t, p, ir, more, p, Idle(n), i);
  }

  lemma RunOne(t: Tap, p: Pins, ps: seq<Pins>)
    ensures Run(t, [p] + ps) == Run(Step(t, p), ps)
  {
    hide Step;
    assert ([p] + ps)[1..] == ps;
  }

  lemma UpdateToCapture(t: Tap)
    requires t.state == UpdateIr
    ensures Run(t, [Pins(false, true), Pins(false, false)]).state == CaptureDr
  {
    var ps := [Pins(false, true), Pins(false, false)];
    RunStates(DataPath, t, ps);
    assert TmsOf(ps) == [true, false];
    Ways();
  }

  /** From a reset, five clocks lead to that point. */
  lemma FromReset(t: Tap, ps: seq<Pins>)
    requires t.state == TestLogicReset && |ps| == 4 && TmsOf(ps) == [false, true, true, false]
    ensures Run(t, ps).state == CaptureIr
  {
    RunStates(DataPath, t, ps);
    Follow4(TestLogicReset, false, true, true, false);
    hide Follow;
  }
}
