/**
The SPI flash controller of the emulated device (emulation/peripherals/BetrustedSpinor.cs):
a command register that drives the chip, and two byte queues.
*/
module Spinor {
  import opened Bits
  import opened Bytes
  import opened FlashChip

  // ----- what a command does

  function SendAll(c: Chip, bs: seq<byte>): (d: Chip)
    requires ValidSize(|c.mem|)
    ensures |d.mem| == |c.mem|
  {
    if bs == [] then c else Exchange(SendAll(c, bs[..|bs| - 1]), bs[|bs| - 1]).0
  }

  lemma SendNext(c: Chip, bs: seq<byte>, b: byte)
    requires ValidSize(|c.mem|)
    ensures SendAll(c, bs + [b]) == Exchange(SendAll(c, bs), b).0
  {
    assert (bs + [b])[..|bs|] == bs;
  }

  lemma {:induction false} SendConcat(c: Chip, a: seq<byte>, b: seq<byte>)
    requires ValidSize(|c.mem|)
    ensures SendAll(c, a + b) == SendAll(SendAll(c, a), b)
    decreases |b|
  {
    hide Exchange;
    if b == [] {
      assert a + b == a;
    } else {
      var init := b[..|b| - 1];
      SendConcat(c, a, init);
      assert (a + b)[..|a + b| - 1] == a + init;
    }
  }

  function Transaction(c: Chip, bs: seq<byte>): (d: Chip)
    requires ValidSize(|c.mem|)
    ensures |d.mem| == |c.mem|
  {
    Finish(SendAll(c, bs))
  }

  /** Wake up, set the dummy cycles, and switch to OPI mode. */
  function Switched(c: Chip): (d: Chip)
    requires ValidSize(|c.mem|)
    ensures |d.mem| == |c.mem|
  {
    var c1 := Transaction(c, [0xab]);
    var c2 := Transaction(c1, [0x06]);
    var c3 := Transaction(c2, [0x72, 0x00, 0x00, 0x03, 0x00, 0x05]);
    var c4 := Transaction(c3, [0x06]);
    Transaction(c4, [0x72, 0x00, 0x00, 0x00, 0x00, 0x02])
  }

  /** The argument register, most significant byte first. */
  function ArgBytes(arg: nat): (r: seq<byte>)
    ensures |r| == 4
  {
    [arg / 0x100_0000 % 256, arg / 0x1_0000 % 256, arg / 0x100 % 256, arg % 256]
  }

  /** `n` bytes from the queue, filled up with 0xff. */
  function Taken(tx: seq<byte>, n: nat): (r: seq<byte>)
    ensures |r| == n
  {
    seq(n, i requires 0 <= i < n => if i < |tx| then tx[i] else 0xff)
  }

  function Left(tx: seq<byte>, n: nat): seq<byte> { if n <= |tx| then tx[n..] else [] }

  /** What is clocked in during `n` dummy cycles: the argument first, if there is one. */
  function DummyBytes(hasArg: bool, arg: nat, n: nat): (r: seq<byte>)
    ensures |r| == n
  {
    seq(n, i requires 0 <= i < n => if hasArg && i < 4 then ArgBytes(arg)[i] else 0xff)
  }

  /** Each word read puts the chip's reply and a zero into the queue. */
  function Replies(c: Chip, words: nat): (r: seq<byte>)
    requires ValidSize(|c.mem|)
    ensures |r| == 2 * words
  {
    if words == 0 then []
    else Replies(c, words - 1) + [Exchange(SendAll(c, Fill(2 * (words - 1))), 0xff).1, 0]
  }

  function Fill(n: nat): (r: seq<byte>)
    ensures |r| == n
  {
    seq(n, _ => 0xff)
  }

  datatype Port = Port(chip: Chip, tx: seq<byte>, rx: seq<byte>, arg: nat, opiKnown: bool)

  datatype Command = Command(exec: bool, code: byte, hasArg: bool, dummy: nat, words: nat)

  /** The fields of the command register. */
  function Decode(w: nat): Command {
    Command(w / 2 % 2 == 1, w / 4 % 256, w / 1024 % 2 == 1, w / 2048 % 32, w / 65536 % 256)
  }

  function Ready(p: Port): (q: Port)
    requires ValidSize(|p.chip.mem|)
    ensures |q.chip.mem| == |p.chip.mem| && q.opiKnown
  {
    if p.opiKnown then p else p.(chip := Switched(p.chip), opiKnown := true)
  }

  function Execute(p: Port, cmd: Command): Port
    requires ValidSize(|p.chip.mem|)
  {
    if !cmd.exec then p
    else
      var q := Ready(p);
      var c := SendAll(q.chip, [cmd.code, 255 - cmd.code]);
      if cmd.dummy == 0 then
        var d := SendAll(c, if cmd.hasArg then ArgBytes(q.arg) else []);
        q.(chip := Finish(SendAll(d, Taken(q.tx, 2 * cmd.words))), tx := Left(q.tx, 2 * cmd.words))
      else
        var d := SendAll(c, DummyBytes(cmd.hasArg, q.arg, cmd.dummy));
        q.(chip := Finish(SendAll(d, Fill(2 * cmd.words))), rx := q.rx + Replies(d, cmd.words))
  }

  // ----- the controller as it runs

  class BetrustedSpinor {
    const chip: Flash
    var txQueue: seq<byte>
    var rxQueue: seq<byte>
    var cmdArg: nat
    var spiIsInOpiMode: bool

    ghost predicate Valid()
      reads this, chip
    {
      chip.Valid()
    }

    ghost function View(): Port
      reads this, chip, chip.mem
    {
      Port(chip.View(), txQueue, rxQueue, cmdArg, spiIsInOpiMode)
    }

    constructor (chip: Flash)
      requires chip.Valid()
      ensures this.chip == chip && Valid() && View() == Port(chip.View(), [], [], 0, false)
    {
      this.chip := chip;
      txQueue, rxQueue, cmdArg, spiIsInOpiMode := [], [], 0, false;
    }

    method SendSequence(bs: seq<byte>)
      requires Valid()
      modifies chip, chip.mem
      ensures chip.View() == SendAll(old(chip.View()), bs)
    {
      hide Exchange;
      ghost var c := chip.View();
      for i := 0 to |bs|
        invariant chip.View() == SendAll(c, bs[..i])
      {
        assert bs[..i + 1] == bs[..i] + [bs[i]];
        SendNext(c, bs[..i], bs[i]);
        var reply := chip.Transmit(bs[i]);
      }
      assert bs[..|bs|] == bs;
    }

    method TransmitTransaction(bs: seq<byte>)
      requires Valid()
      modifies chip, chip.mem
      ensures chip.View() == Transaction(old(chip.View()), bs)
    {
      SendSequence(bs);
      chip.FinishTransmission();
    }

    method SwitchSpiToOpi()
      requires Valid()
      modifies this`spiIsInOpiMode, chip, chip.mem
      ensures View() == Ready(old(View()))
    {
      hide Transaction;
      if spiIsInOpiMode { return; }
      TransmitTransaction([0xab]);
      TransmitTransaction([0x06]);
      TransmitTransaction([0x72, 0x00, 0x00, 0x03, 0x00, 0x05]);
      TransmitTransaction([0x06]);
      TransmitTransaction([0x72, 0x00, 0x00, 0x00, 0x00, 0x02]);
      spiIsInOpiMode := true;
    }

    method DequeueTx() returns (b: byte)
      modifies this`txQueue
      ensures b == (if |old(txQueue)| > 0 then old(txQueue)[0] else 0xff) && txQueue == Left(old(txQueue), 1)
    {
      if |txQueue| > 0 {
        b, txQueue := txQueue[0], txQueue[1..];
      } else {
        b := 0xff;
      }
    }

    /** The write half: pairs of bytes from the queue, or 0xff once it is empty. */
    method SendWords(words: nat)
      requires Valid()
      modifies this`txQueue, chip, chip.mem
      ensures chip.View() == SendAll(old(chip.View()), Taken(old(txQueue), 2 * words))
      ensures txQueue == Left(old(txQueue), 2 * words)
    {
      hide Exchange, SendAll;
      ghost var c, tx := chip.View(), txQueue;
      SendNothing(c);
      for i := 0 to words
        invariant chip.View() == SendAll(c, Taken(tx, 2 * i)) && txQueue == Left(tx, 2 * i)
      {
        TakenNext(tx, 2 * i);
        TakenNext(tx, 2 * i + 1);
        SendNext(c, Taken(tx, 2 * i), Taken(tx, 2 * i + 1)[2 * i]);
        SendNext(c, Taken(tx, 2 * i + 1), Taken(tx, 2 * i + 2)[2 * i + 1]);
        var b := DequeueTx();
        var reply := chip.Transmit(b);
        b := DequeueTx();
        reply := chip.Transmit(b);
      }
    }

    /** The read half. */
    method ReceiveWords(words: nat)
      requires Valid()
      modifies this`rxQueue, chip, chip.mem
      ensures chip.View() == SendAll(old(chip.View()), Fill(2 * words))
      ensures rxQueue == old(rxQueue) + Replies(old(chip.View()), words)
    {
      hide Exchange, SendAll;
      ghost var c, rx := chip.View(), rxQueue;
      SendNothing(c);
      for i := 0 to words
        invariant chip.View() == SendAll(c, Fill(2 * i)) && rxQueue == rx + Replies(c, i)
      {
        FillNext(2 * i);
        FillNext(2 * i + 1);
        SendNext(c, Fill(2 * i), 0xff);
        SendNext(c, Fill(2 * i + 1), 0xff);
        var reply := chip.Transmit(0xff);
        rxQueue := rxQueue + [reply];
        reply := chip.Transmit(0xff);
        rxQueue := rxQueue + [reply / 256];
        assert rxQueue == rx + (Replies(c, i) + [Exchange(SendAll(c, Fill(2 * i)), 0xff).1, 0]);
      }
    }

    /** The write callback of the command register. */
    method WriteCommand(data: nat)
      requires Valid()
      modifies this, chip, chip.mem
      ensures View() == Execute(old(View()), Decode(data))
    {
      hide SendAll, Replies, Ready, Finish, ArgBytes, DummyBytes;
      var execCmd := data / 2 % 2 == 1;
      var cmdCode := data / 4 % 256;
      var hasArg := data / 1024 % 2 == 1;
      var dummyCycles := data / 2048 % 32;
      var dataWords := data / 65536 % 256;
      if !execCmd { return; }
      SwitchSpiToOpi();
      SendSequence([cmdCode, 255 - cmdCode]);
      if dummyCycles == 0 {
        SendSequence(if hasArg then ArgBytes(cmdArg) else []);
        SendWords(dataWords);
      } else {
        SendSequence(DummyBytes(hasArg, cmdArg, dummyCycles));
        ReceiveWords(dataWords);
      }
      chip.FinishTransmission();
    }

    /** The argument register is 32 bits wide. */
    method WriteArg(value: nat)
      modifies this`cmdArg
      ensures cmdArg == value % 0x1_0000_0000
    {
      cmdArg := value % 0x1_0000_0000;
    }

    /** A 16-bit write to the data register, low byte first. */
    method HandleTxFifoWrite(value: nat)
      modifies this`txQueue
      ensures txQueue == old(txQueue) + [value % 256, value / 256 % 256]
    {
      txQueue := txQueue + [value % 256];
      txQueue := txQueue + [value / 256 % 256];
    }

    /** Up to four bytes from the queue, the first one least significant. */
    method HandleRxFifoRead() returns (ret: nat)
      modifies this`rxQueue
      ensures ret == FromLittle(FirstOf(old(rxQueue), 4)) && rxQueue == Left(old(rxQueue), 4)
    {
      hide Or, Shl, Pow2, FromLittle;
      ret := 0;
      ghost var rx := rxQueue;
      ReadStart();
      for i := 0 to 4
        invariant rxQueue == Left(rx, i) && ret == FromLittle(FirstOf(rx, i)) < Pow2(8 * i)
      {
        ReadNext(rx, i);
        if |rxQueue| > 0 {
          ret := Or(ret, Shl(rxQueue[0], 8 * i));
          rxQueue := rxQueue[1..];
        }
      }
    }

    /** A system reset clears the registers and takes the chip out of OPI mode; the queues stay. */
    method Reset()
      requires Valid()
      modifies this`cmdArg, this`spiIsInOpiMode, chip
      ensures View() == old(View()).(chip := FlashChip.Reset(old(chip.View())), arg := 0, opiKnown := false)
    {
      cmdArg := 0;
      spiIsInOpiMode := false;
      chip.ResetDevice();
    }
  }

  function FirstOf(rx: seq<byte>, n: nat): seq<byte> { if |rx| <= n then rx else rx[..n] }

  lemma ReadStart()
    ensures FromLittle([]) == 0 < Pow2(0)
  {}

  lemma ReadNext(rx: seq<byte>, i: nat)
    requires FromLittle(FirstOf(rx, i)) < Pow2(8 * i)
    ensures FromLittle(FirstOf(rx, i + 1)) < Pow2(8 * (i + 1))
    ensures i < |rx| ==>
      FromLittle(FirstOf(rx, i + 1)) == Or(FromLittle(FirstOf(rx, i)), Shl(rx[i], 8 * i))
  {
    FromLittleBound(FirstOf(rx, i + 1));
    Pow2Monotone(8 * |FirstOf(rx, i + 1)|, 8 * (i + 1));
    if i < |rx| {
      assert FirstOf(rx, i + 1) == rx[..i] + [rx[i]] && FirstOf(rx, i) == rx[..i];
      FromLittleSnoc(rx[..i], rx[i]);
      DisjointSum(rx[i], FromLittle(rx[..i]), 8 * i);
      BitwiseComm(OrOp, FromLittle(rx[..i]), Shl(rx[i], 8 * i));
    }
  }

  lemma SendNothing(c: Chip)
    requires ValidSize(|c.mem|)
    ensures SendAll(c, []) == c
  {}

  lemma TakenNext(tx: seq<byte>, n: nat)
    ensures Taken(tx, n + 1) == Taken(tx, n) + [if |Left(tx, n)| > 0 then Left(tx, n)[0] else 0xff]
    ensures Left(tx, n + 1) == Left(Left(tx, n), 1)
  {}

  lemma FillNext(n: nat)
    ensures Fill(n + 1) == Fill(n) + [0xff]
  {}
}
