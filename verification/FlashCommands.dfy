/**
The commands that the host tool uses, as the controller and the chip carry them out together
once the chip is in OPI mode and idle.
*/
module FlashCommands {
  import opened Bits
  import opened Bytes
  import opened FlashChip
  import opened Spinor

  /** In OPI mode, between transmissions. */
  predicate Idle(c: Chip) { c.opi && c.atFirst && c.cur == IDLE && ValidSize(|c.mem|) }

  /** The controller has put the chip into OPI mode, and no reply is waiting. */
  predicate Connected(p: Port) { p.opiKnown && Idle(p.chip) && p.rx == [] }

  // ----- pieces of a transmission

  /** A command byte and its complement. */
  lemma Opened(c: Chip, code: byte)
    requires Idle(c)
    ensures SendAll(c, [code, 255 - code]) == Recognize(c.(atFirst := false, first := code), code)
  {
    hide Recognize;
    SendOne(c, code);
    SendNext(c, [code], 255 - code);
    assert [code] + [255 - code] == [code, 255 - code];
  }

  lemma SendOne(c: Chip, b: byte)
    requires ValidSize(|c.mem|)
    ensures SendAll(c, [b]) == Exchange(c, b).0
  {
    SendNothing(c);
    SendNext(c, [], b);
    assert [] + [b] == [b];
  }

  /** A chip that is waiting for the address of `op`. */
  predicate AwaitsAddress(c: Chip) {
    !(c.opi && c.atFirst) && c.cur.got == 0 && c.cur.address == 0 && ValidSize(|c.mem|)
  }

  lemma ArgValue(arg: nat)
    requires arg < 0x1_0000_0000
    ensures var b: seq<nat> := ArgBytes(arg); ((b[0] * 256 + b[1]) * 256 + b[2]) * 256 + b[3] == arg
  {
    var h := arg / 256;
    var i := h / 256;
    var j := i / 256;
    assert arg == 256 * h + arg % 256 && h == 256 * i + h % 256 && i == 256 * j + i % 256;
    DivModUnique(arg, i, 256 * (h % 256) + arg % 256, 0x1_0000);
    DivModUnique(arg, j, 0x1_0000 * (i % 256) + 256 * (h % 256) + arg % 256, 0x100_0000);
  }

  lemma SendFour(c: Chip, b: seq<byte>)
    requires ValidSize(|c.mem|) && |b| == 4
    ensures SendAll(c, b) == Exchange(Exchange(Exchange(Exchange(c, b[0]).0, b[1]).0, b[2]).0, b[3]).0
  {
    hide Exchange;
    assert b[..3][..2] == b[..2] && b[..2][..1] == b[..1] && b[..1][..0] == [];
    assert SendAll(c, b[..1]) == Exchange(c, b[0]).0;
    assert SendAll(c, b[..2]) == Exchange(SendAll(c, b[..1]), b[1]).0;
    assert SendAll(c, b[..3]) == Exchange(SendAll(c, b[..2]), b[2]).0;
  }

  lemma AddressByte(c: Chip, b: byte)
    requires !(c.opi && c.atFirst) && c.cur.got < 3 && ValidSize(|c.mem|)
    requires c.cur.phase == AddressThenData || c.cur.phase == AddressOnly
    ensures Exchange(c, b).0 == c.(cur := c.cur.(address := c.cur.address * 256 + b, got := c.cur.got + 1))
  {
    hide Recognize, Handle, NoData;
  }

  lemma ThreeAddressBytes(c: Chip, b: seq<byte>)
    requires AwaitsAddress(c) && |b| == 4 && (c.cur.phase == AddressThenData || c.cur.phase == AddressOnly)
    ensures var x, y, z: nat := b[0], b[1], b[2];
      Exchange(Exchange(Exchange(c, b[0]).0, b[1]).0, b[2]).0
      == c.(cur := c.cur.(address := (x * 256 + y) * 256 + z, got := 3))
  {
    hide Exchange;
    AddressByte(c, b[0]);
    var c1 := Exchange(c, b[0]).0;
    AddressByte(c1, b[1]);
    AddressByte(Exchange(c1, b[1]).0, b[2]);
  }

  /** Four address bytes, and the data phase begins. */
  lemma AddressedData(c: Chip, arg: nat)
    requires AwaitsAddress(c) && c.cur.phase == AddressThenData && arg < 0x1_0000_0000
    ensures SendAll(c, ArgBytes(arg)) == c.(cur := c.cur.(phase := HandleCommand, got := 4, address := arg))
  {
    var b := ArgBytes(arg);
    ArgValue(arg);
    SendFour(c, b);
    hide SendAll, Recognize, Handle, NoData, ArgBytes;
    ThreeAddressBytes(c, b);
  }

  /** Four address bytes, and the command without data is carried out. */
  lemma AddressedOnly(c: Chip, arg: nat)
    requires AwaitsAddress(c) && c.cur.phase == AddressOnly && arg < 0x1_0000_0000
    ensures SendAll(c, ArgBytes(arg)) == NoData(c.(cur := c.cur.(phase := HandleNoData, got := 4, address := arg)))
  {
    var b := ArgBytes(arg);
    ArgValue(arg);
    SendFour(c, b);
    hide SendAll, Recognize, Handle, NoData, ArgBytes;
    ThreeAddressBytes(c, b);
  }

  /** `data` laid over the memory from `at` on; what would stick out at the end is lost. */
  function Overwritten(mem: seq<byte>, at: nat, data: seq<byte>): (r: seq<byte>)
    ensures |r| == |mem|
    ensures forall i :: 0 <= i < |mem| ==> r[i] == if at <= i < at + |data| then data[i - at] else mem[i]
  {
    seq(|mem|, i requires 0 <= i < |mem| => if at <= i < at + |data| then data[i - at] else mem[i])
  }

  lemma OverwriteNext(mem: seq<byte>, at: nat, data: seq<byte>, b: byte)
    ensures WriteByte(Overwritten(mem, at, data), at + |data|, b) == Overwritten(mem, at, data + [b])
  {}

  /** What a program command does to the memory. */
  function ProgramResult(c: Chip, at: nat, data: seq<byte>): seq<byte> {
    if c.enable then Overwritten(c.mem, at, data) else c.mem
  }

  /** The data phase of a program: byte after byte into memory, or nowhere. */
  lemma {:induction false} Programmed(c: Chip, data: seq<byte>)
    requires ValidSize(|c.mem|) && c.opi && !c.atFirst
    requires c.cur.op == Program && c.cur.phase == HandleCommand && c.cur.handled == 0
    ensures SendAll(c, data) == c.(mem := ProgramResult(c, c.cur.address, data), cur := c.cur.(handled := |data|))
    decreases |data|
  {
    if data == [] {
      assert Overwritten(c.mem, c.cur.address, []) == c.mem;
    } else {
      var init, b := data[..|data| - 1], data[|data| - 1];
      Programmed(c, init);
      OverwriteNext(c.mem, c.cur.address, init, b);
      assert data == init + [b];
      hide Overwritten, WriteByte, SendAll, Recognize, NoData, Accumulate;
      SendNext(c, init, b);
    }
  }

  // ----- whole commands

  lemma NoWords(c: Chip, tx: seq<byte>)
    requires ValidSize(|c.mem|)
    ensures SendAll(c, Taken(tx, 0)) == c && Left(tx, 0) == tx && SendAll(c, []) == c
  {}

  lemma WriteEnable(p: Port)
    requires Connected(p)
    ensures Execute(p, Command(true, 0x06, false, 0, 0)) == p.(chip := p.chip.(enable := true, first := 0x06))
  {
    hide SendAll;
    Opened(p.chip, 0x06);
    var c := Recognize(p.chip.(atFirst := false, first := 0x06), 0x06);
    NoWords(c, p.tx);
  }

  lemma WriteDisable(p: Port)
    requires Connected(p)
    ensures Execute(p, Command(true, 0x04, false, 0, 0)) == p.(chip := p.chip.(enable := false, first := 0x04))
  {
    hide SendAll;
    Opened(p.chip, 0x04);
    var c := Recognize(p.chip.(atFirst := false, first := 0x04), 0x04);
    NoWords(c, p.tx);
  }

  /** An erase clears the block around its address if the latch is set, and drops the latch. */
  lemma EraseCommand(p: Port, code: byte, size: EraseSize)
    requires Connected(p) && p.arg < 0x1_0000_0000
    requires (code == 0xDC && size == Sector) || (code == 0x21 && size == Subsector4K)
    ensures Execute(p, Command(true, code, true, 0, 0))
         == p.(chip := p.chip.(mem := if p.chip.enable then EraseBlock(p.chip.mem, p.arg, size) else p.chip.mem,
                               enable := false, first := code))
  {
    hide SendAll, EraseBlock, ArgBytes;
    Opened(p.chip, code);
    var c := Recognize(p.chip.(atFirst := false, first := code), code);
    AddressedOnly(c, p.arg);
    var d := NoData(c.(cur := c.cur.(phase := HandleNoData, got := 4, address := p.arg)));
    NoWords(d, p.tx);
  }

  /** A program writes the queued bytes from its address on, if the latch is set. */
  lemma ProgramCommand(p: Port, words: nat)
    requires Connected(p) && p.arg < 0x1_0000_0000
    ensures Execute(p, Command(true, 0x12, true, 0, words))
         == p.(chip := p.chip.(mem := ProgramResult(p.chip, p.arg, Taken(p.tx, 2 * words)),
                               enable := false, first := 0x12),
               tx := Left(p.tx, 2 * words))
  {
    hide SendAll, ArgBytes, Overwritten;
    Opened(p.chip, 0x12);
    var c := Recognize(p.chip.(atFirst := false, first := 0x12), 0x12);
    AddressedData(c, p.arg);
    var d := c.(cur := c.cur.(phase := HandleCommand, got := 4, address := p.arg));
    Programmed(d, Taken(p.tx, 2 * words));
  }

  lemma DummyIsArg(arg: nat)
    ensures DummyBytes(true, arg, 4) == ArgBytes(arg)
  {}

  /** The data phase of a register read: the same reply again and again. */
  lemma ReadTwo(c: Chip)
    requires ValidSize(|c.mem|) && c.opi && !c.atFirst && c.cur.op == ReadRegister && c.cur.phase == HandleCommand
    ensures Replies(c, 1) == [ReadReply(c), 0]
    ensures SendAll(c, Fill(2)) == c.(cur := c.cur.(handled := c.cur.handled + 2))
  {
    assert Replies(c, 0) == [] && Fill(0) == [] && Fill(2)[..1] == [0xff] && [0xff][..0] == [];
    assert SendAll(c, Fill(0)) == c;
    assert SendAll(c, [0xff]) == c.(cur := c.cur.(handled := c.cur.handled + 1));
  }

  /** Reading a register leaves the chip as it was and queues the reply. */
  lemma ReadCommand(p: Port, code: byte)
    requires Connected(p) && p.arg < 0x1_0000_0000 && (code == 0x05 || code == 0x2B)
    ensures Execute(p, Command(true, code, true, 4, 1))
         == p.(chip := p.chip.(first := code), rx := [if code == 0x05 && p.chip.enable then 2 else 0, 0])
  {
    hide SendAll, ArgBytes, Replies;
    Opened(p.chip, code);
    var c := Recognize(p.chip.(atFirst := false, first := code), code);
    DummyIsArg(p.arg);
    AddressedData(c, p.arg);
    var d := c.(cur := c.cur.(phase := HandleCommand, got := 4, address := p.arg));
    ReadTwo(d);
  }

  /** What an identification queues: the table in order, with every second byte lost. */
  function IdBytes(words: nat): seq<byte> { if words == 1 then [0xC2, 0] else [0xC2, 0, 0x3B, 0] }

  lemma ReadId(c: Chip, words: nat)
    requires ValidSize(|c.mem|) && c.opi && !c.atFirst
    requires c.cur.op == ReadID && c.cur.phase == HandleCommand && c.cur.handled == 0
    requires words == 1 || words == 2
    ensures Replies(c, words) == IdBytes(words)
    ensures SendAll(c, Fill(2 * words)) == c.(cur := c.cur.(handled := 2 * words))
  {
    assert Fill(2)[..1] == [0xff] && Fill(0) == [] && [0xff][..0] == [];
    assert SendAll(c, Fill(0)) == c;
    assert SendAll(c, [0xff]) == c.(cur := c.cur.(handled := 1));
    assert SendAll(c, Fill(2)) == c.(cur := c.cur.(handled := 2));
    assert Replies(c, 0) == [] && Replies(c, 1) == [0xC2, 0];
    if words == 2 { ReadIdMore(c); }
  }

  lemma ReadIdMore(c: Chip)
    requires ValidSize(|c.mem|) && c.opi && !c.atFirst
    requires c.cur.op == ReadID && c.cur.phase == HandleCommand && c.cur.handled == 0
    requires SendAll(c, Fill(2)) == c.(cur := c.cur.(handled := 2)) && Replies(c, 1) == [0xC2, 0]
    ensures Replies(c, 2) == IdBytes(2)
    ensures SendAll(c, Fill(4)) == c.(cur := c.cur.(handled := 4))
  {
    FillNext(2);
    FillNext(3);
    SendNext(c, Fill(2), 0xff);
    SendNext(c, Fill(3), 0xff);
    hide SendAll;
    assert Replies(c, 2) == Replies(c, 1) + [Exchange(SendAll(c, Fill(2)), 0xff).1, 0];
  }

  /** An identification queues its bytes and leaves everything else as it was. */
  lemma IdCommand(p: Port, words: nat)
    requires Connected(p) && p.arg < 0x1_0000_0000 && (words == 1 || words == 2)
    ensures Execute(p, Command(true, 0x9F, true, 4, words)) == p.(chip := p.chip.(first := 0x9F), rx := IdBytes(words))
  {
    hide SendAll, ArgBytes, Replies, IdBytes;
    Opened(p.chip, 0x9F);
    var c := Recognize(p.chip.(atFirst := false, first := 0x9F), 0x9F);
    DummyIsArg(p.arg);
    AddressedData(c, p.arg);
    ReadId(c.(cur := c.cur.(phase := HandleCommand, got := 4, address := p.arg)), words);
  }

  // ----- getting there

  /** A chip as it comes out of a reset. */
  predicate Fresh(c: Chip) { !c.opi && c.cur == IDLE && ValidSize(|c.mem|) }

  lemma PlainByte(c: Chip, b: byte)
    requires Fresh(c) && (b == 0xab || b == 0x06)
    ensures Transaction(c, [b]) == c.(enable := c.enable || b == 0x06, atFirst := true)
  {
    SendOne(c, b);
  }

  /** A write to configuration register 2 in SPI mode. */
  lemma ConfigWrite(c: Chip, arg: nat, val: byte)
    requires Fresh(c) && c.enable && arg < 0x1_0000_0000
    ensures Transaction(c, [0x72] + ArgBytes(arg) + [val])
         == c.(enable := false, opi := arg == 0 && val % 4 != 0, atFirst := true)
  {
    var c1 := c.(cur := IDLE.(op := WriteRegister, register := ConfigurationRegister2, phase := AddressThenData));
    SendOne(c, 0x72);
    AddressedData(c1, arg);
    var c2 := c1.(cur := c1.cur.(phase := HandleCommand, got := 4, address := arg));
    SendConcat(c, [0x72], ArgBytes(arg));
    SendNext(c, [0x72] + ArgBytes(arg), val);
    hide SendAll, ArgBytes;
  }

  /** The start-up sequence takes a chip from reset to idle in OPI mode, and touches nothing else. */
  lemma SwitchedIsIdle(c: Chip)
    requires Fresh(c)
    ensures Idle(Switched(c)) && Switched(c).mem == c.mem && !Switched(c).enable
  {
    hide Transaction;
    PlainByte(c, 0xab);
    var c1 := Transaction(c, [0xab]);
    PlainByte(c1, 0x06);
    var c2 := Transaction(c1, [0x06]);
    ConfigWrite(c2, 0x300, 0x05);
    assert [0x72] + ArgBytes(0x300) + [0x05] == [0x72, 0x00, 0x00, 0x03, 0x00, 0x05];
    var c3 := c2.(enable := false, opi := false, atFirst := true);
    PlainByte(c3, 0x06);
    var c4 := Transaction(c3, [0x06]);
    ConfigWrite(c4, 0, 0x02);
    assert [0x72] + ArgBytes(0) + [0x02] == [0x72, 0x00, 0x00, 0x00, 0x00, 0x02];
  }

  /** So the first command after a reset finds the controller connected, with the memory as it was. */
  lemma FirstCommand(p: Port, cmd: Command)
    requires !p.opiKnown && Fresh(p.chip) && p.rx == [] && cmd.exec
    ensures Connected(Ready(p)) && Ready(p).chip.mem == p.chip.mem && Ready(p).tx == p.tx && Ready(p).arg == p.arg
    ensures Execute(p, cmd) == Execute(Ready(p), cmd)
  {
    hide Switched, SendAll, Replies;
    SwitchedIsIdle(p.chip);
  }
}
