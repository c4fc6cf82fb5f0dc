/**
The SPI NOR flash chip of the emulated device (emulation/peripherals/MXIC_MX66UM1G45G.cs):
command decoder, write-enable latch, erase and program. Address bytes are taken to be
shifted in most significant first, four of them, as the controller sends them.
*/
module FlashChip {
  import opened Bytes

  datatype Operation = NoOperation | ReadID | Program | Erase | ReadRegister | WriteRegister

  datatype Phase = RecognizeOperation | AddressThenData | AddressOnly | HandleCommand | HandleNoData

  datatype EraseSize = NoSize | Sector | Subsector4K

  datatype Register = NoRegister | Status | ConfigurationRegister2 | SecurityRegister

  /** The operation being decoded. */
  datatype Decoded = Decoded(op: Operation, phase: Phase, size: EraseSize, register: Register,
                             got: nat, address: nat, handled: nat)

  const IDLE := Decoded(NoOperation, RecognizeOperation, NoSize, NoRegister, 0, 0, 0)

  const SEGMENT: nat := 65536
  const SUBSECTOR: nat := 4096

  datatype Chip = Chip(mem: seq<byte>, cur: Decoded, enable: bool, opi: bool, atFirst: bool, first: byte)

  /** Memory sizes are powers of two from 64 KiB to 256 MiB; what matters is that segments tile them. */
  predicate ValidSize(n: nat) { SEGMENT <= n <= 0x1000_0000 && n % SEGMENT == 0 }

  // ----- memory

  function Erased(mem: seq<byte>, from: nat, len: nat): (r: seq<byte>)
    ensures |r| == |mem|
    ensures forall i :: 0 <= i < |mem| ==> r[i] == if from <= i < from + len then 0xff else mem[i]
  {
    seq(|mem|, i requires 0 <= i < |mem| => if from <= i < from + len then 0xff else mem[i])
  }

  function BlockLength(size: EraseSize): nat {
    match size
    case NoSize => 0
    case Sector => SEGMENT
    case Subsector4K => SUBSECTOR
  }

  /** The aligned block around an address lies inside the memory. */
  lemma BlockInside(n: nat, address: nat, size: EraseSize)
    requires ValidSize(n) && address < n && size != NoSize
    ensures address / BlockLength(size) * BlockLength(size) + BlockLength(size) <= n
  {
    var m := n / SEGMENT;
    assert n == m * SEGMENT;
    if size == Sector {
      assert address / SEGMENT < m;
    } else {
      assert address / SUBSECTOR < 16 * m;
    }
  }

  function EraseBlock(mem: seq<byte>, address: nat, size: EraseSize): (r: seq<byte>)
    requires ValidSize(|mem|)
    ensures |r| == |mem|
  {
    if address >= |mem| || size == NoSize then mem
    else Erased(mem, address / BlockLength(size) * BlockLength(size), BlockLength(size))
  }

  /** Writes past the end are dropped. */
  function WriteByte(mem: seq<byte>, position: nat, b: byte): (r: seq<byte>)
    ensures |r| == |mem|
  {
    if position < |mem| then mem[position := b] else mem
  }

  // ----- the decoder

  /** In OPI mode register accesses carry an address as well. */
  function WithAddress(c: Chip, d: Decoded): Chip {
    c.(cur := if c.opi then d.(phase := AddressThenData) else d)
  }

  function Recognize(c: Chip, b: byte): Chip {
    var d := c.cur.(op := NoOperation, phase := HandleCommand);
    match b
    case 0x9F => WithAddress(c, d.(op := ReadID))
    case 0x12 => c.(cur := d.(op := Program, phase := AddressThenData))
    case 0x06 => c.(cur := d, enable := true)
    case 0x04 => c.(cur := d, enable := false)
    case 0xDC => c.(cur := d.(op := Erase, size := Sector, phase := AddressOnly))
    case 0x21 => c.(cur := d.(op := Erase, size := Subsector4K, phase := AddressOnly))
    case 0x05 => WithAddress(c, d.(op := ReadRegister, register := Status))
    case 0x2B => WithAddress(c, d.(op := ReadRegister, register := SecurityRegister))
    case 0x01 => WithAddress(c, d.(op := WriteRegister, register := Status))
    case 0x2F => WithAddress(c, d.(op := WriteRegister, register := SecurityRegister))
    case 0x71 => c.(cur := d.(op := ReadRegister, register := ConfigurationRegister2, phase := AddressThenData))
    case 0x72 => c.(cur := d.(op := WriteRegister, register := ConfigurationRegister2, phase := AddressThenData))
    case _ => c.(cur := d)
  }

  function Accumulate(d: Decoded, b: byte, next: Phase): Decoded {
    d.(address := d.address * 256 + b, got := d.got + 1, phase := if d.got + 1 == 4 then next else d.phase)
  }

  const DEVICE_ID: seq<byte> := [0xC2, 0x80, 0x3B, 0]

  function ReadReply(c: Chip): byte {
    match c.cur.register
    case Status => if c.enable then 2 else 0
    case ConfigurationRegister2 => if c.cur.address == 0 && c.opi then 2 else 0
    case _ => 0
  }

  function Handle(c: Chip, b: byte): (Chip, byte) {
    var next := c.(cur := c.cur.(handled := c.cur.handled + 1));
    match c.cur.op
    case ReadID => (next, if c.cur.handled < 4 then DEVICE_ID[c.cur.handled] else 0)
    case Program =>
      if c.enable then (next.(mem := WriteByte(c.mem, c.cur.address + c.cur.handled, b)), b) else (next, 0)
    case ReadRegister => (next, ReadReply(c))
    case WriteRegister =>
      if c.enable && c.cur.register == ConfigurationRegister2 && c.cur.address == 0
      then (next.(opi := b % 4 != 0), 0) else (next, 0)
    case _ => (next, 0)
  }

  function NoData(c: Chip): Chip
    requires ValidSize(|c.mem|)
  {
    if c.cur.op == Erase && c.enable then c.(mem := EraseBlock(c.mem, c.cur.address, c.cur.size)) else c
  }

  /** One byte in, one byte out. */
  function Exchange(c: Chip, b: byte): (r: (Chip, byte))
    requires ValidSize(|c.mem|)
    ensures |r.0.mem| == |c.mem|
  {
    if c.opi && c.atFirst then (c.(atFirst := false, first := b), 0xff)
    else
      match c.cur.phase
      case RecognizeOperation => (Recognize(c, if c.opi then c.first else b), 0)
      case AddressThenData => (c.(cur := Accumulate(c.cur, b, HandleCommand)), 0)
      case AddressOnly =>
        var d := c.(cur := Accumulate(c.cur, b, HandleNoData));
        (if d.cur.phase == HandleNoData then NoData(d) else d, 0)
      case HandleCommand => Handle(c, b)
      case HandleNoData => (NoData(c), 0)
  }

  predicate ClearsLatch(op: Operation) { op == Program || op == Erase || op == WriteRegister }

  function Finish(c: Chip): Chip {
    c.(enable := c.enable && !ClearsLatch(c.cur.op), cur := IDLE, atFirst := true)
  }

  function Reset(c: Chip): Chip { c.(opi := false, enable := false, cur := IDLE, atFirst := true) }

  // ----- the chip as it runs

  class Flash {
    const mem: array<byte>
    var cur: Decoded
    var enable: bool
    var opiMode: bool
    var isFirstOpiByte: bool
    var firstOpiByte: byte

    ghost function View(): Chip
      reads this, mem
    {
      Chip(mem[..], cur, enable, opiMode, isFirstOpiByte, firstOpiByte)
    }

    ghost predicate Valid()
      reads this
    {
      ValidSize(mem.Length)
    }

    constructor (contents: array<byte>)
      requires ValidSize(contents.Length)
      ensures Valid() && mem == contents
      ensures View() == Chip(contents[..], IDLE, false, false, false, 0)
    {
      mem := contents;
      cur, enable, opiMode, isFirstOpiByte, firstOpiByte := IDLE, false, false, false, 0;
    }

    /** Fill an aligned block with 0xff, in place. */
    method EraseAt(size: EraseSize)
      requires Valid() && size != NoSize && cur.address < mem.Length
      modifies mem
      ensures mem[..] == EraseBlock(old(mem[..]), cur.address, size)
    {
      var len := BlockLength(size);
      var position := cur.address / len * len;
      BlockInside(mem.Length, cur.address, size);
      for i := 0 to len
        invariant forall k :: 0 <= k < mem.Length ==>
          mem[k] == if position <= k < position + i then 0xff else old(mem[k])
      {
        mem[position + i] := 0xff;
      }
    }

    method HandleNoDataCommand()
      requires Valid()
      modifies mem
      ensures View() == NoData(old(View()))
    {
      hide EraseBlock;
      if cur.op == Erase && enable {
        if cur.address >= mem.Length || cur.size == NoSize {
          EraseNothing(mem[..], cur.address, cur.size);
        } else {
          EraseAt(cur.size);
        }
      }
    }

    method WriteToMemory(val: byte)
      modifies mem
      ensures mem[..] == WriteByte(old(mem[..]), cur.address + cur.handled, val)
    {
      if cur.address + cur.handled >= mem.Length { return; }
      mem[cur.address + cur.handled] := val;
    }

    method HandleData(data: byte) returns (result: byte)
      requires Valid()
      modifies this, mem
      ensures (View(), result) == Handle(old(View()), data)
    {
      hide WriteByte;
      result := 0;
      match cur.op {
        case ReadID =>
          if cur.handled < 4 { result := DEVICE_ID[cur.handled]; }
        case Program =>
          if enable {
            WriteToMemory(data);
            result := data;
          }
        case ReadRegister =>
          result := match cur.register
                    case Status => (if enable then 2 else 0)
                    case ConfigurationRegister2 => (if cur.address == 0 && opiMode then 2 else 0)
                    case _ => 0;
        case WriteRegister =>
          if enable && cur.register == ConfigurationRegister2 && cur.address == 0 {
            opiMode := data % 4 != 0;
          }
        case _ =>
      }
      cur := cur.(handled := cur.handled + 1);
    }

    method RecognizeCommand(data: byte)
      modifies this
      ensures View() == Recognize(old(View()), data)
    {
      cur := cur.(op := NoOperation, phase := HandleCommand);
      match data {
        case 0x9F => cur := cur.(op := ReadID); AddressInOpi();
        case 0x12 => cur := cur.(op := Program, phase := AddressThenData);
        case 0x06 => enable := true;
        case 0x04 => enable := false;
        case 0xDC => cur := cur.(op := Erase, size := Sector, phase := AddressOnly);
        case 0x21 => cur := cur.(op := Erase, size := Subsector4K, phase := AddressOnly);
        case 0x05 => cur := cur.(op := ReadRegister, register := Status); AddressInOpi();
        case 0x2B => cur := cur.(op := ReadRegister, register := SecurityRegister); AddressInOpi();
        case 0x01 => cur := cur.(op := WriteRegister, register := Status); AddressInOpi();
        case 0x2F => cur := cur.(op := WriteRegister, register := SecurityRegister); AddressInOpi();
        case 0x71 => cur := cur.(op := ReadRegister, register := ConfigurationRegister2, phase := AddressThenData);
        case 0x72 => cur := cur.(op := WriteRegister, register := ConfigurationRegister2, phase := AddressThenData);
        case _ =>
      }
    }

    method AddressInOpi()
      modifies this`cur
      ensures cur == if opiMode then old(cur).(phase := AddressThenData) else old(cur)
    {
      if opiMode { cur := cur.(phase := AddressThenData); }
    }

    method Transmit(data: byte) returns (reply: byte)
      requires Valid()
      modifies this, mem
      ensures (View(), reply) == Exchange(old(View()), data)
    {
      hide Recognize, Handle, NoData;
      var b := data;
      if opiMode {
        if isFirstOpiByte {
          isFirstOpiByte, firstOpiByte := false, data;
          return 0xff;
        } else if cur.phase == RecognizeOperation {
          b := firstOpiByte;
        }
      }
      match cur.phase {
        case RecognizeOperation =>
          RecognizeCommand(b);
          return 0;
        case AddressThenData =>
          cur := Accumulate(cur, b, HandleCommand);
        case AddressOnly =>
          cur := Accumulate(cur, b, HandleNoData);
        case HandleCommand =>
          reply := HandleData(b);
          return;
        case HandleNoData =>
      }
      if cur.phase == HandleNoData {
        HandleNoDataCommand();
      }
      return 0;
    }

    method FinishTransmission()
      modifies this
      ensures View() == Finish(old(View()))
    {
      if cur.op == Program || cur.op == Erase || cur.op == WriteRegister { enable := false; }
      cur := IDLE;
      isFirstOpiByte := true;
    }

    method ResetDevice()
      modifies this
      ensures View() == Reset(old(View()))
    {
      opiMode, isFirstOpiByte, enable, cur := false, true, false, IDLE;
      FinishTransmission();
    }
  }

  lemma EraseNothing(mem: seq<byte>, address: nat, size: EraseSize)
    requires ValidSize(|mem|) && (address >= |mem| || size == NoSize)
    ensures EraseBlock(mem, address, size) == mem
  {}
}
