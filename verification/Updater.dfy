/**
The host side of flash updates (tools/usb_update.py, class PrecursorUsb), running against
the controller and the chip. A burst write is taken to put its bytes into the controller's
transmit queue, two at a time and a lone last byte by itself; a burst read is taken to read the
flash as it is mapped into memory, and behind it whatever the bus yields there.
*/
module Updater {
  import opened Bits
  import opened Bytes
  import opened FlashChip
  import opened Spinor
  import opened FlashCommands

  // ----- the command word

  function CommandValue(exec: nat, lockReads: nat, code: nat, dummy: nat, words: nat, hasArg: nat): nat {
    Or(Or(Or(Or(Or(Shl(And(exec, 1), 1),
                   Shl(And(lockReads, 1), 24)),
                Shl(And(code, 0xff), 2)),
             Shl(And(dummy, 0x1f), 11)),
          Shl(And(words, 0xff), 16)),
       Shl(And(hasArg, 1), 10))
  }

  /** The order in which disjoint fields are combined does not matter. */
  lemma Reorder(e: nat, l: nat, c: nat, d: nat, w: nat, a: nat)
    ensures Or(Or(Or(Or(Or(e, l), c), d), w), a) == Or(l, Or(w, Or(d, Or(a, Or(c, e)))))
  {
    var g, t := Or(Or(Or(Or(Or(e, l), c), d), w), a), Or(l, Or(w, Or(d, Or(a, Or(c, e)))));
    forall i: nat ensures BitSet(g, i) == BitSet(t, i) {
      hide Or, BitSet;
      BitSetOr(e, l, i);
      BitSetOr(Or(e, l), c, i);
      BitSetOr(Or(Or(e, l), c), d, i);
      BitSetOr(Or(Or(Or(e, l), c), d), w, i);
      BitSetOr(Or(Or(Or(Or(e, l), c), d), w), a, i);
      BitSetOr(c, e, i);
      BitSetOr(a, Or(c, e), i);
      BitSetOr(d, Or(a, Or(c, e)), i);
      BitSetOr(w, Or(d, Or(a, Or(c, e))), i);
      BitSetOr(l, Or(w, Or(d, Or(a, Or(c, e)))), i);
    }
    EqualBits(g, t);
  }

  lemma Masked(x: nat, k: nat, p: nat)
    requires p == Pow2(k)
    ensures And(x, p - 1) == x % p
  {
    AndOnes(x, k);
    ShrIsDiv(x, k);
  }

  /** A field of value `a` at bit `k`, above everything in `b`. */
  lemma Placed(a: nat, k: nat, p: nat, b: nat)
    requires p == Pow2(k) && b < p
    ensures Or(Shl(a, k), b) == a * p + b
  {
    DisjointSum(a, b, k);
    ShlIsMul(a, k);
  }

  lemma Powers()
    ensures Pow2(1) == 2 && Pow2(2) == 4 && Pow2(5) == 32 && Pow2(8) == 256 && Pow2(10) == 1024
    ensures Pow2(11) == 2048 && Pow2(16) == 65536 && Pow2(24) == 0x100_0000
  {
    Pow2Plus8(0);
    Pow2Plus8(2);
    Pow2Plus8(8);
    Pow2Plus8(16);
  }

  lemma CommandSum(exec: nat, lockReads: nat, code: nat, dummy: nat, words: nat, hasArg: nat)
    ensures CommandValue(exec, lockReads, code, dummy, words, hasArg)
         == lockReads % 2 * 0x100_0000 + (words % 256 * 65536 + (dummy % 32 * 2048 + (hasArg % 2 * 1024
            + (code % 256 * 4 + exec % 2 * 2))))
  {
    Powers();
    hide Pow2, Or, Shl, And;
    Masked(exec, 1, 2);
    Masked(lockReads, 1, 2);
    Masked(code, 8, 256);
    Masked(dummy, 5, 32);
    Masked(words, 8, 256);
    Masked(hasArg, 1, 2);
    Reorder(Shl(exec % 2, 1), Shl(lockReads % 2, 24), Shl(code % 256, 2),
            Shl(dummy % 32, 11), Shl(words % 256, 16), Shl(hasArg % 2, 10));
    ShlIsMul(exec % 2, 1);
    Placed(code % 256, 2, 4, exec % 2 * 2);
    Placed(hasArg % 2, 10, 1024, code % 256 * 4 + exec % 2 * 2);
    var x := hasArg % 2 * 1024 + (code % 256 * 4 + exec % 2 * 2);
    Placed(dummy % 32, 11, 2048, x);
    Placed(words % 256, 16, 65536, dummy % 32 * 2048 + x);
    Placed(lockReads % 2, 24, 0x100_0000, words % 256 * 65536 + (dummy % 32 * 2048 + x));
  }

  /** The controller reads back the fields that the host put in. */
  lemma CommandRoundTrip(exec: nat, lockReads: nat, code: nat, dummy: nat, words: nat, hasArg: nat)
    ensures Decode(CommandValue(exec, lockReads, code, dummy, words, hasArg))
         == Command(exec % 2 == 1, code % 256, hasArg % 2 == 1, dummy % 32, words % 256)
  {
    CommandSum(exec, lockReads, code, dummy, words, hasArg);
    hide CommandValue;
    FieldsOf(lockReads % 2, words % 256, dummy % 32, hasArg % 2, code % 256, exec % 2);
  }

  lemma FieldsOf(l: nat, w: nat, d: nat, a: nat, c: nat, e: nat)
    requires l < 2 && w < 256 && d < 32 && a < 2 && c < 256 && e < 2
    ensures Decode(l * 0x100_0000 + (w * 65536 + (d * 2048 + (a * 1024 + (c * 4 + e * 2)))))
         == Command(e == 1, c, a == 1, d, w)
  {
    var v := l * 0x100_0000 + (w * 65536 + (d * 2048 + (a * 1024 + (c * 4 + e * 2))));
    FieldAt(v, l * 0x40_0000 + w * 16384 + d * 512 + a * 256 + c, e, 0, 2, 2);
    FieldAt(v, l * 16384 + w * 64 + d * 2 + a, c, e * 2, 4, 256);
    FieldAt(v, l * 8192 + w * 32 + d, a, c * 4 + e * 2, 1024, 2);
    FieldAt(v, l * 256 + w, d, a * 1024 + c * 4 + e * 2, 2048, 32);
    FieldAt(v, l, w, d * 2048 + a * 1024 + c * 4 + e * 2, 65536, 256);
  }

  lemma FieldAt(v: nat, above: nat, f: nat, below: nat, d: nat, m: nat)
    requires f < m && below < d && v == (above * m + f) * d + below
    ensures v / d % m == f
  {
    DivModUnique(v, above * m + f, below, d);
    DivModUnique(above * m + f, above, f, m);
  }

  // ----- what an update leaves behind

  function RoundUp(n: nat, unit: nat): nat
    requires unit > 0
  {
    (n + unit - 1) / unit * unit
  }

  /** Padded with 0xff to whole 32-bit words. */
  function Padded(data: seq<byte>): (r: seq<byte>)
    ensures |r| % 4 == 0 && data <= r && |r| < |data| + 4
    ensures forall i :: |data| <= i < |r| ==> r[i] == 0xff
  {
    data + Fill(if |data| % 4 == 0 then 0 else 4 - |data| % 4)
  }

  /** Whole 4 KiB subsectors from the one that holds `addr`, as many as the length calls for. */
  function ErasedRange(mem: seq<byte>, addr: nat, length: nat): (r: seq<byte>)
    ensures |r| == |mem|
  {
    Erased(mem, addr / SUBSECTOR * SUBSECTOR, RoundUp(length, SUBSECTOR))
  }

  function FlashImage(mem: seq<byte>, addr: nat, data: seq<byte>): (r: seq<byte>)
    ensures |r| == |mem|
  {
    Overwritten(ErasedRange(mem, addr, |data|), addr, Padded(data))
  }

  /** What goes out first when `data` is queued behind `tx`: as many bytes as `data` has. */
  function Sent(tx: seq<byte>, data: seq<byte>): (r: seq<byte>)
    ensures |r| == |data|
  {
    (tx + data)[..|data|]
  }

  /** The same with bytes left over in the transmit queue, which go into the flash first. */
  function Flashed(mem: seq<byte>, addr: nat, data: seq<byte>, tx: seq<byte>): (r: seq<byte>)
    ensures |r| == |mem|
  {
    Overwritten(ErasedRange(mem, addr, |data|), addr, Sent(tx, Padded(data)))
  }

  lemma EmptyQueue(mem: seq<byte>, addr: nat, data: seq<byte>)
    ensures Flashed(mem, addr, data, []) == FlashImage(mem, addr, data)
  {
    assert Sent([], Padded(data)) == Padded(data);
  }

  /** At a subsector boundary: the data, then 0xff to the end of the last subsector, and nothing else. */
  lemma FlashedByte(mem: seq<byte>, addr: nat, data: seq<byte>, i: nat)
    requires addr % SUBSECTOR == 0 && i < |mem|
    ensures FlashImage(mem, addr, data)[i]
         == if addr <= i < addr + |data| then data[i - addr]
            else if addr <= i < addr + RoundUp(|data|, SUBSECTOR) then 0xff
            else mem[i]
  {
    hide Fill;
    assert |data| <= RoundUp(|data|, SUBSECTOR) && addr / SUBSECTOR * SUBSECTOR == addr;
    PaddingFits(|data|);
  }

  lemma PaddingFits(n: nat)
    ensures n + (if n % 4 == 0 then 0 else 4 - n % 4) <= RoundUp(n, SUBSECTOR)
  {
    var q, r := n / SUBSECTOR, n % SUBSECTOR;
    assert n == q * SUBSECTOR + r;
  }

  /** The byte in front of the data is left alone at a subsector boundary and erased elsewhere. */
  lemma NeighbourKept(mem: seq<byte>, addr: nat, data: seq<byte>)
    requires 0 < addr <= |mem| && data != []
    ensures FlashImage(mem, addr, data)[addr - 1] == if addr % SUBSECTOR == 0 then mem[addr - 1] else 0xff
  {
    assert RoundUp(|data|, SUBSECTOR) >= SUBSECTOR;
    var q, r := addr / SUBSECTOR, addr % SUBSECTOR;
    assert addr == q * SUBSECTOR + r;
  }

  /** One more block at the end of what is erased already, or nothing behind the end of memory. */
  lemma EraseMore(mem: seq<byte>, addr: nat, erased: nat, size: EraseSize)
    requires ValidSize(|mem|) && erased % SUBSECTOR == 0 && size != NoSize
    requires size == Sector ==> addr % SEGMENT == 0 && erased % SEGMENT == 0
    ensures EraseBlock(Erased(mem, addr / SUBSECTOR * SUBSECTOR, erased), addr + erased, size)
         == Erased(mem, addr / SUBSECTOR * SUBSECTOR, erased + BlockLength(size))
  {
    FloorAdd(addr, erased, BlockLength(size));
    FloorAdd(0, addr, BlockLength(size));
    SegmentsAreSubsectors(addr);
    FloorAdd(addr, erased, SUBSECTOR);
    if addr + erased >= |mem| { BehindEnd(|mem|, addr + erased); }
  }

  lemma BehindEnd(n: nat, a: nat)
    requires ValidSize(n) && a >= n
    ensures a / SUBSECTOR * SUBSECTOR >= n
  {
    SegmentsAreSubsectors(n);
    assert a / SUBSECTOR >= n / SUBSECTOR;
  }

  lemma FloorAdd(a: nat, e: nat, d: nat)
    requires d > 0
    ensures e % d == 0 ==> (a + e) / d * d == a / d * d + e
  {
    if e % d == 0 {
      var p, q := a / d, e / d;
      assert a == p * d + a % d && e == q * d;
      DivModUnique(a + e, p + q, a % d, d);
    }
  }

  lemma SegmentsAreSubsectors(n: nat)
    ensures n % SEGMENT == 0 ==> n / SUBSECTOR * SUBSECTOR == n
  {
    if n % SEGMENT == 0 {
      var q := n / SEGMENT;
      assert n == q * SEGMENT;
      DivModUnique(n, 16 * q, 0, SUBSECTOR);
    }
  }

  lemma OverwriteMore(mem: seq<byte>, at: nat, a: seq<byte>, b: seq<byte>)
    ensures Overwritten(Overwritten(mem, at, a), at + |a|, b) == Overwritten(mem, at, a + b)
  {}

  // ----- the identification

  /** The word that the first identification read yields is never the one that the tool waits for. */
  lemma IdNeverMatches(p: Port)
    requires Connected(p) && p.arg < 0x1_0000_0000
    ensures FromLittle(Execute(p, Command(true, 0x9F, true, 4, 1)).rx) == 0xC2 != HOST_ID.0
  {
    hide Execute;
    IdCommand(p, 1);
    LittlePair(0xC2, 0);
  }

  lemma LittlePair(a: byte, b: byte)
    ensures FromLittle([a, b]) == a + 256 * b
  {
    assert [a, b][1..] == [b] && [b][1..] == [];
    assert FromLittle([]) == 0 && FromLittle([b]) == b;
  }

  /** The identification words that the host insists on, and those that it gets from the emulated chip. */
  const HOST_ID: (nat, nat) := (0x8080_c2c2, 0x3b3b_8080)
  const CHIP_ID: (nat, nat) := (0xC2, 0x3B_00C2)

  lemma IdWords()
    ensures FromLittle(IdBytes(1)) == CHIP_ID.0 && FromLittle(IdBytes(2)) == CHIP_ID.1
  {
    LittlePair(0xC2, 0);
    LittlePair(0x3B, 0);
    assert [0xC2, 0, 0x3B, 0][1..] == [0, 0x3B, 0] && [0, 0x3B, 0][1..] == [0x3B, 0];
    assert FromLittle([0, 0x3B, 0]) == 256 * FromLittle([0x3B, 0]);
  }

  /** Connected, or fresh from a reset. */
  predicate Usable(p: Port) { Connected(p) || (!p.opiKnown && Fresh(p.chip) && p.rx == []) }

  /** A reset with nothing left to read leaves a usable system. */
  lemma UsableAfterReset(p: Port)
    requires ValidSize(|p.chip.mem|) && p.rx == []
    ensures Usable(p.(chip := FlashChip.Reset(p.chip), arg := 0, opiKnown := false))
  {}

  /** Whichever it is, the first command finds a connected controller. */
  lemma UsableReady(p: Port, cmd: Command)
    requires Usable(p) && cmd.exec
    ensures Connected(Ready(p)) && Ready(p).chip.mem == p.chip.mem && Ready(p).tx == p.tx && Ready(p).arg == p.arg
    ensures Execute(p, cmd) == Execute(Ready(p), cmd)
  {
    if !p.opiKnown { FirstCommand(p, cmd); }
  }

  // ----- the readback

  /** What the bus yields at offset `i` from the start of the flash. */
  function Bus(mem: seq<byte>, beyond: nat -> byte, i: nat): byte { if i < |mem| then mem[i] else beyond(i) }

  function BusSlice(mem: seq<byte>, beyond: nat -> byte, addr: nat, len: nat): (r: seq<byte>)
    ensures |r| == len && forall i :: 0 <= i < len ==> r[i] == Bus(mem, beyond, addr + i)
  {
    if len == 0 then [] else BusSlice(mem, beyond, addr, len - 1) + [Bus(mem, beyond, addr + len - 1)]
  }

  lemma BusNext(mem: seq<byte>, beyond: nat -> byte, addr: nat, len: nat, more: nat)
    ensures BusSlice(mem, beyond, addr, len + more)
         == BusSlice(mem, beyond, addr, len) + BusSlice(mem, beyond, addr + len, more)
  {
    hide Bus;
  }

  function Differences(a: seq<byte>, b: seq<byte>): nat
    requires |a| == |b|
  {
    if a == [] then 0
    else Differences(a[..|a| - 1], b[..|b| - 1]) + (if a[|a| - 1] != b[|b| - 1] then 1 else 0)
  }

  /** The number of positions at which the two differ. */
  lemma {:induction false} DifferencesAre(a: seq<byte>, b: seq<byte>)
    requires |a| == |b|
    ensures Differences(a, b) == |set k | 0 <= k < |a| && a[k] != b[k]|
  {
    var here := set k | 0 <= k < |a| && a[k] != b[k];
    if a == [] {
      assert here == {};
    } else {
      var n := |a| - 1;
      DifferencesAre(a[..n], b[..n]);
      var before := set k | 0 <= k < |a[..n]| && a[..n][k] != b[..n][k];
      assert here == if a[n] != b[n] then before + {n} else before;
    }
  }

  lemma {:induction false} DifferencesNone(a: seq<byte>, b: seq<byte>)
    requires |a| == |b|
    ensures Differences(a, b) == 0 <==> a == b
  {
    if a != [] {
      DifferencesNone(a[..|a| - 1], b[..|b| - 1]);
      assert a == a[..|a| - 1] + [a[|a| - 1]] && b == b[..|b| - 1] + [b[|b| - 1]];
    }
  }

  /** Every byte of the padded data is what went out in its place, or what the bus yields behind the flash. */
  ghost predicate ReadsRight(size: nat, addr: nat, data: seq<byte>, tx: seq<byte>, beyond: nat -> byte) {
    var padded := Padded(data);
    forall k :: 0 <= k < |padded| ==> padded[k] == if addr + k < size then Sent(tx, padded)[k] else beyond(addr + k)
  }

  /** That is exactly when the readback after an update is as it should be. */
  lemma ReadbackIff(mem: seq<byte>, addr: nat, data: seq<byte>, tx: seq<byte>, beyond: nat -> byte)
    ensures BusSlice(Flashed(mem, addr, data, tx), beyond, addr, |Padded(data)|) == Padded(data)
       <==> ReadsRight(|mem|, addr, data, tx, beyond)
  {
    var image, padded := Flashed(mem, addr, data, tx), Padded(data);
    var rbk := BusSlice(image, beyond, addr, |padded|);
    ImageHoldsData(mem, addr, data, tx);
    hide Flashed, Padded, Sent;
    forall k | 0 <= k < |padded|
      ensures rbk[k] == if addr + k < |mem| then Sent(tx, padded)[k] else beyond(addr + k)
    {
      assert rbk[k] == Bus(image, beyond, addr + k);
    }
  }

  lemma ImageHoldsData(mem: seq<byte>, addr: nat, data: seq<byte>, tx: seq<byte>)
    ensures var sent := Sent(tx, Padded(data));
            forall i :: addr <= i < addr + |sent| && i < |mem| ==> Flashed(mem, addr, data, tx)[i] == sent[i - addr]
  {
    hide Padded, Sent;
  }

  /** The words of padding that stick out of the flash read as erased. */
  ghost predicate PaddingReadsErased(size: nat, addr: nat, data: seq<byte>, beyond: nat -> byte) {
    forall i :: size <= i < addr + |Padded(data)| ==> beyond(i) == 0xff
  }

  /** With an empty queue and the data in range, only padding that sticks out of the flash matters. */
  lemma ReadsRightIff(size: nat, addr: nat, data: seq<byte>, beyond: nat -> byte)
    requires addr + |data| <= size
    ensures ReadsRight(size, addr, data, [], beyond) <==> PaddingReadsErased(size, addr, data, beyond)
  {
    var padded := Padded(data);
    assert Sent([], padded) == padded;
    hide Padded, Sent;
    if ReadsRight(size, addr, data, [], beyond) {
      forall i | size <= i < addr + |padded| ensures beyond(i) == 0xff {
        assert padded[i - addr] == 0xff;
      }
    }
    if PaddingReadsErased(size, addr, data, beyond) {
      forall k | 0 <= k < |padded|
        ensures padded[k] == if addr + k < size then Sent([], padded)[k] else beyond(addr + k)
      {
        if addr + k >= size { assert beyond(addr + k) == 0xff; }
      }
    }
  }

  /** Padding can stick out: one byte at the last address of a flash. */
  lemma PaddingSticksOut(size: nat, b: byte, beyond: nat -> byte)
    requires size > 0 && beyond(size) != 0xff
    ensures !ReadsRight(size, size - 1, [b], [], beyond)
  {
    assert |Padded([b])| == 4;
    ReadsRightIff(size, size - 1, [b], beyond);
  }

  /** And one byte left over in the queue shifts everything. */
  lemma LeftoverShifts(size: nat, addr: nat, data: seq<byte>, t: byte, beyond: nat -> byte)
    requires addr < size && data != [] && t != data[0]
    ensures !ReadsRight(size, addr, data, [t], beyond)
  {
    var padded := Padded(data);
    assert padded[0] == data[0] && Sent([t], padded)[0] == t;
  }

  /** Padding never sticks out of a flash of whole words at a whole word. */
  lemma PaddingInside(size: nat, addr: nat, data: seq<byte>)
    requires size % 4 == 0 && addr % 4 == 0 && addr + |data| <= size
    ensures addr + |Padded(data)| <= size
  {
    var n := |data|;
    var q, r := n / 4, n % 4;
    assert n == 4 * q + r;
    var s, a := size / 4, addr / 4;
    assert size == 4 * s && addr == 4 * a;
  }

  // ----- the host

  datatype Outcome = OutOfBounds | IdMismatch | Written | ReadbackFailed(errors: nat)

  class PrecursorUsb {
    const spinor: BetrustedSpinor
    /** Size and address of every erase command issued so far. */
    ghost var erases: seq<(nat, nat)>

    constructor (spinor: BetrustedSpinor)
      ensures this.spinor == spinor && erases == []
    {
      this.spinor := spinor;
      erases := [];
    }

    ghost predicate Online()
      reads spinor, spinor.chip, spinor.chip.mem
    {
      Connected(spinor.View())
    }

    ghost function Mem(): seq<byte>
      reads spinor.chip.mem
    {
      spinor.chip.mem[..]
    }

    ghost predicate Attached()
      reads spinor, spinor.chip, spinor.chip.mem
    {
      Usable(spinor.View())
    }

    /** Poke the argument register and then the command register. */
    method Issue(arg: nat, lockReads: nat, code: nat, dummy: nat, words: nat, hasArg: nat)
      requires Attached()
      modifies spinor, spinor.chip, spinor.chip.mem
      ensures spinor.View()
           == Execute(old(spinor.View()).(arg := arg % 0x1_0000_0000),
                      Command(true, code % 256, hasArg % 2 == 1, dummy % 32, words % 256))
    {
      hide Execute, Decode, CommandValue;
      spinor.WriteArg(arg);
      CommandRoundTrip(1, lockReads, code, dummy, words, hasArg);
      spinor.WriteCommand(CommandValue(1, lockReads, code, dummy, words, hasArg));
    }

    method FlashRdsr(lockReads: nat) returns (status: nat)
      requires Online()
      modifies spinor, spinor.chip, spinor.chip.mem
      ensures Online() && Mem() == old(Mem()) && spinor.txQueue == old(spinor.txQueue)
      ensures spinor.chip.enable == old(spinor.chip.enable) && status == if spinor.chip.enable then 2 else 0
    {
      hide Execute;
      ReadCommand(spinor.View().(arg := 0), 0x05);
      Issue(0, lockReads, 0x05, 4, 1, 1);
      LittlePair(spinor.rxQueue[0], 0);
      status := spinor.HandleRxFifoRead();
    }

    method FlashRdscur() returns (status: nat)
      requires Online()
      modifies spinor, spinor.chip, spinor.chip.mem
      ensures Online() && Mem() == old(Mem()) && spinor.txQueue == old(spinor.txQueue)
      ensures spinor.chip.enable == old(spinor.chip.enable) && status == 0
    {
      hide Execute;
      ReadCommand(spinor.View().(arg := 0), 0x2B);
      Issue(0, 1, 0x2B, 4, 1, 1);
      LittlePair(0, 0);
      status := spinor.HandleRxFifoRead();
    }

    /** Works from a reset on, and leaves the system online. */
    method FlashRdid(offset: nat) returns (code: nat)
      requires Attached() && (offset == 1 || offset == 2)
      modifies spinor, spinor.chip, spinor.chip.mem
      ensures Online() && Mem() == old(Mem()) && spinor.txQueue == old(spinor.txQueue)
      ensures code == if offset == 1 then CHIP_ID.0 else CHIP_ID.1
    {
      hide Execute, Connected, Usable, IdBytes, Ready, FromLittle;
      ghost var p := spinor.View().(arg := 0);
      ghost var cmd := Command(true, 0x9F, true, 4, offset);
      WithArg(spinor.View(), 0);
      SizeFits(p);
      UsableReady(p, cmd);
      IdCommand(Ready(p), offset);
      IdWords();
      IdFits(offset);
      Issue(0, 0, 0x9F, 4, offset, 1);
      code := spinor.HandleRxFifoRead();
      StillConnected(Ready(p), spinor.View());
    }

    method FlashWren()
      requires Online()
      modifies spinor, spinor.chip, spinor.chip.mem
      ensures Online() && Mem() == old(Mem()) && spinor.txQueue == old(spinor.txQueue)
      ensures spinor.chip.enable
    {
      hide Execute;
      WriteEnable(spinor.View().(arg := 0));
      Issue(0, 1, 0x06, 0, 0, 0);
    }

    method FlashWrdi()
      requires Online()
      modifies spinor, spinor.chip, spinor.chip.mem
      ensures Online() && Mem() == old(Mem()) && spinor.txQueue == old(spinor.txQueue)
      ensures !spinor.chip.enable
    {
      hide Execute;
      WriteDisable(spinor.View().(arg := 0));
      Issue(0, 1, 0x04, 0, 0, 0);
    }

    /** Erase 4 KiB. */
    method FlashSe4b(address: nat)
      requires Online() && address < 0x1_0000_0000
      modifies this`erases, spinor, spinor.chip, spinor.chip.mem
      ensures Online() && spinor.txQueue == old(spinor.txQueue) && erases == old(erases) + [(SUBSECTOR, address)]
      ensures Mem() == if old(spinor.chip.enable) then EraseBlock(old(Mem()), address, Subsector4K) else old(Mem())
    {
      hide Execute, EraseBlock;
      EraseCommand(spinor.View().(arg := address), 0x21, Subsector4K);
      Issue(address, 1, 0x21, 0, 0, 1);
      erases := erases + [(SUBSECTOR, address)];
    }

    /** Erase 64 KiB. */
    method FlashBe4b(address: nat)
      requires Online() && address < 0x1_0000_0000
      modifies this`erases, spinor, spinor.chip, spinor.chip.mem
      ensures Online() && spinor.txQueue == old(spinor.txQueue) && erases == old(erases) + [(SEGMENT, address)]
      ensures Mem() == if old(spinor.chip.enable) then EraseBlock(old(Mem()), address, Sector) else old(Mem())
    {
      hide Execute, EraseBlock;
      EraseCommand(spinor.View().(arg := address), 0xDC, Sector);
      Issue(address, 1, 0xDC, 0, 0, 1);
      erases := erases + [(SEGMENT, address)];
    }

    /** Program from the transmit queue. */
    method FlashPp4b(address: nat, dataBytes: nat)
      requires Online() && address < 0x1_0000_0000
      modifies spinor, spinor.chip, spinor.chip.mem
      ensures Online() && spinor.txQueue == Left(old(spinor.txQueue), 2 * (dataBytes / 2 % 256))
      ensures Mem() == ProgramResult(old(spinor.chip.View()), address,
                                     Taken(old(spinor.txQueue), 2 * (dataBytes / 2 % 256)))
    {
      hide Execute, ProgramResult;
      ProgramCommand(spinor.View().(arg := address), dataBytes / 2 % 256);
      ProgramSees(spinor.chip.View(), address, Taken(spinor.txQueue, 2 * (dataBytes / 2 % 256)));
      Issue(address, 1, 0x12, 0, dataBytes / 2, 1);
    }

    /** One packet of a burst write. */
    method WritePacket(wdata: seq<byte>)
      modifies spinor`txQueue
      ensures spinor.txQueue == old(spinor.txQueue) + wdata && Online() == old(Online())
    {
      for i := 0 to |wdata| / 2
        invariant spinor.txQueue == old(spinor.txQueue) + wdata[..2 * i]
      {
        spinor.HandleTxFifoWrite(wdata[2 * i] as int + 256 * wdata[2 * i + 1] as int);
        assert wdata[..2 * i + 2] == wdata[..2 * i] + [wdata[2 * i], wdata[2 * i + 1]];
      }
      if |wdata| % 2 == 1 {
        assert wdata == wdata[..2 * (|wdata| / 2)] + [wdata[|wdata| - 1]];
        spinor.txQueue := spinor.txQueue + [wdata[|wdata| - 1]];
      } else {
        assert wdata[..2 * (|wdata| / 2)] == wdata;
      }
    }

    method BurstWrite(data: seq<byte>)
      modifies spinor`txQueue
      ensures spinor.txQueue == old(spinor.txQueue) + data && Online() == old(Online())
    {
      hide Connected, Packets;
      PacketsAll(data);
      if |data| == 0 { return; }
      var packetCount := |data| / PACKET;
      if |data| % PACKET != 0 { packetCount := packetCount + 1; }
      for n := 0 to packetCount
        invariant spinor.txQueue == old(spinor.txQueue) + Packets(data, n) && Online() == old(Online())
      {
        var bufsize := if n == packetCount - 1 && |data| % PACKET != 0 then |data| % PACKET else PACKET;
        PacketSize(|data|, n, packetCount, bufsize);
        PacketNext(data, n, bufsize);
        WritePacket(data[n * PACKET..n * PACKET + bufsize]);
      }
    }

    /** Packet by packet, the bytes that the bus yields. */
    method BurstRead(addr: nat, len: nat, beyond: nat -> byte) returns (ret: seq<byte>)
      ensures ret == BusSlice(Mem(), beyond, addr, len)
    {
      hide Bus;
      ret := [];
      var packetCount := len / PACKET;
      if len % PACKET != 0 { packetCount := packetCount + 1; }
      ghost var got := 0;
      assert BusSlice(Mem(), beyond, addr, 0) == [];
      CountCovers(len);
      for n := 0 to packetCount
        invariant got == (if n * PACKET <= len then n * PACKET else len)
        invariant ret == BusSlice(Mem(), beyond, addr, got)
      {
        var bufsize := if n == packetCount - 1 && len % PACKET != 0 then len % PACKET else PACKET;
        PacketSize(len, n, packetCount, bufsize);
        BusNext(Mem(), beyond, addr, got, bufsize);
        var data := ReadPacket(addr + n * PACKET, bufsize, beyond);
        ret := ret + data;
        got := got + bufsize;
      }
    }

    method ReadPacket(addr: nat, size: nat, beyond: nat -> byte) returns (data: seq<byte>)
      ensures data == BusSlice(Mem(), beyond, addr, size)
    {
      data := [];
      for i := 0 to size
        invariant data == BusSlice(Mem(), beyond, addr, i)
      {
        data := data + [if addr + i < spinor.chip.mem.Length then spinor.chip.mem[addr + i] else beyond(addr + i)];
      }
    }

    /** Set the latch and wait until it reads as set. */
    method EnableWrites()
      requires Online()
      modifies spinor, spinor.chip, spinor.chip.mem
      ensures Online() && Mem() == old(Mem()) && spinor.txQueue == old(spinor.txQueue) && spinor.chip.enable
    {
      var done := false;
      while !done
        invariant Online() && Mem() == old(Mem()) && spinor.txQueue == old(spinor.txQueue)
        invariant done ==> spinor.chip.enable
        decreases !done
      {
        FlashWren();
        var status := FlashRdsr(1);
        done := status / 2 % 2 != 0;
      }
    }

    method WaitUntilIdle()
      requires Online()
      modifies spinor, spinor.chip, spinor.chip.mem
      ensures Online() && Mem() == old(Mem()) && spinor.txQueue == old(spinor.txQueue)
    {
      var busy := true;
      while busy
        invariant Online() && Mem() == old(Mem()) && spinor.txQueue == old(spinor.txQueue)
        decreases busy
      {
        var status := FlashRdsr(1);
        busy := status % 2 != 0;
      }
    }

    /** Drop the latch if it is still set, and wait until it reads as clear. */
    method ClearLatch()
      requires Online()
      modifies spinor, spinor.chip, spinor.chip.mem
      ensures Online() && Mem() == old(Mem()) && spinor.txQueue == old(spinor.txQueue) && !spinor.chip.enable
    {
      var status := FlashRdsr(1);
      if status / 2 % 2 != 0 {
        FlashWrdi();
        var latched := true;
        while latched
          invariant Online() && Mem() == old(Mem()) && spinor.txQueue == old(spinor.txQueue) && !spinor.chip.enable
          decreases latched
        {
          status := FlashRdsr(1);
          latched := status / 2 % 2 != 0;
        }
      }
    }

    /** One turn of the erase loop. */
    method EraseNext(address: nat, blocksize: nat)
      requires Online() && address < 0x1_0000_0000 && (blocksize == SUBSECTOR || blocksize == SEGMENT)
      modifies this`erases, spinor, spinor.chip, spinor.chip.mem
      ensures Online() && spinor.txQueue == old(spinor.txQueue) && erases == old(erases) + [(blocksize, address)]
      ensures Mem() == EraseBlock(old(Mem()), address, if blocksize == SUBSECTOR then Subsector4K else Sector)
    {
      EnableWrites();
      if blocksize == SUBSECTOR {
        FlashSe4b(address);
      } else {
        FlashBe4b(address);
      }
      WaitUntilIdle();
      var result := FlashRdscur();
      ClearLatch();
    }

    /** The block erase loop, shared by both entry points of the tool. */
    method EraseBlocks(addr: nat, length: nat)
      requires Online() && addr + length <= 0x1_0000_0000
      modifies this`erases, spinor, spinor.chip, spinor.chip.mem
      ensures Online() && spinor.txQueue == old(spinor.txQueue)
      ensures Mem() == ErasedRange(old(Mem()), addr, length)
      ensures old(erases) <= erases
      ensures forall k :: |old(erases)| <= k < |erases| ==> AlignedBlock(erases[k], addr, length)
    {
      ghost var mem := Mem();
      assert ValidSize(|mem|);
      hide Connected, EraseBlock, Erased, InStep, AlignedBlock, RoundUp;
      var erased := 0;
      EraseNothingYet(mem, addr);
      while erased < length
        invariant Online() && spinor.txQueue == old(spinor.txQueue) && InStep(addr, length, erased)
        invariant Mem() == Erased(mem, addr / SUBSECTOR * SUBSECTOR, erased)
        invariant old(erases) <= erases
        invariant forall k :: |old(erases)| <= k < |erases| ==> AlignedBlock(erases[k], addr, length)
      {
        var blocksize := if length - erased >= SEGMENT && addr % SEGMENT == 0 then SEGMENT else SUBSECTOR;
        StepOn(addr, length, erased);
        EraseMore(mem, addr, erased, if blocksize == SUBSECTOR then Subsector4K else Sector);
        EraseNext(addr + erased, blocksize);
        erased := erased + blocksize;
      }
      StepsDone(addr, length, erased);
    }

    /** One turn of the program loop. */
    method ProgramNext(address: nat, chunk: seq<byte>)
      requires Online()
      requires |chunk| % 4 == 0 && |chunk| <= 256 && address < 0x1_0000_0000
      modifies spinor, spinor.chip, spinor.chip.mem
      ensures Online() && spinor.txQueue == (old(spinor.txQueue) + chunk)[|chunk|..]
      ensures Mem() == Overwritten(old(Mem()), address, Sent(old(spinor.txQueue), chunk))
    {
      hide Connected, Overwritten, Taken, Left, Sent;
      TakenSent(spinor.txQueue, chunk);
      EvenWords(|chunk|);
      EnableWrites();
      BurstWrite(chunk);
      FlashPp4b(address, |chunk|);
    }

    /** The page program loop. */
    method ProgramPages(addr: nat, data: seq<byte>)
      requires Online() && |data| % 4 == 0 && addr + |data| < 0x1_0000_0000 + 4
      modifies spinor, spinor.chip, spinor.chip.mem
      ensures Online() && spinor.txQueue == (old(spinor.txQueue) + data)[|data|..]
      ensures Mem() == Overwritten(old(Mem()), addr, Sent(old(spinor.txQueue), data))
    {
      hide Connected, Overwritten, Sent;
      ghost var mem, tx := Mem(), spinor.txQueue;
      var written := 0;
      NothingSent(mem, addr, tx);
      while written < |data|
        invariant Online() && written <= |data| && written % 4 == 0
        invariant spinor.txQueue == (tx + data[..written])[written..]
        invariant Mem() == Overwritten(mem, addr, Sent(tx, data[..written]))
      {
        var chunklen := if |data| - written > 256 then 256 else |data| - written;
        var chunk := data[written..written + chunklen];
        ChunkFits(|data|, written, chunklen);
        SentMore(tx, data, written, chunklen);
        OverwriteMore(mem, addr, Sent(tx, data[..written]), Sent(spinor.txQueue, chunk));
        ProgramNext(addr + written, chunk);
        written := written + chunklen;
      }
      assert data[..|data|] == data;
    }

    /** The two identification reads, the second only if the first is as expected. */
    method CheckId(expected: (nat, nat)) returns (ok: bool)
      requires Attached()
      modifies spinor, spinor.chip, spinor.chip.mem
      ensures Online() && Mem() == old(Mem()) && spinor.txQueue == old(spinor.txQueue)
      ensures ok <==> expected == CHIP_ID
    {
      var code := FlashRdid(1);
      if code != expected.0 { return false; }
      assert Attached();
      code := FlashRdid(2);
      return code == expected.1;
    }

    method EraseRegion(addr: nat, length: nat, expected: (nat, nat)) returns (ok: bool)
      requires Attached() && addr + length <= 0x1_0000_0000
      modifies this`erases, spinor, spinor.chip, spinor.chip.mem
      ensures Online() && (ok <==> expected == CHIP_ID)
      ensures Mem() == if ok then ErasedRange(old(Mem()), addr, length) else old(Mem())
      ensures old(erases) <= erases
      ensures forall k :: |old(erases)| <= k < |erases| ==> AlignedBlock(erases[k], addr, length)
    {
      hide ErasedRange, Connected, Usable;
      ok := CheckId(expected);
      if ok { EraseBlocks(addr, length); }
    }

    /** How many bytes of the readback are wrong. */
    method CountErrors(rbk: seq<byte>, data: seq<byte>) returns (errs: nat)
      requires |rbk| == |data|
      ensures errs == Differences(rbk, data)
    {
      errs := 0;
      for i := 0 to |rbk|
        invariant errs == Differences(rbk[..i], data[..i])
      {
        assert rbk[..i + 1][..i] == rbk[..i] && data[..i + 1][..i] == data[..i];
        if rbk[i] != data[i] { errs := errs + 1; }
      }
      assert rbk[..|rbk|] == rbk && data[..|data|] == data;
    }

    /**
    A whole update, on a system that may be fresh from a reset. The identification words that
    the host insists on are an argument, because the emulated chip never yields the real ones.
    */
    method FlashProgram(addr: nat, data: seq<byte>, verify: bool, flashLen: nat, expected: (nat, nat),
                        beyond: nat -> byte)
      returns (r: Outcome)
      requires Attached() && flashLen <= 0x1_0000_0000
      modifies this`erases, spinor, spinor.chip, spinor.chip.mem
      ensures r == OutOfBounds <==> addr + |data| > flashLen
      ensures r == IdMismatch <==> addr + |data| <= flashLen && expected != CHIP_ID
      ensures r == Written <==>
        && addr + |data| <= flashLen && expected == CHIP_ID
        && (verify ==> ReadsRight(spinor.chip.mem.Length, addr, data, old(spinor.txQueue), beyond))
      ensures r.ReadbackFailed? ==>
        r.errors == Differences(BusSlice(Mem(), beyond, addr, |Padded(data)|), Padded(data)) > 0
      ensures Attached()
      ensures r == OutOfBounds || r == IdMismatch ==> Mem() == old(Mem()) && spinor.txQueue == old(spinor.txQueue)
      ensures r == Written || r.ReadbackFailed? ==>
        && Mem() == Flashed(old(Mem()), addr, data, old(spinor.txQueue))
        && spinor.txQueue == (old(spinor.txQueue) + Padded(data))[|Padded(data)|..]
      ensures r == Written || r.ReadbackFailed? ==> Online() && !spinor.chip.enable
      ensures old(erases) <= erases
      ensures forall k :: |old(erases)| <= k < |erases| ==> AlignedBlock(erases[k], addr, |data|)
    {
      ghost var mem, tx := Mem(), spinor.txQueue;
      PaddedShort(data);
      hide Overwritten, ErasedRange, Connected, Usable, Padded, ReadsRight, Differences, Sent;
      if addr + |data| > flashLen { return OutOfBounds; }
      var ok := CheckId(expected);
      UsableWhenConnected(spinor.View());
      if !ok { return IdMismatch; }
      EraseBlocks(addr, |data|);
      var padded := Padded(data);
      ProgramPages(addr, padded);
      ClearLatch();
      var status := FlashRdsr(0);
      UsableWhenConnected(spinor.View());
      r := Written;
      if verify {
        var rbk := BurstRead(addr, |padded|, beyond);
        ReadbackIff(mem, addr, data, tx, beyond);
        if rbk != padded {
          var errs := CountErrors(rbk, padded);
          DifferencesNone(rbk, padded);
          r := ReadbackFailed(errs);
        }
      }
    }
  }

  lemma UsableWhenConnected(p: Port)
    ensures Connected(p) ==> Usable(p)
  {}

  lemma SizeFits(p: Port)
    requires Usable(p)
    ensures ValidSize(|p.chip.mem|) && |p.chip.mem| <= 0x1000_0000
  {}

  lemma PaddedShort(data: seq<byte>)
    ensures |Padded(data)| < |data| + 4
  {}

  lemma WithArg(p: Port, arg: nat)
    requires Usable(p)
    ensures Usable(p.(arg := arg))
  {}

  lemma IdFits(words: nat)
    requires words == 1 || words == 2
    ensures FirstOf(IdBytes(words), 4) == IdBytes(words) && Left(IdBytes(words), 4) == []
  {}

  lemma StillConnected(p: Port, q: Port)
    requires Connected(p) && q == p.(chip := p.chip.(first := 0x9F), rx := [])
    ensures Connected(q)
  {}

  lemma CountCovers(len: nat)
    ensures PacketCount(len) * PACKET >= len
  {
    assert len == len / PACKET * PACKET + len % PACKET;
  }

  const PACKET := 4096

  /** The first `n` packets; the last one may be short. */
  function Packets(data: seq<byte>, n: nat): seq<byte> {
    if n * PACKET <= |data| then data[..n * PACKET] else data
  }

  lemma PacketNext(data: seq<byte>, n: nat, bufsize: nat)
    requires n * PACKET + bufsize <= |data|
    requires bufsize == PACKET || (bufsize == |data| % PACKET && n * PACKET + bufsize == |data|)
    ensures Packets(data, n + 1) == Packets(data, n) + data[n * PACKET..n * PACKET + bufsize]
  {
    if bufsize != PACKET { assert data[..n * PACKET] + data[n * PACKET..n * PACKET + bufsize] == data; }
  }

  function PacketCount(len: nat): nat { if len % PACKET != 0 then len / PACKET + 1 else len / PACKET }

  lemma PacketsAll(data: seq<byte>)
    ensures Packets(data, 0) == [] && Packets(data, PacketCount(|data|)) == data
  {
    var q, r := |data| / PACKET, |data| % PACKET;
    assert |data| == q * PACKET + r;
  }

  lemma PacketSize(len: nat, n: nat, count: nat, bufsize: nat)
    requires count == PacketCount(len) && n < count
    requires bufsize == if n == count - 1 && len % PACKET != 0 then len % PACKET else PACKET
    ensures n * PACKET + bufsize <= len
    ensures bufsize == PACKET || (bufsize == len % PACKET && n * PACKET + bufsize == len)
  {
    var q, r := len / PACKET, len % PACKET;
    assert len == q * PACKET + r;
    if r == 0 || n != q { assert n + 1 <= q; }
  }

  /** An erase of 64 KiB is aligned to 64 KiB, and every erase begins inside the range. */
  predicate AlignedBlock(e: (nat, nat), addr: nat, length: nat) {
    && (e.0 == SUBSECTOR || (e.0 == SEGMENT && e.1 % SEGMENT == 0 && e.1 + SEGMENT <= addr + length))
    && addr <= e.1 < addr + length
  }

  /** How far the erase loop may be between turns. */
  predicate InStep(addr: nat, length: nat, erased: nat) {
    && erased % SUBSECTOR == 0 && erased < length + SUBSECTOR
    && (addr % SEGMENT == 0 && length - erased >= SEGMENT ==> erased % SEGMENT == 0)
  }

  lemma EraseNothingYet(mem: seq<byte>, addr: nat)
    ensures Erased(mem, addr / SUBSECTOR * SUBSECTOR, 0) == mem && forall length :: InStep(addr, length, 0)
  {}

  lemma StepOn(addr: nat, length: nat, erased: nat)
    requires InStep(addr, length, erased) && erased < length
    ensures erased % SUBSECTOR == 0
    ensures var blocksize := if length - erased >= SEGMENT && addr % SEGMENT == 0 then SEGMENT else SUBSECTOR;
      && InStep(addr, length, erased + blocksize)
      && AlignedBlock((blocksize, addr + erased), addr, length)
      && (blocksize == SEGMENT ==> erased % SEGMENT == 0)
  {
    if length - erased >= SEGMENT && addr % SEGMENT == 0 {
      SumOfMultiples(addr, erased, SEGMENT);
      SumOfMultiples(erased, SEGMENT, SEGMENT);
      SumOfMultiples(erased, SEGMENT, SUBSECTOR);
    } else {
      SumOfMultiples(erased, SUBSECTOR, SUBSECTOR);
    }
  }

  lemma SumOfMultiples(a: nat, b: nat, d: nat)
    requires d > 0 && a % d == 0 && b % d == 0
    ensures (a + b) % d == 0
  {
    var p, q := a / d, b / d;
    assert a == p * d && b == q * d;
    DivModUnique(a + b, p + q, 0, d);
  }

  lemma StepsDone(addr: nat, length: nat, erased: nat)
    requires InStep(addr, length, erased) && erased >= length
    ensures erased == RoundUp(length, SUBSECTOR)
  {}

  lemma ProgramSees(c: Chip, at: nat, data: seq<byte>)
    ensures ProgramResult(c, at, data) == if c.enable then Overwritten(c.mem, at, data) else c.mem
  {}

  lemma TakenSent(tx: seq<byte>, chunk: seq<byte>)
    ensures Taken(tx + chunk, |chunk|) == Sent(tx, chunk) && Left(tx + chunk, |chunk|) == (tx + chunk)[|chunk|..]
  {}

  lemma ChunkFits(n: nat, w: nat, c: nat)
    requires n % 4 == 0 && w % 4 == 0 && w < n && c == if n - w > 256 then 256 else n - w
    ensures c > 0 && c % 4 == 0 && (w + c) % 4 == 0
  {
    var p, q := n / 4, w / 4;
    assert n == 4 * p && w == 4 * q;
  }

  lemma NothingSent(mem: seq<byte>, addr: nat, tx: seq<byte>)
    ensures Overwritten(mem, addr, Sent(tx, [])) == mem && (tx + [])[0..] == tx
  {}

  lemma SentMore(tx: seq<byte>, data: seq<byte>, w: nat, c: nat)
    requires w + c <= |data|
    ensures var queue, chunk := (tx + data[..w])[w..], data[w..w + c];
            && Sent(tx, data[..w]) + Sent(queue, chunk) == Sent(tx, data[..w + c])
            && (queue + chunk)[c..] == (tx + data[..w + c])[w + c..]
  {
    var chunk := data[w..w + c];
    assert data[..w + c] == data[..w] + chunk;
    assert (tx + data[..w])[w..] + chunk == (tx + data[..w + c])[w..];
  }

  /** A piece of the data is a whole number of 16-bit words, few enough for the command field. */
  lemma EvenWords(n: nat)
    requires n % 4 == 0 && n <= 256
    ensures 2 * (n / 2 % 256) == n && n % 2 == 0
  {}
}
