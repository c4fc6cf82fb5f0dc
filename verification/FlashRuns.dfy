/**
What holds in every run of the flash chip, whatever bytes a host sends: memory changes only
behind a write-enable of its own, and only where the operation in progress may change it.
*/
module FlashRuns {
  import opened Bits
  import opened Bytes
  import opened FlashChip

  datatype Event = Sent(b: byte) | Finished | WasReset

  function Step(c: Chip, e: Event): (d: Chip)
    requires ValidSize(|c.mem|)
    ensures |d.mem| == |c.mem|
  {
    match e
    case Sent(b) => Exchange(c, b).0
    case Finished => Finish(c)
    case WasReset => Reset(c)
  }

  /** The state after all events. */
  function Run(c: Chip, es: seq<Event>): (d: Chip)
    requires ValidSize(|c.mem|)
    ensures |d.mem| == |c.mem|
  {
    if es == [] then c else Step(Run(c, es[..|es| - 1]), es[|es| - 1])
  }

  function At(c: Chip, es: seq<Event>, i: nat): (d: Chip)
    requires ValidSize(|c.mem|) && i <= |es|
    ensures |d.mem| == |c.mem|
  {
    Run(c, es[..i])
  }

  lemma AtNext(c: Chip, es: seq<Event>, i: nat)
    requires ValidSize(|c.mem|) && i < |es|
    ensures At(c, es, i + 1) == Step(At(c, es, i), es[i])
  {
    assert es[..i + 1][..i] == es[..i];
  }

  // ----- one step

  /** The byte that the decoder looks at when it recognises a command. */
  ghost predicate Recognizes(c: Chip, e: Event, command: byte) {
    && e.Sent? && c.cur.phase == RecognizeOperation && !(c.opi && c.atFirst)
    && (if c.opi then c.first else e.b) == command
  }

  ghost predicate SetsLatch(c: Chip, e: Event) { Recognizes(c, e, 0x06) }

  /** A write-disable, a reset, or the end of a program, erase or register write. */
  ghost predicate DropsLatch(c: Chip, e: Event) {
    Recognizes(c, e, 0x04) || e.WasReset? || (e.Finished? && ClearsLatch(c.cur.op))
  }

  /** The latch is governed by these two kinds of events and nothing else. */
  lemma LatchStep(c: Chip, e: Event)
    requires ValidSize(|c.mem|)
    ensures Step(c, e).enable <==> SetsLatch(c, e) || (c.enable && !DropsLatch(c, e))
  {
    hide EraseBlock, WriteByte;
  }

  ghost predicate Changes(c: Chip, e: Event)
    requires ValidSize(|c.mem|)
  {
    Step(c, e).mem != c.mem
  }

  /** The address an erase in progress is going to have after one more byte. */
  function EraseAddress(c: Chip, b: byte): nat {
    if c.cur.phase == AddressOnly then c.cur.address * 256 + b else c.cur.address
  }

  /**
  Memory changes only while the latch is set, only in the middle of a program or erase, and
  only where that operation may: one byte for a program, the aligned block around the address
  for an erase, which then lies inside the memory.
  */
  lemma ChangeIsGuarded(c: Chip, e: Event)
    requires ValidSize(|c.mem|) && Changes(c, e)
    ensures e.Sent? && c.enable && c.cur.phase != RecognizeOperation
    ensures c.cur.op == Program || c.cur.op == Erase
    ensures c.cur.op == Program ==>
      var p := c.cur.address + c.cur.handled;
      p < |c.mem| && Step(c, e).mem == c.mem[p := e.b]
    ensures c.cur.op == Erase ==>
      var len := BlockLength(c.cur.size);
      && (len == 4096 || len == 65536)
      && var from := EraseAddress(c, e.b) / len * len;
      && from % len == 0 && from + len <= |c.mem| && Step(c, e).mem == Erased(c.mem, from, len)
  {
    hide Erased, Step, EraseBlock, BlockLength, EraseAddress;
    ChangeShape(c, e);
    if c.cur.op == Erase {
      EraseShape(c.mem, EraseAddress(c, e.b), c.cur.size);
    }
  }

  /** An erase that changes anything erases one aligned block inside the memory. */
  lemma EraseShape(mem: seq<byte>, address: nat, size: EraseSize)
    requires ValidSize(|mem|) && EraseBlock(mem, address, size) != mem
    ensures var len := BlockLength(size);
      && (len == 4096 || len == 65536)
      && var from := address / len * len;
      && from % len == 0 && from + len <= |mem| && EraseBlock(mem, address, size) == Erased(mem, from, len)
  {
    hide Erased;
    BlockInside(|mem|, address, size);
    var len := BlockLength(size);
    DivModUnique(address / len * len, address / len, 0, len);
  }

  /** The two ways in which a byte can touch memory. */
  lemma ChangeShape(c: Chip, e: Event)
    requires ValidSize(|c.mem|) && Changes(c, e)
    ensures e.Sent? && c.enable && c.cur.phase != RecognizeOperation
    ensures (c.cur.op == Program && Step(c, e).mem == WriteByte(c.mem, c.cur.address + c.cur.handled, e.b))
         || (c.cur.op == Erase && Step(c, e).mem == EraseBlock(c.mem, EraseAddress(c, e.b), c.cur.size))
  {
    hide EraseBlock, WriteByte;
  }

  // ----- whole runs

  /** Event `i` sets the latch, and nothing drops it from there up to `j`. */
  ghost predicate LatchedBy(c: Chip, es: seq<Event>, i: nat, j: nat)
    requires ValidSize(|c.mem|) && i < j <= |es|
  {
    SetsLatch(At(c, es, i), es[i]) && forall k :: i < k < j ==> !DropsLatch(At(c, es, k), es[k])
  }

  /** If the latch is set after `j` events, one of them set it for good. */
  lemma LatchedNow(c: Chip, es: seq<Event>, j: nat)
    requires ValidSize(|c.mem|) && 0 < j <= |es| && SetsLatch(At(c, es, j - 1), es[j - 1])
    ensures LatchedBy(c, es, j - 1, j)
  {}

  lemma LatchedStill(c: Chip, es: seq<Event>, i: nat, j: nat)
    requires ValidSize(|c.mem|) && i < j - 1 < |es| && LatchedBy(c, es, i, j - 1)
    requires !DropsLatch(At(c, es, j - 1), es[j - 1])
    ensures LatchedBy(c, es, i, j)
  {
    hide At, DropsLatch, SetsLatch;
  }

  lemma {:induction false} LatchHasCause(c: Chip, es: seq<Event>, j: nat)
    requires ValidSize(|c.mem|) && !c.enable && j <= |es| && At(c, es, j).enable
    ensures exists i :: 0 <= i < j && LatchedBy(c, es, i, j)
    decreases j
  {
    if j > 0 {
      var d := At(c, es, j - 1);
      AtNext(c, es, j - 1);
      LatchStep(d, es[j - 1]);
      hide Step, SetsLatch, DropsLatch, At, LatchedBy;
      if SetsLatch(d, es[j - 1]) {
        LatchedNow(c, es, j);
      } else {
        LatchHasCause(c, es, j - 1);
        var i :| 0 <= i < j - 1 && LatchedBy(c, es, i, j - 1);
        LatchedStill(c, es, i, j);
      }
    }
  }

  /**
  Every change of memory in a run that starts with the latch clear has a write-enable before
  it, with no completed program, erase or register write, no write-disable and no reset in
  between.
  */
  lemma ChangeHasCause(c: Chip, es: seq<Event>, j: nat)
    requires ValidSize(|c.mem|) && !c.enable && j < |es| && Changes(At(c, es, j), es[j])
    ensures exists i :: 0 <= i < j && LatchedBy(c, es, i, j)
  {
    hide Step, LatchedBy, At;
    ChangeIsGuarded(At(c, es, j), es[j]);
    LatchHasCause(c, es, j);
  }

  /** Until a transmission ends, its operation stays what it was recognised as. */
  lemma OperationStays(c: Chip, e: Event)
    requires ValidSize(|c.mem|) && e.Sent? && c.cur.phase != RecognizeOperation
    ensures Step(c, e).cur.op == c.cur.op && Step(c, e).cur.phase != RecognizeOperation
  {
    hide EraseBlock, WriteByte;
  }

  lemma {:induction false} OperationStaysTo(c: Chip, es: seq<Event>, j: nat, k: nat)
    requires ValidSize(|c.mem|) && j <= k <= |es| && At(c, es, j).cur.phase != RecognizeOperation
    requires forall i :: j <= i < k ==> es[i].Sent?
    ensures At(c, es, k).cur.op == At(c, es, j).cur.op && At(c, es, k).cur.phase != RecognizeOperation
    decreases k - j
  {
    hide Step, At;
    if j < k {
      OperationStaysTo(c, es, j, k - 1);
      AtNext(c, es, k - 1);
      OperationStays(At(c, es, k - 1), es[k - 1]);
    }
  }

  /** The first end of transmission or reset after `j`. */
  lemma FirstEnd(es: seq<Event>, j: nat, k: nat) returns (e: nat)
    requires j < k < |es| && !es[k].Sent?
    ensures j < e <= k && !es[e].Sent? && forall i :: j < i < e ==> es[i].Sent?
  {
    e := j + 1;
    while es[e].Sent?
      invariant j < e <= k && forall i :: j < i < e ==> es[i].Sent?
      decreases k - e
    {
      e := e + 1;
    }
  }

  lemma {:induction false} RunFrom(c: Chip, es: seq<Event>, k: nat, i: nat)
    requires ValidSize(|c.mem|) && k <= i <= |es|
    ensures At(At(c, es, k), es[k..], i - k) == At(c, es, i)
    decreases i
  {
    hide Step;
    if i > k {
      RunFrom(c, es, k, i - 1);
      AtNext(c, es, i - 1);
      AtNext(At(c, es, k), es[k..], i - 1 - k);
    } else {
      assert es[k..][..0] == [];
    }
  }

  /**
  Each memory-changing transmission has a write-enable of its own: if memory changes at `j`
  and again at `n`, with the end of a transmission between them, then there is a write-enable
  between them, and nothing drops the latch from there to `n`.
  */
  lemma OwnWriteEnable(c: Chip, es: seq<Event>, j: nat, end: nat, n: nat)
    requires ValidSize(|c.mem|) && j < end < n < |es| && !es[end].Sent?
    requires Changes(At(c, es, j), es[j]) && Changes(At(c, es, n), es[n])
    ensures exists i :: j < i < n && LatchedBy(c, es, i, n)
  {
    hide Step, At, SetsLatch, Changes, LatchedBy;
    ChangeIsGuarded(At(c, es, j), es[j]);
    var e := FirstEnd(es, j, end);
    OperationStaysTo(c, es, j, e);
    AtNext(c, es, e);
    LatchStep(At(c, es, e), es[e]);
    EndSetsNothing(At(c, es, e), es[e]);
    var d, rest := At(c, es, e + 1), es[e + 1..];
    RunFrom(c, es, e + 1, n);
    hide DropsLatch;
    ChangeHasCause(d, rest, n - e - 1);
    var i :| 0 <= i < n - e - 1 && LatchedBy(d, rest, i, n - e - 1);
    LatchedLater(c, es, e + 1, i, n);
  }

  lemma LatchedLater(c: Chip, es: seq<Event>, k: nat, i: nat, n: nat)
    requires ValidSize(|c.mem|) && k + i < n <= |es| && LatchedBy(At(c, es, k), es[k..], i, n - k)
    ensures LatchedBy(c, es, k + i, n)
  {
    hide SetsLatch, DropsLatch, At;
    RunFrom(c, es, k, k + i);
    forall m | k + i < m < n ensures !DropsLatch(At(c, es, m), es[m]) {
      RunFrom(c, es, k, m);
      assert es[m] == es[k..][m - k];
      assert !DropsLatch(At(At(c, es, k), es[k..], m - k), es[k..][m - k]);
    }
  }

  lemma EndSetsNothing(c: Chip, e: Event)
    requires !e.Sent?
    ensures !SetsLatch(c, e)
  {}
}
