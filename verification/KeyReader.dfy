/**
How the PDDB image decoder gathers the data of one key from its encrypted pages
(tools/pddbcommon.py, class KeyDescriptor). A page of flash decrypts to 4064 bytes of data,
or not at all; which of the two, and to what, is left open.
*/
module KeyReader {
  import opened Bytes
  import opened Options

  const VPAGE: nat := 4064

  /** The data bytes of one decrypted page, without the journal number in front. */
  type PageData = s: seq<byte> | |s| == 4064 witness seq(4064, _ => 0)

  /** What the decoder sees: where virtual pages lie, and what physical pages decrypt to. */
  datatype Image = Image(v2p: map<nat, nat>, plain: nat -> Option<PageData>) {

    predicate Mapped(page: nat) { page * VPAGE in v2p }

    predicate Readable(page: nat) { Mapped(page) && plain(v2p[page * VPAGE]).Some? }

    function Contents(page: nat): PageData
      requires Readable(page)
    {
      plain(v2p[page * VPAGE]).value
    }
  }

  /** How many pages the loop visits: one per started 4064 bytes of length. */
  function Visits(len: nat): nat { (len + VPAGE - 1) / VPAGE }

  /** How many bytes the loop gets if every page decrypts. */
  function Got(start: nat, len: nat): nat {
    var end := Visits(len) * VPAGE;
    if len == 0 then 0 else if end - start % VPAGE < len then end - start % VPAGE else len
  }

  /** The pages that decrypt, among `n` pages from `first` on, put together as if nothing were missing. */
  function Joined(m: Image, first: nat, n: nat): seq<byte> {
    if n == 0 then []
    else Joined(m, first, n - 1) + (if m.Readable(first + n - 1) then m.Contents(first + n - 1) else [])
  }

  /** `s[off:off + len]` */
  function Window(s: seq<byte>, off: nat, len: nat): seq<byte> {
    if off >= |s| then [] else if off + len <= |s| then s[off..off + len] else s[off..]
  }

  /** What the loop returns once all pages are mapped. */
  function Gathered(m: Image, start: nat, len: nat): seq<byte> {
    Window(Joined(m, start / VPAGE, Visits(len)), start % VPAGE, len)
  }

  /** Byte `a` of the key's virtual address space. */
  function VirtualByte(m: Image, a: nat): byte
    requires m.Readable(a / VPAGE)
  {
    m.Contents(a / VPAGE)[a % VPAGE]
  }

  predicate MappedFrom(m: Image, first: nat, n: nat) {
    forall k :: first <= k < first + n ==> m.Mapped(k)
  }

  ghost predicate ReadableFrom(m: Image, first: nat, n: nat) {
    forall k :: first <= k < first + n ==> m.Readable(k)
  }

  datatype ReadResult = Data(bytes: seq<byte>) | MissingPage(va: nat)

  /** `b` is the byte at virtual address `a`. */
  ghost predicate IsByte(m: Image, a: nat, b: byte) {
    m.Readable(a / VPAGE) && b == VirtualByte(m, a)
  }

  ghost predicate IsSlice(m: Image, start: nat, data: seq<byte>) {
    forall i :: 0 <= i < |data| ==> IsByte(m, start + i, data[i])
  }

  lemma PageOf(page: nat, off: nat)
    requires off < VPAGE
    ensures (page * VPAGE + off) / VPAGE == page && (page * VPAGE + off) % VPAGE == off
  {}

  lemma PageAddress(start: nat, n: nat)
    ensures (start + n * VPAGE) / VPAGE == start / VPAGE + n
  {
    PageOf(start / VPAGE + n, start % VPAGE);
  }

  lemma {:induction false} JoinedLength(m: Image, first: nat, n: nat)
    ensures |Joined(m, first, n)| % VPAGE == 0
  {
    if n > 0 { JoinedLength(m, first, n - 1); }
  }

  /** One more page extends the window by a piece of that page. */
  lemma WindowNext(s: seq<byte>, page: PageData, off: nat, len: nat)
    requires off < VPAGE && |s| % VPAGE == 0
    ensures var got := Window(s, off, len);
            var from := if s == [] then off else 0;
            && |got| <= len
            && (|got| < len ==> Window(s + page, off, len) == got + Window(page, from, len - |got|))
            && (|got| == len ==> Window(s + page, off, len) == got)
  {}

  /** The loop is still reading, at this offset of the next page. */
  ghost predicate Expects(got: seq<byte>, s: seq<byte>, off: nat, len: nat, readStart: nat) {
    readStart < VPAGE && (|got| < len ==> readStart == if s == [] then off else 0)
  }

  lemma PieceIsWindow(page: PageData, from: nat, remaining: nat)
    requires from < VPAGE
    ensures var to := if from + remaining > VPAGE then VPAGE else from + remaining;
            Window(page, from, remaining) == page[from..to]
  {}

  lemma Finished(len: nat, n: nat)
    requires n * VPAGE >= len && (n > 0 ==> (n - 1) * VPAGE < len)
    ensures n == Visits(len)
  {}

  lemma Unfinished(len: nat, n: nat)
    requires n * VPAGE < len
    ensures n < Visits(len)
  {}

  /**
  The read loop. A missing page raises. Otherwise the result is a window of the pages that
  decrypt, put together; a page that does not decrypt is not even left blank. The check
  inside the loop, that a continued read starts at the head of a page, never fails.
  */
  method ReadKey(m: Image, start: nat, len: nat) returns (r: ReadResult)
    ensures r.Data? <==> MappedFrom(m, start / VPAGE, Visits(len))
    ensures r.MissingPage? ==>
      exists k: nat :: r.va == k * VPAGE && start / VPAGE <= k < start / VPAGE + Visits(len) && !m.Mapped(k)
                    && MappedFrom(m, start / VPAGE, k - start / VPAGE)
    ensures r.Data? ==> r.bytes == Gathered(m, start, len)
  {
    hide Window, Expects;
    var pageAddr := start;
    var data: seq<byte> := [];
    var remaining: nat := len;
    var readStart: nat := start % VPAGE;
    ghost var first, off := start / VPAGE, start % VPAGE;
    ghost var n := 0;
    NothingRead(off, len);
    while pageAddr < start + len
      invariant pageAddr == start + n * VPAGE && (n > 0 ==> (n - 1) * VPAGE < len)
      invariant data == Window(Joined(m, first, n), off, len) && |data| + remaining == len
      invariant Expects(data, Joined(m, first, n), off, len, readStart)
      invariant MappedFrom(m, first, n)
      decreases start + len - pageAddr
    {
      Unfinished(len, n);
      PageAddress(start, n);
      var dataBase := pageAddr / VPAGE * VPAGE;
      assert dataBase == (first + n) * VPAGE;
      if dataBase !in m.v2p {
        assert !m.Mapped(first + n);
        return MissingPage(dataBase);
      }
      var page := m.plain(m.v2p[dataBase]);
      if page.Some? {
        var readEnd := if readStart + remaining > VPAGE then VPAGE else readStart + remaining;
        StepRead(m, first, n, off, len, readStart, page.value);
        data := data + page.value[readStart..readEnd];
        var bytesRead := readEnd - readStart;
        remaining := remaining - bytesRead;
        readStart := (readStart + bytesRead) % VPAGE;
        if remaining > 0 { assert readStart == 0; }
      } else {
        assert !m.Readable(first + n);
        assert Joined(m, first, n + 1) == Joined(m, first, n);
      }
      pageAddr := pageAddr + VPAGE;
      n := n + 1;
    }
    Finished(len, n);
    r := Data(data);
  }

  lemma NothingRead(off: nat, len: nat)
    requires off < VPAGE
    ensures Window([], off, len) == [] && Expects([], [], off, len, off)
  {}

  /** One turn on a page that decrypts. */
  lemma StepRead(m: Image, first: nat, n: nat, off: nat, len: nat, readStart: nat, page: PageData)
    requires off < VPAGE && m.Readable(first + n) && page == m.Contents(first + n)
    requires Expects(Window(Joined(m, first, n), off, len), Joined(m, first, n), off, len, readStart)
    ensures var got := Window(Joined(m, first, n), off, len);
            var remaining := len - |got|;
            var to := if readStart + remaining > VPAGE then VPAGE else readStart + remaining;
            var got' := Window(Joined(m, first, n + 1), off, len);
            && readStart < VPAGE && remaining >= 0 && got' == got + page[readStart..to]
            && |got'| == |got| + (to - readStart)
            && Expects(got', Joined(m, first, n + 1), off, len, (readStart + (to - readStart)) % VPAGE)
  {
    var s := Joined(m, first, n);
    JoinedLength(m, first, n);
    WindowNext(s, page, off, len);
    PieceIsWindow(page, readStart, len - |Window(s, off, len)|);
    assert Joined(m, first, n + 1) == s + page;
    hide Window, Joined;
  }

  // ----- what the result means

  /** If every page decrypts, byte `i` of the pages put together is byte `i` of virtual memory. */
  lemma {:induction false} JoinedBytes(m: Image, first: nat, n: nat)
    requires ReadableFrom(m, first, n)
    ensures |Joined(m, first, n)| == n * VPAGE && IsSlice(m, first * VPAGE, Joined(m, first, n))
  {
    if n > 0 {
      JoinedBytes(m, first, n - 1);
      var s, page := Joined(m, first, n - 1), first + n - 1;
      var all := s + m.Contents(page);
      forall i | 0 <= i < |all| ensures IsByte(m, first * VPAGE + i, all[i]) {
        if i < |s| {
          assert all[i] == s[i];
        } else {
          PageOf(page, i - |s|);
          assert first * VPAGE + i == page * VPAGE + (i - |s|);
        }
      }
      assert Joined(m, first, n) == all;
    }
  }

  /** Then the result is the slice of virtual memory from `start`, as far as the loop gets. */
  lemma AllReadableSlice(m: Image, start: nat, len: nat)
    requires ReadableFrom(m, start / VPAGE, Visits(len))
    ensures |Gathered(m, start, len)| == Got(start, len) && IsSlice(m, start, Gathered(m, start, len))
  {
    var first, off := start / VPAGE, start % VPAGE;
    var s := Joined(m, first, Visits(len));
    JoinedBytes(m, first, Visits(len));
    assert start == first * VPAGE + off;
    WindowLength(start, len, s);
    WindowOfSlice(m, start, len, s);
  }

  lemma WindowOfSlice(m: Image, start: nat, len: nat, s: seq<byte>)
    requires IsSlice(m, start / VPAGE * VPAGE, s)
    ensures IsSlice(m, start, Window(s, start % VPAGE, len))
  {
    hide IsByte;
    var base, off := start / VPAGE * VPAGE, start % VPAGE;
    var data := Window(s, off, len);
    assert start == base + off;
    forall i | 0 <= i < |data| ensures IsByte(m, start + i, data[i]) {
      assert data[i] == s[off + i];
      assert IsByte(m, base + (off + i), s[off + i]);
    }
  }

  lemma WindowLength(start: nat, len: nat, s: seq<byte>)
    requires |s| == Visits(len) * VPAGE
    ensures |Window(s, start % VPAGE, len)| == Got(start, len)
  {
    if len > 0 { assert Visits(len) >= 1; }
  }

  /** How many of `n` pages from `first` on decrypt. */
  function ReadableCount(m: Image, first: nat, n: nat): (c: nat)
    ensures c <= n
  {
    if n == 0 then 0 else ReadableCount(m, first, n - 1) + (if m.Readable(first + n - 1) then 1 else 0)
  }

  lemma {:induction false} JoinedCount(m: Image, first: nat, n: nat)
    ensures |Joined(m, first, n)| == VPAGE * ReadableCount(m, first, n)
  {
    if n > 0 { JoinedCount(m, first, n - 1); }
  }

  lemma {:induction false} CountAll(m: Image, first: nat, n: nat)
    ensures ReadableCount(m, first, n) == n <==> ReadableFrom(m, first, n)
  {
    if n > 0 {
      CountAll(m, first, n - 1);
      if ReadableFrom(m, first, n) {
        assert m.Readable(first + n - 1);
      }
    }
  }

  lemma WholeNeedsAll(start: nat, len: nat, count: nat)
    requires count <= Visits(len) && len > 0
    ensures start % VPAGE + len <= VPAGE * count ==> count == Visits(len)
  {}

  /**
  Whatever decrypts, a key is read whole exactly when the pages visited that decrypt reach its
  end. That takes all of them, so a key that is read whole is read right.
  */
  lemma WholeSliceIff(m: Image, start: nat, len: nat)
    ensures |Gathered(m, start, len)| == len
       <==> len == 0 || start % VPAGE + len <= VPAGE * ReadableCount(m, start / VPAGE, Visits(len))
    ensures |Gathered(m, start, len)| == len
       <==> len == 0 || (ReadableFrom(m, start / VPAGE, Visits(len)) && start % VPAGE + len <= VPAGE * Visits(len))
    ensures |Gathered(m, start, len)| == len ==> IsSlice(m, start, Gathered(m, start, len))
  {
    var first, count := start / VPAGE, ReadableCount(m, start / VPAGE, Visits(len));
    JoinedCount(m, first, Visits(len));
    CountAll(m, first, Visits(len));
    if len > 0 {
      WholeNeedsAll(start, len, count);
      if count == Visits(len) { AllReadableSlice(m, start, len); }
    }
    hide Joined, ReadableFrom, IsSlice, ReadableCount;
  }

  /** If the pages that decrypt come first, what is read is right as far as it goes. */
  lemma ReadableFirst(m: Image, start: nat, len: nat, c: nat)
    requires c <= Visits(len) && ReadableFrom(m, start / VPAGE, c)
    requires forall k :: start / VPAGE + c <= k < start / VPAGE + Visits(len) ==> !m.Readable(k)
    ensures IsSlice(m, start, Gathered(m, start, len))
  {
    var first, off := start / VPAGE, start % VPAGE;
    JoinedStops(m, first, c, Visits(len));
    JoinedBytes(m, first, c);
    WindowOfSlice(m, start, len, Joined(m, first, c));
  }

  lemma {:induction false} JoinedStops(m: Image, first: nat, c: nat, n: nat)
    requires c <= n && forall k :: first + c <= k < first + n ==> !m.Readable(k)
    ensures Joined(m, first, n) == Joined(m, first, c)
    decreases n
  {
    if c < n { JoinedStops(m, first, c, n - 1); }
  }

  /**
  Otherwise it may be wrong: with the first of two pages not decrypting, a read of both from
  the head of the first yields the second.
  */
  lemma GapCloses(m: Image)
    requires m.Mapped(0) && !m.Readable(0) && m.Readable(1)
    ensures MappedFrom(m, 0, Visits(2 * VPAGE)) && Gathered(m, 0, 2 * VPAGE) == m.Contents(1)
    ensures !IsSlice(m, 0, Gathered(m, 0, 2 * VPAGE))
  {
    assert Visits(2 * VPAGE) == 2;
    assert Joined(m, 0, 0) == [] && Joined(m, 0, 1) == [];
    assert Joined(m, 0, 2) == Joined(m, 0, 1) + m.Contents(1) == m.Contents(1);
    var data := Gathered(m, 0, 2 * VPAGE);
    assert !IsByte(m, 0 + 0, data[0]);
  }

  /** Keys that start at the head of a page or lie inside one page are read whole. */
  lemma UsualKeys(start: nat, len: nat)
    requires start % VPAGE == 0 || start % VPAGE + len <= VPAGE
    ensures Got(start, len) == len
  {}

  /** A key of 4064 bytes that starts one byte into a page loses its last byte. */
  lemma TruncatedKey(m: Image)
    requires m.Readable(0)
    ensures |Gathered(m, 1, VPAGE)| == VPAGE - 1
  {
    hide Window, Joined;
    AllReadableSlice(m, 1, VPAGE);
  }
}
