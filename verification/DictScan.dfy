/**
The dictionary scanner of the PDDB image decoder (tools/pddbcommon.py, class BasisDicts). It
walks the key slots of a dictionary in order, decrypts a page only when the slot index within
the page goes down, and jumps over pages that are not allocated. A slot is a key descriptor
(class KeyDescriptor), whose data are gathered as in KeyReader. How the bytes of a name become
text is left open.
*/
module DictScan {
  import opened Bits
  import opened Bytes
  import opened KeyReader
  import opened Options

  const STRIDE: nat := 0xFE_0000
  const SLOT: nat := 127
  const PER_PAGE: nat := 32        // VPAGE / SLOT
  const LAST: nat := 131071

  /** A slot is no key, a key, or a key whose data pages are missing. */
  datatype Outcome = NoKey | Key(name: string, data: seq<byte>) | MissingData

  // ----- where slots lie

  function SlotAddress(dict: nat, slot: nat): nat { STRIDE * (dict + 1) + slot * SLOT }

  function SlotPage(dict: nat, slot: nat): nat { SlotAddress(dict, slot) / VPAGE }

  /** Offset of the slot in the decrypted page, behind the four bytes of the journal number. */
  function KeyIndex(slot: nat): nat { 4 + slot % PER_PAGE * SLOT }

  /** A slot lies inside one page, at the offset the scanner computes. */
  lemma SlotInPage(dict: nat, slot: nat)
    ensures SlotPage(dict, slot) == 4096 * (dict + 1) + slot / PER_PAGE
    ensures SlotAddress(dict, slot) % VPAGE == KeyIndex(slot) - 4
    ensures KeyIndex(slot) - 4 + SLOT <= VPAGE
  {
    var q, r := slot / PER_PAGE, slot % PER_PAGE;
    assert slot == q * PER_PAGE + r;
    assert SlotAddress(dict, slot) == (4096 * (dict + 1) + q) * VPAGE + r * SLOT;
    PageOf(4096 * (dict + 1) + q, r * SLOT);
  }

  /** Every address from the first dictionary on belongs to a slot of some dictionary. */
  lemma SlotsTile(a: nat)
    requires a >= STRIDE
    ensures exists dict: nat, slot: nat ::
      slot <= LAST && SlotAddress(dict, slot) <= a < SlotAddress(dict, slot) + SLOT
  {
    var dict, rest := a / STRIDE - 1, a % STRIDE;
    var slot := rest / SLOT;
    assert SlotAddress(dict, slot) <= a < SlotAddress(dict, slot) + SLOT;
  }

  /** And to no other. */
  lemma SlotsDisjoint(a: nat, dict: nat, slot: nat, dict': nat, slot': nat)
    requires slot <= LAST && slot' <= LAST
    requires SlotAddress(dict, slot) <= a < SlotAddress(dict, slot) + SLOT
    requires SlotAddress(dict', slot') <= a < SlotAddress(dict', slot') + SLOT
    ensures dict == dict' && slot == slot'
  {
    assert a / STRIDE == dict + 1 && a / STRIDE == dict' + 1;
  }

  // ----- the straightforward scan

  function Record(page: PageData, slot: nat): (r: seq<byte>)
    ensures |r| == SLOT
  {
    page[slot % PER_PAGE * SLOT..][..SLOT]
  }

  /** Keys so far, how many were counted, and the page that was decrypted last. */
  datatype Tally = Tally(keys: map<string, seq<byte>>, found: nat, page: PageData)

  function Enter(t: Tally, o: Outcome): Tally {
    match o
    case Key(name, data) => t.(keys := t.keys[name := data], found := t.found + 1)
    case _ => t
  }

  /** The fields of a key descriptor. */
  datatype Descriptor =
    Descriptor(start: nat, len: nat, reserved: nat, flags: nat, age: nat, name: seq<byte>)
  {
    predicate Fits() {
      && start < Pow2(64) && len < Pow2(64) && reserved < Pow2(64) && flags < Pow2(32) && age < Pow2(32)
      && 33 + |name| <= SLOT
    }

    function Numbers(): (r: seq<byte>)
      ensures |r| == 32
    {
      ToLittle(start, 8) + ToLittle(len, 8) + ToLittle(reserved, 8) + ToLittle(flags, 4) + ToLittle(age, 4)
    }

    /** The descriptor as it lies in a slot, filled up with zeros. */
    function Bytes(): (r: seq<byte>)
      requires Fits()
      ensures |r| == SLOT
    {
      Numbers() + [|name|] + name + seq(SLOT - 33 - |name|, _ => 0)
    }

    lemma Fields()
      requires Fits()
      ensures var r := Bytes();
              && FromLittle(r[0..8]) == start && FromLittle(r[8..16]) == len && FromLittle(r[24..28]) == flags
              && Window(r, 33, r[32]) == name
    {
      hide ToLittle, FromLittle, Pow2;
      var r, n := Bytes(), Numbers();
      FromToLittle(start, 8);
      FromToLittle(len, 8);
      FromToLittle(flags, 4);
      assert n[0..8] == ToLittle(start, 8) && n[8..16] == ToLittle(len, 8) && n[24..28] == ToLittle(flags, 4);
      assert r[0..8] == n[0..8] && r[8..16] == n[8..16] && r[24..28] == n[24..28];
    }
  }

  /** A fixed dictionary of a fixed image, and how names are decoded. */
  datatype Source = Source(m: Image, dict: nat, decode: seq<byte> -> string) {

    /**
    The key descriptor in a slot: start and length of the data, flags, and the name with its
    length in front. Bit 0 of the flags says that there is a key.
    */
    function Parse(record: seq<byte>): Outcome
      requires |record| == SLOT
    {
      var start, len := FromLittle(record[0..8]), FromLittle(record[8..16]);
      if FromLittle(record[24..28]) % 2 == 0 then NoKey
      else if !MappedFrom(m, start / VPAGE, Visits(len)) then MissingData
      else Key(decode(Window(record, 33, record[32])), Gathered(m, start, len))
    }

    /** The number of keys that the header of the dictionary announces. */
    function NumKeys(): nat
      requires Readable(0)
    {
      FromLittle(m.Contents(SlotPage(dict, 0))[8..12])
    }

    predicate Mapped(slot: nat) { m.Mapped(SlotPage(dict, slot)) }

    predicate Readable(slot: nat) { m.Readable(SlotPage(dict, slot)) }

    /** What a descriptor written field by field means. */
    lemma ParseDescriptor(d: Descriptor)
      requires d.Fits()
      ensures Parse(d.Bytes())
           == if d.flags % 2 == 0 then NoKey
              else if !MappedFrom(m, d.start / VPAGE, Visits(d.len)) then MissingData
              else Key(decode(d.name), Gathered(m, d.start, d.len))
    {
      var r := d.Bytes();
      d.Fields();
      hide Descriptor.Bytes, FromLittle, Gathered, MappedFrom, Visits;
    }

    /** The header of a dictionary, written field by field, announces the count in its third word. */
    lemma AnnouncedCount(flags: nat, age: nat, count: nat, rest: seq<byte>)
      requires Readable(0) && flags < Pow2(32) && age < Pow2(32) && count < Pow2(32)
      requires m.Contents(SlotPage(dict, 0)) == ToLittle(flags, 4) + ToLittle(age, 4) + ToLittle(count, 4) + rest
      ensures NumKeys() == count
    {
      hide ToLittle, FromLittle, Pow2;
      FromToLittle(count, 4);
      assert m.Contents(SlotPage(dict, 0))[8..12] == ToLittle(count, 4);
    }

    /**
    One slot on its own. A slot of a readable page is read from that page. In a page that
    is allocated but does not decrypt, all slots are passed over except the last one, which
    is read from whatever page was decrypted before.
    */
    function Visit(t: Tally, slot: nat): Tally {
      if !Mapped(slot) then t
      else if Readable(slot) then
        var page := m.Contents(SlotPage(dict, slot));
        Enter(t.(page := page), Parse(Record(page, slot)))
      else if slot % PER_PAGE == PER_PAGE - 1 then Enter(t, Parse(Record(t.page, slot)))
      else t
    }

    /** All slots from `slot` on, one after the other, until `wanted` keys were counted. */
    function VisitAll(t: Tally, slot: nat, wanted: nat): Tally
      decreases LAST - slot
    {
      if slot >= LAST || t.found >= wanted then t else VisitAll(Visit(t, slot), slot + 1, wanted)
    }

    /** Passing over the rest of a page that is not allocated changes nothing. */
    lemma {:induction false} SkipPage(t: Tally, slot: nat, end: nat, wanted: nat)
      requires slot <= end && !Mapped(slot) && slot / PER_PAGE == (end - 1) / PER_PAGE && slot < end
      ensures VisitAll(t, slot, wanted) == VisitAll(t, end, wanted)
      decreases end - slot
    {
      SlotInPage(dict, slot);
      SlotInPage(dict, slot + 1);
      if slot + 1 < end && slot < LAST && t.found < wanted {
        SkipPage(t, slot + 1, end, wanted);
      }
    }

    // ----- what the scan finds

    /** The meaning of a slot, read from its own page. */
    function Meaning(slot: nat): Outcome {
      if Readable(slot) then Parse(Record(m.Contents(SlotPage(dict, slot)), slot)) else NoKey
    }

    /** How many of the slots from `slot` up to `end` hold a key. */
    function Keys(slot: nat, end: nat): nat
      decreases end - slot
    {
      if slot >= end then 0 else (if Meaning(slot).Key? then 1 else 0) + Keys(slot + 1, end)
    }

    /** The last slot of an allocated page that does not decrypt is read from the page before. */
    predicate IsStale(page: PageData, slot: nat) {
      Mapped(slot) && !Readable(slot) && slot % PER_PAGE == PER_PAGE - 1 && Parse(Record(page, slot)).Key?
    }

    function NextPage(page: PageData, slot: nat): PageData {
      if Readable(slot) then m.Contents(SlotPage(dict, slot)) else page
    }

    /** How many slots from `slot` up to `end` are counted by mistake, with `page` in the cache. */
    function Stale(page: PageData, slot: nat, end: nat): nat
      decreases end - slot
    {
      if slot >= end then 0
      else (if IsStale(page, slot) then 1 else 0) + Stale(NextPage(page, slot), slot + 1, end)
    }

    lemma VisitCounts(t: Tally, slot: nat)
      ensures Visit(t, slot).page == NextPage(t.page, slot) && !(Meaning(slot).Key? && IsStale(t.page, slot))
      ensures Visit(t, slot).found
           == t.found + (if Meaning(slot).Key? then 1 else 0) + (if IsStale(t.page, slot) then 1 else 0)
    {
      hide Record;
    }

    /** The scan counts the keys and the mistakes, up to as many as it wants. */
    lemma {:induction false} FoundCount(t: Tally, slot: nat, wanted: nat)
      requires t.found <= wanted
      ensures var all := t.found + Keys(slot, LAST) + Stale(t.page, slot, LAST);
              VisitAll(t, slot, wanted).found == if all < wanted then all else wanted
      decreases LAST - slot
    {
      hide Visit, Meaning, IsStale, NextPage;
      if slot < LAST && t.found < wanted {
        VisitCounts(t, slot);
        FoundCount(Visit(t, slot), slot + 1, wanted);
      }
    }

    /** So the count is right exactly if there are keys enough or there is no mistake. */
    lemma CountRightIff(t: Tally, slot: nat, wanted: nat)
      requires t.found == 0
      ensures VisitAll(t, slot, wanted).found == (if Keys(slot, LAST) < wanted then Keys(slot, LAST) else wanted)
         <==> Keys(slot, LAST) >= wanted || Stale(t.page, slot, LAST) == 0
    {
      hide VisitAll, Keys, Stale;
      FoundCount(t, slot, wanted);
    }

    // ----- which keys are reported

    /** The last record of the cached page is among the keys, once its page has been left. */
    ghost predicate Settled(t: Tally, slot: nat) {
      if slot % PER_PAGE != 0 && Readable(slot) then t.page == m.Contents(SlotPage(dict, slot))
      else
        var o := Parse(Record(t.page, PER_PAGE - 1));
        o.Key? ==> o.name in t.keys && t.keys[o.name] == o.data
    }

    /** A mistake enters a key that is there already, so the keys are those of the slots. */
    lemma VisitEnters(t: Tally, slot: nat)
      requires Settled(t, slot)
      ensures Settled(Visit(t, slot), slot + 1)
      ensures Visit(t, slot).keys == Enter(t, Meaning(slot)).keys
    {
      SlotInPage(dict, slot);
      SlotInPage(dict, slot + 1);
      if slot % PER_PAGE == PER_PAGE - 1 {
        assert forall page :: Record(page, slot) == Record(page, PER_PAGE - 1);
      }
      hide Record, SlotAddress;
    }

    /** The scan starts with the page of the dictionary's header in the cache. */
    function Start(): Tally
      requires Readable(0)
    {
      Tally(map[], 0, m.Contents(SlotPage(dict, 0)))
    }

    lemma StartSettled()
      requires Readable(0)
      ensures Settled(Start(), 1)
    {
      SlotInPage(dict, 0);
      SlotInPage(dict, 1);
    }

    /** Unless it has enough keys, no key slot is missed; of equal names the last one stays. */
    lemma {:induction false} NoKeyMissed(t: Tally, slot: nat, wanted: nat, k: nat)
      requires Settled(t, slot) && slot <= k < LAST && Meaning(k).Key?
      requires t.found <= wanted && VisitAll(t, slot, wanted).found < wanted
      ensures Meaning(k).name in VisitAll(t, slot, wanted).keys
      ensures (forall j :: k < j < LAST && Meaning(j).Key? ==> Meaning(j).name != Meaning(k).name) ==>
        VisitAll(t, slot, wanted).keys[Meaning(k).name] == Meaning(k).data
      decreases LAST - slot
    {
      hide Visit, Meaning, Settled, IsStale, NextPage;
      VisitEnters(t, slot);
      VisitCounts(t, slot);
      FoundCount(t, slot, wanted);
      if slot < k {
        NoKeyMissed(Visit(t, slot), slot + 1, wanted, k);
      } else {
        KeyStays(Visit(t, slot), slot + 1, wanted, Meaning(k).name);
      }
    }

    lemma {:induction false} KeyStays(t: Tally, slot: nat, wanted: nat, name: string)
      requires Settled(t, slot) && name in t.keys
      ensures name in VisitAll(t, slot, wanted).keys
      ensures (forall j :: slot <= j < LAST && Meaning(j).Key? ==> Meaning(j).name != name) ==>
        VisitAll(t, slot, wanted).keys[name] == t.keys[name]
      decreases LAST - slot
    {
      hide Visit, Meaning, Settled;
      if slot < LAST && t.found < wanted {
        VisitEnters(t, slot);
        KeyStays(Visit(t, slot), slot + 1, wanted, name);
      }
    }

    /** Nothing but the contents of key slots is reported. */
    lemma {:induction false} OnlyKeysReported(t: Tally, slot: nat, wanted: nat, name: string)
      requires Settled(t, slot) && name in VisitAll(t, slot, wanted).keys
      ensures (name in t.keys && VisitAll(t, slot, wanted).keys[name] == t.keys[name])
           || exists k :: slot <= k < LAST && Meaning(k) == Key(name, VisitAll(t, slot, wanted).keys[name])
      decreases LAST - slot
    {
      hide Visit, Meaning, Settled;
      if slot < LAST && t.found < wanted {
        VisitEnters(t, slot);
        OnlyKeysReported(Visit(t, slot), slot + 1, wanted, name);
      }
    }

    /** The name of slot `k` is no other slot's, and not among the keys yet. */
    ghost predicate OnlyAt(t: Tally, slot: nat, k: nat) {
      && slot <= k < LAST && Meaning(k).Key? && Meaning(k).name !in t.keys
      && forall j :: slot <= j < LAST && j != k && Meaning(j).Key? ==> Meaning(j).name != Meaning(k).name
    }

    /** A key is reported exactly if the keys and mistakes before it leave room for it. */
    lemma {:induction false} ReportedIff(t: Tally, slot: nat, wanted: nat, k: nat)
      requires Settled(t, slot) && OnlyAt(t, slot, k)
      ensures Meaning(k).name in VisitAll(t, slot, wanted).keys
         <==> t.found + Keys(slot, k) + Stale(t.page, slot, k) < wanted
      decreases k - slot
    {
      hide Visit, Meaning, Settled, IsStale, NextPage;
      if t.found < wanted {
        VisitEnters(t, slot);
        VisitCounts(t, slot);
        if slot < k {
          ReportedIff(Visit(t, slot), slot + 1, wanted, k);
        } else {
          KeyStays(Visit(t, slot), slot + 1, wanted, Meaning(k).name);
        }
      }
    }

    /**
    A key in the last slot of a page, in front of an allocated page that does not decrypt,
    is counted by mistake once more wherever the scan began before it.
    */
    lemma {:induction false} StaleAfter(page: PageData, slot: nat, last: nat, end: nat)
      requires last % PER_PAGE == PER_PAGE - 1 && Readable(last) && Meaning(last).Key?
      requires Mapped(last + PER_PAGE) && !Readable(last + PER_PAGE)
      requires slot <= last || (slot <= last + PER_PAGE && page == m.Contents(SlotPage(dict, last)))
      requires last + PER_PAGE < end
      ensures Stale(page, slot, end) >= 1
      decreases last + PER_PAGE - slot
    {
      if slot == last + PER_PAGE {
        assert Record(page, slot) == Record(page, last);
      } else {
        SamePage(slot, last);
        StaleAfter(NextPage(page, slot), slot + 1, last, end);
      }
    }

    lemma SamePage(slot: nat, last: nat)
      requires last % PER_PAGE == PER_PAGE - 1 && slot <= last + PER_PAGE
      ensures slot > last ==> SlotPage(dict, slot) == SlotPage(dict, last + PER_PAGE)
    {
      if slot > last {
        SlotInPage(dict, slot);
        SlotInPage(dict, last + PER_PAGE);
      }
    }

    /** Then a whole scan that wants more than there is reports a count that is too high. */
    lemma CountedTwice(t: Tally, slot: nat, last: nat, wanted: nat)
      requires t.found == 0 && slot <= last && last + PER_PAGE < LAST
      requires last % PER_PAGE == PER_PAGE - 1 && Readable(last) && Meaning(last).Key?
      requires Mapped(last + PER_PAGE) && !Readable(last + PER_PAGE)
      requires Keys(slot, LAST) < wanted
      ensures Keys(slot, LAST) < VisitAll(t, slot, wanted).found
    {
      StaleAfter(t.page, slot, last, LAST);
      FoundCount(t, slot, wanted);
      hide Keys, Stale, VisitAll;
    }

    lemma {:induction false} KeysAt(slot: nat, k: nat, end: nat)
      requires slot <= k < end && Meaning(k).Key?
      ensures Keys(slot, end) >= 1
      decreases k - slot
    {
      hide Meaning;
      if slot < k { KeysAt(slot + 1, k, end); }
    }

    /**
    And a scan for two keys is content without the second one: it has the number it wants,
    and a key of the dictionary is missing.
    */
    lemma StopsShort(t: Tally, slot: nat, last: nat, k: nat)
      requires Settled(t, slot) && t.found == 0 && slot <= last && last + PER_PAGE < k && OnlyAt(t, slot, k)
      requires last % PER_PAGE == PER_PAGE - 1 && Readable(last) && Meaning(last).Key?
      requires Mapped(last + PER_PAGE) && !Readable(last + PER_PAGE)
      ensures Meaning(k).name !in VisitAll(t, slot, 2).keys
      ensures VisitAll(t, slot, 2).found == 2
    {
      StaleAfter(t.page, slot, last, k);
      StaleAfter(t.page, slot, last, LAST);
      KeysAt(slot, last, k);
      KeysAt(slot, last, LAST);
      ReportedIff(t, slot, 2, k);
      FoundCount(t, slot, 2);
      hide Keys, Stale, VisitAll;
    }
  }

  // ----- a dictionary that is scanned wrongly

  /** A page with one key, in slot `at`, without data and with a name of one byte; `count` is for the header. */
  function OneKeyPage(at: nat, name: byte, count: byte): PageData {
    seq(VPAGE, i => if i == at * SLOT + 24 || i == at * SLOT + 32 then 1
                    else if i == at * SLOT + 33 then name
                    else if i == 8 then count else 0)
  }

  function ThreePages(pp: nat): Option<PageData> {
    if pp == 0 then Some(OneKeyPage(31, 0x41, 2)) else if pp == 2 then Some(OneKeyPage(0, 0x42, 0)) else None
  }

  const THREE: Image := Image(map[4096 * VPAGE := 0, 4097 * VPAGE := 1, 4098 * VPAGE := 2], ThreePages)

  /**
  Three pages: the header, which announces two keys, with key A in the last slot of its page;
  no plaintext for the second page; key B in the first slot of the third.
  */
  function Lossy(decode: seq<byte> -> string): Source { Source(THREE, 0, decode) }

  lemma LossySlots(decode: seq<byte> -> string, slot: nat)
    ensures SlotPage(0, slot) == 4096 + slot / PER_PAGE
    ensures Lossy(decode).Mapped(slot) <==> slot < 96
    ensures Lossy(decode).Readable(slot) <==> slot < 32 || 64 <= slot < 96
    ensures Lossy(decode).Meaning(slot)
         == if slot == 31 then Key(decode([0x41]), []) else if slot == 64 then Key(decode([0x42]), []) else NoKey
  {
    SlotInPage(0, slot);
    LossyPage(slot / PER_PAGE);
    LossyRecord(Lossy(decode), 31, 0x41, 2, slot);
    LossyRecord(Lossy(decode), 0, 0x42, 0, slot);
    hide Source.Parse, Record, OneKeyPage, SlotAddress;
  }

  lemma LossyPage(q: nat)
    ensures (4096 + q) * VPAGE in THREE.v2p <==> q < 3
    ensures q < 3 ==> THREE.v2p[(4096 + q) * VPAGE] == q
  {}

  lemma LossyRecord(src: Source, at: nat, name: byte, count: byte, slot: nat)
    requires at < PER_PAGE && (at == 0 ==> count == 0)
    ensures src.Parse(Record(OneKeyPage(at, name, count), slot))
         == if slot % PER_PAGE == at then Key(src.decode([name]), []) else NoKey
  {
    var r, i := Record(OneKeyPage(at, name, count), slot), slot % PER_PAGE;
    RecordBytes(at, name, count, slot);
    hide OneKeyPage, Record;
    LowBit(r[24..28]);
    if i == at {
      ZeroBytes(r[0..8]);
      ZeroBytes(r[8..16]);
      assert Window(r, 33, 1) == [name];
      assert Gathered(src.m, 0, 0) == [];
    }
  }

  lemma RecordBytes(at: nat, name: byte, count: byte, slot: nat)
    requires at < PER_PAGE && (at == 0 ==> count == 0)
    ensures var r := Record(OneKeyPage(at, name, count), slot);
            if slot % PER_PAGE == at
            then r[24] == 1 && r[32] == 1 && r[33] == name && forall k :: 0 <= k < 16 ==> r[k] == 0
            else r[24] == 0
  {
    var i := slot % PER_PAGE;
    var page := OneKeyPage(at, name, count);
    var r := Record(page, slot);
    assert forall k :: 0 <= k < SLOT ==> r[k] == page[i * SLOT + k];
  }

  lemma LowBit(s: seq<byte>)
    requires s != []
    ensures FromLittle(s) % 2 == s[0] % 2
  {
    var rest := FromLittle(s[1..]);
    assert FromLittle(s) == s[0] + 2 * (128 * rest);
  }

  lemma {:induction false} ZeroBytes(s: seq<byte>)
    requires forall k :: 0 <= k < |s| ==> s[k] == 0
    ensures FromLittle(s) == 0
  {
    if s != [] { ZeroBytes(s[1..]); }
  }

  /** The header announces two keys. */
  lemma LossyHeader(decode: seq<byte> -> string)
    ensures Lossy(decode).Readable(0) && Lossy(decode).NumKeys() == 2
  {
    LossySlots(decode, 0);
    LossyPage(0);
    var page := OneKeyPage(31, 0x41, 2);
    var field := page[8..12];
    assert field[0] == 2;
    ZeroBytes(field[1..]);
  }

  /**
  The scan of that dictionary ends with the announced number of keys and without key B, under
  any decoding of names that tells the two apart.
  */
  lemma LossyScan(decode: seq<byte> -> string)
    requires decode([0x41]) != decode([0x42])
    ensures Lossy(decode).Readable(0) && Lossy(decode).Meaning(64) == Key(decode([0x42]), [])
    ensures var t := Lossy(decode).VisitAll(Lossy(decode).Start(), 1, Lossy(decode).NumKeys());
            t.found == Lossy(decode).NumKeys() && decode([0x42]) !in t.keys
  {
    var src := Lossy(decode);
    forall slot: nat ensures src.Meaning(slot)
      == if slot == 31 then Key(decode([0x41]), []) else if slot == 64 then Key(decode([0x42]), []) else NoKey
    {
      LossySlots(decode, slot);
    }
    LossyHeader(decode);
    LossySlots(decode, 1);
    LossySlots(decode, 31);
    LossySlots(decode, 63);
    LossySlots(decode, 64);
    var t := src.Start();
    src.StartSettled();
    hide Source.Meaning, Source.Mapped, Source.Readable, Source.Settled, Source.NumKeys, SlotPage;
    assert src.OnlyAt(t, 1, 64);
    src.StopsShort(t, 1, 31, 64);
  }

  // ----- the scan as it runs

  /** The largest slot index within a page, as the scanner counts it. */
  const TOP: nat := 3941  // 4 + 31 * SLOT

  /**
  What the remembered index says about the remembered page, before slot `slot` is tried: at
  the head of a page the index is the largest one; inside a page that decrypts it is the
  previous one and the page is in the cache; inside one that does not it stays the largest.
  */
  ghost predicate CacheFits(src: Source, slot: nat, prev: int, cached: PageData)
    requires slot > 0
  {
    if slot % PER_PAGE == 0 then prev == TOP
    else
      && src.Mapped(slot)
      && if src.Readable(slot)
         then
           && cached == src.m.Contents(SlotPage(src.dict, slot))
           && prev == (if slot == 1 then 128 else KeyIndex(slot - 1))
         else prev == TOP
  }

  /** One turn on an allocated page keeps the cache fitting. */
  lemma CacheStep(src: Source, slot: nat, prev: int, cached: PageData)
    requires slot > 0 && src.Mapped(slot) && CacheFits(src, slot, prev, cached)
    ensures src.Readable(slot) ==>
      (KeyIndex(slot) < prev || cached == src.m.Contents(SlotPage(src.dict, slot)))
    ensures src.Readable(slot) ==>
      CacheFits(src, slot + 1, KeyIndex(slot), src.m.Contents(SlotPage(src.dict, slot)))
    ensures !src.Readable(slot) ==> prev == TOP && CacheFits(src, slot + 1, TOP, cached)
    ensures !src.Readable(slot) ==> (KeyIndex(slot) < prev <==> slot % PER_PAGE != PER_PAGE - 1)
  {
    SlotInPage(src.dict, slot);
    SlotInPage(src.dict, slot + 1);
  }

  /**
  The scan refines the slot-by-slot one: remembering a page and jumping ahead by 32 lose
  nothing, whatever decrypts and whatever is allocated.
  */
  method Scan(src: Source, wanted: nat) returns (keys: map<string, seq<byte>>, found: nat)
    requires src.Readable(0)
    ensures var t := src.VisitAll(src.Start(), 1, wanted); keys == t.keys && found == t.found
  {
    hide CacheFits, SlotAddress, Record, Source.Visit;
    var ptData := src.m.Contents(SlotPage(src.dict, 0));
    keys, found := map[], 0;
    var keysTried: nat := 1;
    var prevIndex := 128;
    ghost var goal := src.VisitAll(Tally(map[], 0, ptData), 1, wanted);
    CacheStart(src);
    while found < wanted && keysTried < LAST
      invariant keysTried > 0
      invariant CacheFits(src, keysTried, prevIndex, ptData)
      invariant src.VisitAll(Tally(keys, found, ptData), keysTried, wanted) == goal
      decreases LAST - keysTried
    {
      ghost var t := Tally(keys, found, ptData);
      var base := SlotAddress(src.dict, keysTried) / VPAGE * VPAGE;
      assert base == SlotPage(src.dict, keysTried) * VPAGE;
      if base !in src.m.v2p {
        AtPageHead(src, keysTried, prevIndex, ptData);
        src.SkipPage(t, keysTried, keysTried + PER_PAGE, wanted);
        keysTried := keysTried + VPAGE / SLOT;
        continue;
      }
      keys, found, ptData, prevIndex := TrySlot(src, base, keysTried, keys, found, ptData, prevIndex);
      assert src.VisitAll(t, keysTried, wanted) == src.VisitAll(src.Visit(t, keysTried), keysTried + 1, wanted);
      keysTried := keysTried + 1;
    }
  }

  /** One turn of the loop on an allocated page. */
  method TrySlot(src: Source, base: nat, slot: nat, keys: map<string, seq<byte>>, found: nat,
                 cached: PageData, prev: int)
    returns (keys': map<string, seq<byte>>, found': nat, cached': PageData, prev': int)
    requires slot > 0 && base == SlotPage(src.dict, slot) * VPAGE && base in src.m.v2p
    requires CacheFits(src, slot, prev, cached)
    ensures Tally(keys', found', cached') == src.Visit(Tally(keys, found, cached), slot)
    ensures CacheFits(src, slot + 1, prev', cached')
  {
    hide CacheFits, SlotAddress, Record, KeyIndex;
    keys', found', cached', prev' := keys, found, cached, prev;
    CacheStep(src, slot, prev, cached);
    var keyIndex := KeyIndex(slot);
    var page := Some(cached);
    if keyIndex < prev {
      page := src.m.plain(src.m.v2p[base]);
    }
    if page.Some? {
      cached' := page.value;
      prev' := keyIndex;
      var o := Describe(src, Record(cached', slot));
      match o {
        case Key(name, data) =>
          keys' := keys[name := data];
          found' := found + 1;
        case _ =>
      }
    }
    LastIndex(slot);
  }

  /** Reading a descriptor, and the data if there is a key. */
  method Describe(src: Source, record: seq<byte>) returns (o: Outcome)
    requires |record| == SLOT
    ensures o == src.Parse(record)
  {
    hide FromLittle, Gathered, MappedFrom;
    var start, len := FromLittle(record[0..8]), FromLittle(record[8..16]);
    var flagsCode := FromLittle(record[24..28]);
    var name := src.decode(Window(record, 33, record[32]));
    if flagsCode % 2 == 0 { return NoKey; }
    var r := ReadKey(src.m, start, len);
    o := if r.Data? then Key(name, r.bytes) else MissingData;
  }

  lemma LastIndex(slot: nat)
    ensures slot % PER_PAGE == PER_PAGE - 1 ==> KeyIndex(slot) == TOP
  {}

  lemma CacheStart(src: Source)
    requires src.Readable(0)
    ensures CacheFits(src, 1, 128, src.m.Contents(SlotPage(src.dict, 0)))
  {
    SlotInPage(src.dict, 0);
    SlotInPage(src.dict, 1);
  }

  /** The jump by 32 is only ever taken from the head of a page to the head of the next. */
  lemma AtPageHead(src: Source, slot: nat, prev: int, cached: PageData)
    requires slot > 0 && CacheFits(src, slot, prev, cached) && !src.Mapped(slot)
    ensures slot % PER_PAGE == 0 && CacheFits(src, slot + PER_PAGE, prev, cached)
    ensures slot / PER_PAGE == (slot + PER_PAGE - 1) / PER_PAGE
  {}
}
