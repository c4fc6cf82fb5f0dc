/**
The free-space table of the PDDB image decoder and the journalled updates replayed onto it
(tools/pddbcommon.py, PhysPage, Fscb, SpaceUpdate and decode_fscb). Decryption of an update
entry is any function from 16 bytes to 16 bytes, and decryption of the table is any partial
function.
*/
module FreeSpace {
  import opened Bits
  import opened Murmur
  import opened Options

  // ----- one physical page word

  function PageNumber(pp: nat): nat { pp % 0x10_0000 }

  predicate PageValid(pp: nat) { pp / 0x20_0000 % 2 == 1 }

  function Journal(pp: nat): nat { pp / 0x100_0000 % 16 }

  function PageAddress(pp: nat): nat { PageNumber(pp) * 4096 }

  /** A page word put together from its fields. */
  function PageWord(page: nat, clean: nat, valid: nat, state: nat, journal: nat, spare: nat): nat {
    page + 0x10_0000 * clean + 0x20_0000 * valid + 0x40_0000 * state + 0x100_0000 * journal + 0x1000_0000 * spare
  }

  lemma PageWordFields(page: nat, clean: nat, valid: nat, state: nat, journal: nat, spare: nat)
    requires page < 0x10_0000 && clean < 2 && valid < 2 && state < 4 && journal < 16 && spare < 16
    ensures var pp := PageWord(page, clean, valid, state, journal, spare);
            PageNumber(pp) == page && (PageValid(pp) <==> valid == 1) && Journal(pp) == journal
  {
    var pp := PageWord(page, clean, valid, state, journal, spare);
    var a := clean + 2 * valid + 4 * state + 16 * journal + 256 * spare;
    DivModUnique(pp, a, page, 0x10_0000);
    var b := valid + 2 * state + 8 * journal + 128 * spare;
    DivModUnique(pp, b, page + 0x10_0000 * clean, 0x20_0000);
    DivModUnique(b, state + 4 * journal + 64 * spare, valid, 2);
    var c := journal + 16 * spare;
    DivModUnique(pp, c, page + 0x10_0000 * clean + 0x20_0000 * valid + 0x40_0000 * state, 0x100_0000);
    DivModUnique(c, spare, journal, 16);
  }

  /** The table: page address to page word. */
  type Table = map<nat, nat>

  /** Every page is filed under its own address, and only valid pages are filed. */
  ghost predicate Filed(t: Table) {
    forall a :: a in t ==> a == PageAddress(t[a]) && PageValid(t[a])
  }

  datatype Update = Update(ok: bool, pp: nat)

  /** An update that may replace the entry at address `a`. */
  predicate Applies(u: Update, a: nat) { u.ok && PageValid(u.pp) && PageAddress(u.pp) == a }

  // ----- building and replaying

  function TryReplace(t: Table, u: Update): Table {
    var a := PageAddress(u.pp);
    if u.ok && a in t && PageValid(u.pp) && Journal(t[a]) < Journal(u.pp) then t[a := u.pp] else t
  }

  function Replay(t: Table, log: seq<Update>): Table {
    if log == [] then t else TryReplace(Replay(t, log[..|log| - 1]), log[|log| - 1])
  }

  function Load(raw: seq<nat>): Table {
    if raw == [] then map[]
    else
      var t, pp := Load(raw[..|raw| - 1]), raw[|raw| - 1];
      if PageValid(pp) then t[PageAddress(pp) := pp] else t
  }

  lemma {:induction false} LoadFiled(raw: seq<nat>)
    ensures Filed(Load(raw))
  {
    if raw != [] { LoadFiled(raw[..|raw| - 1]); }
  }

  /** The last valid word for a page wins, and a page is tracked only if it has one. */
  lemma {:induction false} LoadLast(raw: seq<nat>, a: nat)
    ensures a in Load(raw) <==> exists i :: 0 <= i < |raw| && PageValid(raw[i]) && PageAddress(raw[i]) == a
    ensures a in Load(raw) ==>
      exists i :: 0 <= i < |raw| && PageValid(raw[i]) && PageAddress(raw[i]) == a && Load(raw)[a] == raw[i]
               && forall j :: i < j < |raw| && PageValid(raw[j]) ==> PageAddress(raw[j]) != a
  {
    hide PageValid, PageAddress;
    if raw != [] {
      var init, pp := raw[..|raw| - 1], raw[|raw| - 1];
      LoadLast(init, a);
      if PageValid(pp) && PageAddress(pp) == a {
        assert raw[|raw| - 1] == pp;
      } else if a in Load(init) {
        var i :| 0 <= i < |init| && PageValid(init[i]) && PageAddress(init[i]) == a && Load(init)[a] == init[i]
              && forall j :: i < j < |init| && PageValid(init[j]) ==> PageAddress(init[j]) != a;
        assert raw[i] == init[i];
      }
    }
  }

  /** Replaying keeps the set of tracked pages and where they are filed. */
  lemma {:induction false} ReplayFiled(t: Table, log: seq<Update>)
    requires Filed(t)
    ensures Replay(t, log).Keys == t.Keys && Filed(Replay(t, log))
  {
    hide PageValid, PageAddress, Journal;
    if log != [] { ReplayFiled(t, log[..|log| - 1]); }
  }

  // ----- which record survives

  /** The words that compete for address `a`: the one on file, then the applicable updates in order. */
  function Contenders(t: Table, log: seq<Update>, a: nat): (xs: seq<nat>)
    requires a in t
    ensures |xs| > 0 && xs[0] == t[a]
  {
    if log == [] then [t[a]]
    else
      var u := log[|log| - 1];
      var xs := Contenders(t, log[..|log| - 1], a);
      if Applies(u, a) then xs + [u.pp] else xs
  }

  /** `xs[i]` has the highest journal, and is the first one to have it. */
  ghost predicate Wins(xs: seq<nat>, i: nat) {
    && i < |xs|
    && (forall j :: 0 <= j < |xs| ==> Journal(xs[j]) <= Journal(xs[i]))
    && (forall j :: 0 <= j < i ==> Journal(xs[j]) < Journal(xs[i]))
  }

  /** After any log each page holds its highest-journal valid record, the earliest on ties. */
  lemma {:induction false} ReplayWinner(t: Table, log: seq<Update>, a: nat)
    requires Filed(t) && a in t
    ensures a in Replay(t, log)
    ensures exists i: nat :: Wins(Contenders(t, log, a), i) && Replay(t, log)[a] == Contenders(t, log, a)[i]
  {
    hide PageValid, PageAddress, Journal;
    ReplayFiled(t, log);
    if log == [] {
      assert Wins(Contenders(t, log, a), 0);
    } else {
      var init, u := log[..|log| - 1], log[|log| - 1];
      ReplayWinner(t, init, a);
      ReplayFiled(t, init);
      var ys, xs := Contenders(t, init, a), Contenders(t, log, a);
      var i: nat :| Wins(ys, i) && Replay(t, init)[a] == ys[i];
      if Applies(u, a) {
        var k := if Journal(ys[i]) < Journal(u.pp) then |ys| else i;
        assert Wins(xs, k);
        assert Replay(t, log)[a] == xs[k];
      } else {
        assert Replay(t, log)[a] == Replay(t, init)[a];
      }
    }
  }

  ghost predicate FromLog(log: seq<Update>, a: nat, pp: nat) {
    exists u :: u in log && Applies(u, a) && u.pp == pp
  }

  ghost predicate InTail(xs: seq<nat>, pp: nat) {
    exists i :: 0 < i < |xs| && xs[i] == pp
  }

  /** Behind the word on file, the contenders are the applicable updates. */
  lemma {:induction false} ContenderIff(t: Table, log: seq<Update>, a: nat, pp: nat)
    requires a in t
    ensures FromLog(log, a, pp) <==> InTail(Contenders(t, log, a), pp)
  {
    hide Applies;
    if log != [] {
      var init, u := log[..|log| - 1], log[|log| - 1];
      ContenderIff(t, init, a, pp);
      var ys, xs := Contenders(t, init, a), Contenders(t, log, a);
      if FromLog(log, a, pp) {
        var v :| v in log && Applies(v, a) && v.pp == pp;
        if v in init {
          var i :| 0 < i < |ys| && ys[i] == pp;
          assert xs[i] == pp;
        } else {
          assert v == u;
          assert xs[|xs| - 1] == pp;
        }
      }
      if InTail(xs, pp) {
        var i :| 0 < i < |xs| && xs[i] == pp;
        if i < |ys| {
          assert ys[i] == pp;
          var v :| v in init && Applies(v, a) && v.pp == pp;
        } else {
          assert u in log;
        }
      }
    }
  }

  /** No two applicable updates of one page carry the same journal but different words. */
  ghost predicate DistinctJournals(log: seq<Update>) {
    forall u, v, a :: u in log && v in log && Applies(u, a) && Applies(v, a) && Journal(u.pp) == Journal(v.pp)
      ==> u.pp == v.pp
  }

  /** With distinct journals the outcome depends only on which updates occur, not on their order. */
  lemma ReplayOrder(t: Table, log: seq<Update>, log': seq<Update>)
    requires Filed(t) && DistinctJournals(log)
    requires forall u :: u in log <==> u in log'
    ensures Replay(t, log) == Replay(t, log')
  {
    ReplayFiled(t, log);
    ReplayFiled(t, log');
    forall a | a in t ensures Replay(t, log)[a] == Replay(t, log')[a] {
      SameWinner(t, log, log', a);
    }
  }

  lemma SameWinner(t: Table, log: seq<Update>, log': seq<Update>, a: nat)
    requires Filed(t) && DistinctJournals(log) && a in t
    requires forall u :: u in log <==> u in log'
    ensures a in Replay(t, log) && a in Replay(t, log') && Replay(t, log)[a] == Replay(t, log')[a]
  {
    hide Replay, Contenders, Applies, Journal, Filed;
    ReplayWinner(t, log, a);
    ReplayWinner(t, log', a);
    var xs, ys := Contenders(t, log, a), Contenders(t, log', a);
    var i: nat :| Wins(xs, i) && Replay(t, log)[a] == xs[i];
    var j: nat :| Wins(ys, j) && Replay(t, log')[a] == ys[j];
    Outranks(t, log, log', a, i, j);
    Outranks(t, log', log, a, j, i);
    if i > 0 && j > 0 {
      assert InTail(xs, xs[i]) && InTail(ys, ys[j]);
      ContenderIff(t, log, a, xs[i]);
      ContenderIff(t, log', a, ys[j]);
    }
  }

  /** The winner of one order is beaten by nothing in the other. */
  lemma Outranks(t: Table, log: seq<Update>, log': seq<Update>, a: nat, i: nat, j: nat)
    requires a in t && forall u :: u in log ==> u in log'
    requires Wins(Contenders(t, log, a), i) && Wins(Contenders(t, log', a), j)
    ensures Journal(Contenders(t, log, a)[i]) <= Journal(Contenders(t, log', a)[j])
  {
    hide Contenders, Applies, Journal;
    var xs, ys := Contenders(t, log, a), Contenders(t, log', a);
    if i > 0 {
      assert InTail(xs, xs[i]);
      ContenderIff(t, log, a, xs[i]);
      ContenderIff(t, log', a, xs[i]);
      var k :| 0 < k < |ys| && ys[k] == xs[i];
    } else {
      assert Journal(ys[0]) <= Journal(ys[j]);
    }
  }

  // ----- the decoder

  const BLANK: seq<bv8> :=
    [0xff, 0xff, 0xff, 0xff, 0xff, 0xff, 0xff, 0xff, 0xff, 0xff, 0xff, 0xff, 0xff, 0xff, 0xff, 0xff]

  function Parse(e: seq<bv8>): Update
    requires |e| == 16
  {
    Update(SpaceUpdateValid(e), LittleAt(e, 8) as nat)
  }

  /** Four bytes of a word, the least significant first. */
  function LittleBytes(w: bv32): seq<bv8> {
    [(w & 0xff) as bv8, ((w >> 8) & 0xff) as bv8, ((w >> 16) & 0xff) as bv8, (w >> 24) as bv8]
  }

  lemma LittleBytesBack(w: bv32, b: seq<bv8>, i: nat)
    requires i + 4 <= |b| && b[i..i + 4] == LittleBytes(w)
    ensures LittleAt(b, i) == w
  {
    assert b[i] == b[i..i + 4][0] && b[i + 1] == b[i..i + 4][1];
    assert b[i + 2] == b[i..i + 4][2] && b[i + 3] == b[i..i + 4][3];
  }

  /** The page word of an update lies behind its eight bytes of nonce. */
  lemma ParseWord(nonce: seq<bv8>, w: bv32, checksum: seq<bv8>)
    requires |nonce| == 8 && |checksum| == 4
    ensures Parse(nonce + LittleBytes(w) + checksum).pp == w as nat
  {
    var e := nonce + LittleBytes(w) + checksum;
    assert e[8..12] == LittleBytes(w);
    hide LittleBytes, LittleAt, SpaceUpdateValid;
    LittleBytesBack(w, e, 8);
  }

  type Entry = e: seq<bv8> | |e| == 16 witness BLANK

  /** An erased entry of flash. */
  predicate IsBlank(e: seq<bv8>) { e == BLANK }

  /** `[s[i:i+n] for i in range(0, len(s), n)]`: pieces of `n` bytes, the last one possibly shorter. */
  function Pieces(s: seq<bv8>, n: nat): seq<seq<bv8>>
    requires n > 0
  {
    if s == [] then [] else if |s| <= n then [s] else [s[..n]] + Pieces(s[n..], n)
  }

  /** `s[:n]` */
  function Head(s: seq<bv8>, n: nat): seq<bv8> { if |s| <= n then s else s[..n] }

  /** Told by its first bytes; a page that is too short to be blank holds a table. */
  predicate IsBlankPage(p: seq<bv8>) { Head(p, 32) == BLANK + BLANK }

  predicate IsUpdatePage(p: seq<bv8>) { IsBlank(Head(p, 16)) && !IsBlankPage(p) }

  predicate IsTablePage(p: seq<bv8>) { !IsBlank(Head(p, 16)) && !IsBlankPage(p) }

  /** The updates among the entries of a page, up to the first blank one. */
  function Entries(es: seq<seq<bv8>>, decrypt: Entry -> Entry): seq<Update> {
    if es == [] || IsBlank(es[0]) || |es[0]| != 16 then [] else [Parse(decrypt(es[0]))] + Entries(es[1..], decrypt)
  }

  /** An entry that is not a whole block comes up before a blank one, and the cipher raises. */
  predicate Torn(es: seq<seq<bv8>>) {
    es != [] && !IsBlank(es[0]) && (|es[0]| != 16 || Torn(es[1..]))
  }

  /** What the update pages hold behind their mark, in order. */
  function Bodies(pages: seq<seq<bv8>>): seq<seq<bv8>> {
    if pages == [] then []
    else
      var last := pages[|pages| - 1];
      Bodies(pages[..|pages| - 1]) + (if IsUpdatePage(last) && |last| >= 16 then [last[16..]] else [])
  }

  /** The updates of all these, in order. */
  function Log(bodies: seq<seq<bv8>>, decrypt: Entry -> Entry): seq<Update> {
    if bodies == [] then []
    else Log(bodies[..|bodies| - 1], decrypt) + Entries(Pieces(bodies[|bodies| - 1], 16), decrypt)
  }

  const TABLE_BYTES: nat := 8164  // 2 * 4096 - (12 + 16)

  /** The page words of a decrypted table. */
  function TableWords(dec: seq<bv8>): (raw: seq<nat>)
    requires |dec| == TABLE_BYTES
    ensures |raw| == TABLE_BYTES / 4
  {
    seq(TABLE_BYTES / 4, i requires 0 <= i < TABLE_BYTES / 4 => LittleAt(dec, 4 * i) as nat)
  }

  /** Pieces put together again are the whole, and all but the last are full. */
  lemma {:induction false} PiecesJoined(s: seq<bv8>, n: nat, i: nat)
    requires n > 0 && i < |Pieces(s, n)|
    ensures n * i < |s| && Pieces(s, n)[i] == Head(s[n * i..], n)
    ensures i + 1 < |Pieces(s, n)| <==> n * i + n < |s|
    decreases |s|
  {
    if |s| <= n {
      assert s[0..] == s;
    } else if i == 0 {
      assert s[0..] == s;
    } else {
      PiecesJoined(s[n..], n, i - 1);
      assert n * i == n + n * (i - 1);
      assert s[n..][n * (i - 1)..] == s[n * i..];
    }
  }

  /** The updates are the decrypted entries in front of the first one that is blank or torn. */
  lemma {:induction false} EntriesAre(es: seq<seq<bv8>>, decrypt: Entry -> Entry, i: nat)
    requires i < |es|
    ensures |Entries(es, decrypt)| <= |es|
    ensures i < |Entries(es, decrypt)| ==>
      |es[i]| == 16 && !IsBlank(es[i]) && Entries(es, decrypt)[i] == Parse(decrypt(es[i]))
    ensures i == |Entries(es, decrypt)| ==> IsBlank(es[i]) || |es[i]| != 16
    decreases |es|
  {
    hide Parse, IsBlank;
    if |es| > 1 { EntriesAre(es[1..], decrypt, if i > 0 then i - 1 else 0); }
  }

  /** Pages and bodies are taken in the order in which they come. */
  lemma {:induction false} BodiesConcat(a: seq<seq<bv8>>, b: seq<seq<bv8>>)
    ensures Bodies(a + b) == Bodies(a) + Bodies(b)
    decreases |b|
  {
    hide IsUpdatePage;
    if b == [] {
      assert a + b == a;
    } else {
      BodiesConcat(a, b[..|b| - 1]);
      assert (a + b)[..|a + b| - 1] == a + b[..|b| - 1];
    }
  }

  lemma BodyOf(page: seq<bv8>)
    ensures Bodies([page]) == if |page| >= 16 && page[..16] == BLANK && !(|page| >= 32 && page[16..32] == BLANK)
                              then [page[16..]] else []
  {
    assert [page][..0] == [];
    if |page| >= 32 {
      assert page[..32] == page[..16] + page[16..32];
      if page[..32] == BLANK + BLANK { assert page[16..32] == (BLANK + BLANK)[16..]; }
    }
  }

  lemma {:induction false} LogConcat(a: seq<seq<bv8>>, b: seq<seq<bv8>>, decrypt: Entry -> Entry)
    ensures Log(a + b, decrypt) == Log(a, decrypt) + Log(b, decrypt)
    decreases |b|
  {
    hide Entries, Pieces;
    if b == [] {
      assert a + b == a;
    } else {
      LogConcat(a, b[..|b| - 1], decrypt);
      assert (a + b)[..|a + b| - 1] == a + b[..|b| - 1];
    }
  }

  /** A decrypted table is its words, the least significant byte first. */
  lemma TableWord(dec: seq<bv8>, w: bv32, i: nat)
    requires |dec| == TABLE_BYTES && 4 * i + 4 <= TABLE_BYTES && dec[4 * i..4 * i + 4] == LittleBytes(w)
    ensures TableWords(dec)[i] == w as nat
  {
    hide LittleBytes, LittleAt;
    LittleBytesBack(w, dec, 4 * i);
  }

  class Fscb {
    var freeSpace: Table

    constructor (dec: seq<bv8>)
      requires |dec| == TABLE_BYTES
      ensures freeSpace == Load(TableWords(dec))
    {
      freeSpace := map[];
      new;
      hide TableWords;
      var raw := TableWords(dec);
      for i := 0 to |raw|
        invariant freeSpace == Load(raw[..i])
      {
        assert raw[..i + 1][..i] == raw[..i];
        if PageValid(raw[i]) {
          freeSpace := freeSpace[PageAddress(raw[i]) := raw[i]];
        }
      }
      assert raw[..|raw|] == raw;
    }

    method TryReplaceBy(u: Update)
      modifies this
      ensures freeSpace == TryReplace(old(freeSpace), u)
    {
      if u.ok {
        var a := PageAddress(u.pp);
        if a !in freeSpace { return; }
        var cur := freeSpace[a];
        if PageValid(u.pp) && Journal(cur) < Journal(u.pp) {
          freeSpace := freeSpace[a := u.pp];
        }
      }
    }

    /** One page of updates; returns how many were replayed, and whether the cipher raised. */
    method ReplayPage(update: seq<bv8>, decrypt: Entry -> Entry) returns (count: nat, torn: bool)
      modifies this
      ensures torn <==> Torn(Pieces(update, 16))
      ensures freeSpace == Replay(old(freeSpace), Entries(Pieces(update, 16), decrypt))
      ensures count == |Entries(Pieces(update, 16), decrypt)|
    {
      hide TryReplace, Parse, IsBlank, Pieces, Entries, Torn, Replay;
      count, torn := 0, false;
      var entries := Pieces(update, 16);
      ghost var done: seq<Update> := [];
      ReplayNothing(freeSpace);
      assert entries[0..] == entries && [] + Entries(entries, decrypt) == Entries(entries, decrypt);
      for i := 0 to |entries|
        invariant freeSpace == Replay(old(freeSpace), done) && count == |done| && !torn
        invariant done + Entries(entries[i..], decrypt) == Entries(entries, decrypt)
        invariant Torn(entries[i..]) <==> Torn(entries)
      {
        var entry := entries[i];
        EntriesStep(entries, i, decrypt);
        if IsBlank(entry) || |entry| != 16 {
          assert done + [] == done;
          return count, !IsBlank(entry);
        }
        var u := Parse(decrypt(entry));
        TryReplaceBy(u);
        ReplayNext(old(freeSpace), done, u);
        assert done + ([u] + Entries(entries[i + 1..], decrypt)) == done + [u] + Entries(entries[i + 1..], decrypt);
        done := done + [u];
        count := count + 1;
      }
      EntriesEnd(entries, decrypt);
      assert done + [] == done;
    }
  }

  lemma ReplayNext(t: Table, log: seq<Update>, u: Update)
    ensures Replay(t, log + [u]) == TryReplace(Replay(t, log), u)
  {
    assert (log + [u])[..|log|] == log;
  }

  lemma EntriesStep(es: seq<seq<bv8>>, i: nat, decrypt: Entry -> Entry)
    requires i < |es|
    ensures IsBlank(es[i]) || |es[i]| != 16 ==> Entries(es[i..], decrypt) == [] && (Torn(es[i..]) <==> !IsBlank(es[i]))
    ensures !IsBlank(es[i]) && |es[i]| == 16 ==>
      && Entries(es[i..], decrypt) == [Parse(decrypt(es[i]))] + Entries(es[i + 1..], decrypt)
      && (Torn(es[i..]) <==> Torn(es[i + 1..]))
  {
    hide Parse, IsBlank;
    assert es[i..][0] == es[i] && es[i..][1..] == es[i + 1..];
  }

  lemma EntriesEnd(es: seq<seq<bv8>>, decrypt: Entry -> Entry)
    ensures Entries(es[|es|..], decrypt) == [] && !Torn(es[|es|..])
  {}

  /** The keys of the system basis: how the table and how an entry decrypt. */
  datatype Ciphers = Ciphers(table: seq<bv8> -> Option<seq<bv8>>, entry: Entry -> Entry)

  /** The free-space table, or none, or one of the exceptions of table and entries. */
  datatype Decoded = NoTable | Found(table: Table, updates: nat) | Forged | WrongLength | TornEntry

  lemma {:induction false} ReplayConcat(t: Table, a: seq<Update>, b: seq<Update>)
    ensures Replay(t, a + b) == Replay(Replay(t, a), b)
    decreases |b|
  {
    hide TryReplace;
    if b == [] {
      assert a + b == a;
    } else {
      assert (a + b)[..|a + b| - 1] == a + b[..|b| - 1];
      ReplayConcat(t, a, b[..|b| - 1]);
    }
  }

  lemma LogNext(bodies: seq<seq<bv8>>, more: seq<bv8>, decrypt: Entry -> Entry)
    ensures Log(bodies + [more], decrypt) == Log(bodies, decrypt) + Entries(Pieces(more, 16), decrypt)
  {
    assert (bodies + [more])[..|bodies|] == bodies;
  }

  predicate AnyTorn(bodies: seq<seq<bv8>>) {
    exists k :: 0 <= k < |bodies| && Torn(Pieces(bodies[k], 16))
  }

  ghost predicate IsFirstTable(pages: seq<seq<bv8>>, pg: nat) {
    pg < |pages| && IsTablePage(pages[pg]) && forall i :: 0 <= i < pg ==> !IsTablePage(pages[i])
  }

  /** Sort the pages: keep the bodies of the update pages, and see where the table begins. */
  method SortPages(pages: seq<seq<bv8>>) returns (updates: seq<seq<bv8>>, start: Option<nat>)
    ensures updates == Bodies(pages)
    ensures start.Some? ==> IsFirstTable(pages, start.value)
    ensures start.None? ==> forall i :: 0 <= i < |pages| ==> !IsTablePage(pages[i])
  {
    hide IsBlank, Head;
    updates, start := [], None;
    for pg := 0 to |pages|
      invariant updates == Bodies(pages[..pg])
      invariant start.Some? ==> start.value < pg && IsFirstTable(pages, start.value)
      invariant start.None? ==> forall i :: 0 <= i < pg ==> !IsTablePage(pages[i])
    {
      assert pages[..pg + 1][..pg] == pages[..pg];
      var page := pages[pg];
      if IsBlankPage(page) {
      } else if IsBlank(Head(page, 16)) {
        MarkedIsLong(page);
        updates := updates + [page[16..]];
      } else if start.None? {
        start := Some(pg);
      }
    }
    assert pages[..|pages|] == pages;
  }

  lemma MarkedIsLong(page: seq<bv8>)
    requires IsBlank(Head(page, 16))
    ensures |page| >= 16
  {}

  /** Two pages of the image from page `pg` on, as far as there are any. */
  function TableArea(img: seq<bv8>, pg: nat): seq<bv8> {
    if pg * 4096 >= |img| then [] else Head(img[pg * 4096..], 8192)
  }

  /** The table area is the image from the start of that page on, two pages long if there is so much. */
  lemma TableAreaIs(img: seq<bv8>, pg: nat)
    requires 4096 * pg <= |img|
    ensures img[..4096 * pg] + TableArea(img, pg) <= img
    ensures |TableArea(img, pg)| == if |img| - 4096 * pg < 8192 then |img| - 4096 * pg else 8192
  {}

  /** What the image means, given where the table begins. */
  function Meaning(img: seq<bv8>, keys: Ciphers, start: nat): Decoded {
    var bodies := Bodies(Pieces(img, 4096));
    match keys.table(TableArea(img, start))
    case None => Forged
    case Some(dec) =>
      if |dec| != TABLE_BYTES then WrongLength
      else if AnyTorn(bodies) then TornEntry
      else Found(Replay(Load(TableWords(dec)), Log(bodies, keys.entry)), |Log(bodies, keys.entry)|)
  }

  /**
  decode_fscb: without the key or a table page there is nothing; otherwise the decrypted table
  with the whole log replayed onto it, unless decryption or an entry raises.
  */
  method DecodeFscb(img: seq<bv8>, keys: Option<Ciphers>) returns (r: Decoded)
    ensures keys.None? ==> r == NoTable
    ensures r == NoTable && keys.Some? ==>
      forall i :: 0 <= i < |Pieces(img, 4096)| ==> !IsTablePage(Pieces(img, 4096)[i])
    ensures r != NoTable ==>
      keys.Some? && exists start :: IsFirstTable(Pieces(img, 4096), start) && r == Meaning(img, keys.value, start)
  {
    hide Replay, Entries, IsBlank, Log, Load, Pieces, Torn, TableWords, IsTablePage, Bodies;
    if keys.None? { return NoTable; }
    var pages := Pieces(img, 4096);
    var updates, start := SortPages(pages);
    if start.None? { return NoTable; }
    var dec := keys.value.table(TableArea(img, start.value));
    if dec.None? { return Forged; }
    if |dec.value| != TABLE_BYTES { return WrongLength; }
    var fscb := new Fscb(dec.value);
    ghost var table := Load(TableWords(dec.value));
    var decrypt := keys.value.entry;
    var count := 0;
    LogNothing(decrypt);
    ReplayNothing(table);
    for k := 0 to |updates|
      invariant fscb.freeSpace == Replay(table, Log(updates[..k], decrypt))
      invariant count == |Log(updates[..k], decrypt)|
      invariant forall j :: 0 <= j < k ==> !Torn(Pieces(updates[j], 16))
    {
      assert updates[..k + 1] == updates[..k] + [updates[k]];
      LogNext(updates[..k], updates[k], decrypt);
      var n, torn := fscb.ReplayPage(updates[k], decrypt);
      if torn { return TornEntry; }
      ReplayConcat(table, Log(updates[..k], decrypt), Entries(Pieces(updates[k], 16), decrypt));
      count := count + n;
    }
    assert updates[..|updates|] == updates;
    r := Found(fscb.freeSpace, count);
  }

  lemma LogNothing(decrypt: Entry -> Entry)
    ensures Log([], decrypt) == []
  {}

  /** Only a last page that is cut short can be torn: a whole page holds whole entries. */
  lemma {:induction false} WholePagesNotTorn(body: seq<bv8>)
    requires |body| % 16 == 0
    ensures !Torn(Pieces(body, 16))
    decreases |body|
  {
    hide IsBlank;
    if |body| > 16 { WholePagesNotTorn(body[16..]); }
  }

  lemma ReplayNothing(t: Table)
    ensures Replay(t, []) == t
  {}
}
