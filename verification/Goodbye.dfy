/** Announcements and goodbyes: one is the other with every TTL put to zero, exactly when
    the records come with a class. */
module Goodbye {
  import opened Bytes
  import opened NameReader
  import opened NameCodec
  import opened Records
  import opened RecordCodec
  import opened Messages
  import opened RoundTrip
  import opened StaleBytes

  const ANNOUNCE_CLASS: u16 := CLASS_IN + TOP_BIT
  const ANNOUNCE_TTL: u32 := 60

  // ----- The record each item is made from

  function PlainRecords(records: seq<Record>): (r: seq<Record>) {
    if records == [] then []
    else (if records[0].data.Txt? then [] else [records[0]]) + PlainRecords(records[1..])
  }

  function SectionHeads(records: seq<Record>): (r: seq<Record>) {
    PlainRecords(records) + if TxtRecords(records) == [] then [] else [TxtRecords(records)[0]]
  }

  /** The records that give a message's items their name, class and TTL. */
  function Heads(answer: Record, authority: seq<Record>, additional: seq<Record>): (r: seq<Record>) {
    PlainRecords([answer]) + (SectionHeads(authority) + SectionHeads(additional))
  }

  /** A record whose class in the announcement is its class in the goodbye. */
  predicate KeepsClass(r: Record) {
    r.rclass != 0 || r.data.Ptr?
  }

  lemma ClassKept(r: Record)
    ensures KeepsClass(r)
       <==> UpdateRclassTtl(r, ANNOUNCE_CLASS, ANNOUNCE_TTL).rclass == UpdateRclassTtl(r, CLASS_IN, 0).rclass
    ensures UpdateRclassTtl(r, CLASS_IN, 0).ttl == 0 != UpdateRclassTtl(r, ANNOUNCE_CLASS, ANNOUNCE_TTL).ttl
  {
  }

  /** The items are made from the records `hs`, in order. */
  ghost predicate MadeFrom(items: seq<Item>, hs: seq<Record>, rclass: u16, ttl: u32) {
    |items| == |hs| && forall i :: 0 <= i < |hs| ==> items[i].rec == UpdateRclassTtl(hs[i], rclass, ttl)
  }

  /** Two items that differ at most in class and TTL. */
  ghost predicate SameMake(x: Item, y: Item) {
    x.rec.name == y.rec.name && x.rec.data == y.rec.data && x.Plain? == y.Plain?
    && (x.Texts? ==> x.strings == y.strings)
  }

  ghost predicate AllSameMake(x: seq<Item>, y: seq<Item>) {
    |x| == |y| && forall i :: 0 <= i < |x| ==> SameMake(x[i], y[i])
  }

  lemma {:induction false} PlainMadeFrom(records: seq<Record>, c1: u16, t1: u32, c2: u16, t2: u32)
    ensures MadeFrom(PlainItems(Updated(records, c1, t1)), PlainRecords(records), c1, t1)
    ensures AllSameMake(PlainItems(Updated(records, c1, t1)), PlainItems(Updated(records, c2, t2)))
  {
    if records != [] {
      PlainMadeFrom(records[1..], c1, t1, c2, t2);
      PlainStepUpdated(records, c1, t1);
      PlainStepUpdated(records, c2, t2);
    }
  }

  lemma PlainStepUpdated(records: seq<Record>, c: u16, t: u32)
    requires records != []
    ensures PlainItems(Updated(records, c, t)) ==
            (if records[0].data.Txt? then [] else [Plain(UpdateRclassTtl(records[0], c, t))])
            + PlainItems(Updated(records[1..], c, t))
  {
    assert Updated(records, c, t)[1..] == Updated(records[1..], c, t);
  }

  lemma SectionMadeFrom(records: seq<Record>, c1: u16, t1: u32, c2: u16, t2: u32)
    ensures MadeFrom(MulticastSection(records, c1, t1), SectionHeads(records), c1, t1)
    ensures AllSameMake(MulticastSection(records, c1, t1), MulticastSection(records, c2, t2))
  {
    hide PlainItems, PlainRecords, TxtRecords, Strings, Updated;
    PlainMadeFrom(records, c1, t1, c2, t2);
  }

  lemma MessageMadeFrom(answer: Record, authority: seq<Record>, additional: seq<Record>, c1: u16, t1: u32, c2: u16, t2: u32)
    ensures MadeFrom(MulticastItems(answer, authority, additional, c1, t1), Heads(answer, authority, additional), c1, t1)
    ensures AllSameMake(MulticastItems(answer, authority, additional, c1, t1), MulticastItems(answer, authority, additional, c2, t2))
  {
    hide PlainItems, PlainRecords, MulticastSection, SectionHeads, UpdateRclassTtl, SameMake;
    PlainMadeFrom([answer], c1, t1, c2, t2);
    UpdatedOne(answer, c1, t1);
    UpdatedOne(answer, c2, t2);
    SectionMadeFrom(authority, c1, t1, c2, t2);
    SectionMadeFrom(additional, c1, t1, c2, t2);
  }

  lemma UpdatedOne(r: Record, c: u16, t: u32)
    ensures Updated([r], c, t) == [UpdateRclassTtl(r, c, t)]
  {
    assert [r][1..] == [];
    assert Updated([], c, t) == [];
  }

  // ----- Class and TTL do not influence anything else

  function Stamped(w: Wire, item: Item): (r: Wire) {
    w.(rclass := item.rec.rclass, ttl := item.rec.ttl)
  }

  ghost predicate AllStamped(x: seq<Wire>, y: seq<Wire>, items: seq<Item>) {
    |x| == |y| == |items| && forall i :: 0 <= i < |x| ==> y[i] == Stamped(x[i], items[i])
  }

  lemma EmitSameMake(stale: seq<byte>, d: Dict, pos: nat, x: Item, y: Item)
    requires DictValid(d) && ItemValid(x) && ItemValid(y) && SameMake(x, y)
    ensures EmitItem(stale, d, pos, y) == (Stamped(EmitItem(stale, d, pos, x).0, y), EmitItem(stale, d, pos, x).1)
    ensures Stamped(EmitItem(stale, d, pos, x).0, x) == EmitItem(stale, d, pos, x).0
  {
  }

  lemma {:induction false} EmitAllSameMake(stale: seq<byte>, d: Dict, pos: nat, x: seq<Item>, y: seq<Item>)
    requires DictValid(d) && ItemsValid(x) && ItemsValid(y) && AllSameMake(x, y)
    ensures AllStamped(EmitItems(stale, d, pos, x).0, EmitItems(stale, d, pos, y).0, y)
    ensures AllStamped(EmitItems(stale, d, pos, x).0, EmitItems(stale, d, pos, x).0, x)
    decreases |x|
  {
    hide EmitItem, SameMake, ItemValid, WireBytes, AllStamped, Stamped;
    if x == [] {
      NoneStamped();
    } else {
      assert x[0] in x && y[0] in y && SameMake(x[0], y[0]);
      EmitSameMake(stale, d, pos, x[0], y[0]);
      var (w, d1) := EmitItem(stale, d, pos, x[0]);
      StampedLength(w, y[0]);
      EmitAllSameMake(stale, d1, pos + |WireBytes(w)|, x[1..], y[1..]);
      var next := pos + |WireBytes(w)|;
      var xs, ys := EmitItems(stale, d1, next, x[1..]).0, EmitItems(stale, d1, next, y[1..]).0;
      StampedCons(w, xs, Stamped(w, y[0]), ys, y);
      StampedCons(w, xs, w, xs, x);
    }
  }

  lemma NoneStamped()
    ensures AllStamped([], [], [])
  {
  }

  lemma StampedLength(w: Wire, item: Item)
    ensures |WireBytes(Stamped(w, item))| == |WireBytes(w)|
  {
    hide WireBytes;
  }

  lemma StampedCons(x: Wire, xs: seq<Wire>, y: Wire, ys: seq<Wire>, items: seq<Item>)
    requires items != [] && y == Stamped(x, items[0]) && AllStamped(xs, ys, items[1..])
    ensures AllStamped([x] + xs, [y] + ys, items)
  {
    hide Stamped;
  }

  // ----- The bytes of the TTL fields

  function ZeroTtl(ws: seq<Wire>): (r: seq<Wire>)
    ensures |r| == |ws| && forall i :: 0 <= i < |ws| ==> r[i] == ws[i].(ttl := 0)
  {
    if ws == [] then [] else [ws[0].(ttl := 0)] + ZeroTtl(ws[1..])
  }

  /** Byte `i` of the wire form of `ws` belongs to the TTL of one of its records. */
  predicate InTtl(ws: seq<Wire>, i: int)
    decreases |ws|
  {
    ws != []
    && (|ws[0].owner| + 4 <= i < |ws[0].owner| + 8 || InTtl(ws[1..], i - |WireBytes(ws[0])|))
  }

  lemma {:induction false} InTtlAfter(ws: seq<Wire>, i: int)
    requires InTtl(ws, i)
    ensures 0 <= i < |WiresBytes(ws)|
    decreases |ws|
  {
    hide HeaderBytes;
    if InTtl(ws[1..], i - |WireBytes(ws[0])|) {
      InTtlAfter(ws[1..], i - |WireBytes(ws[0])|);
    }
  }

  lemma ZeroTtlByte(w: Wire, i: nat)
    requires i < |WireBytes(w)|
    ensures WireBytes(w.(ttl := 0))[i] == if |w.owner| + 4 <= i < |w.owner| + 8 then 0 else WireBytes(w)[i]
  {
    var before := w.owner + (Be16(w.rtype) + Be16(w.rclass));
    var after := Be16(|w.rdata| % 0x1_0000) + w.rdata;
    assert WireBytes(w) == before + Be32(w.ttl) + after;
    assert WireBytes(w.(ttl := 0)) == before + Be32(0) + after;
    assert Be32(0) == [0, 0, 0, 0];
  }

  lemma {:induction false} ZeroTtlBytes(ws: seq<Wire>)
    ensures |WiresBytes(ZeroTtl(ws))| == |WiresBytes(ws)|
    ensures forall i :: 0 <= i < |WiresBytes(ws)| ==>
              WiresBytes(ZeroTtl(ws))[i] == if InTtl(ws, i) then 0 else WiresBytes(ws)[i]
    decreases |ws|
  {
    hide WireBytes;
    if ws != [] {
      var w, z, n := ws[0], ws[0].(ttl := 0), |WireBytes(ws[0])|;
      ZeroTtlBytes(ws[1..]);
      assert ZeroTtl(ws)[1..] == ZeroTtl(ws[1..]);
      assert WiresBytes(ZeroTtl(ws)) == WireBytes(z) + WiresBytes(ZeroTtl(ws[1..]));
      forall i | 0 <= i < |WiresBytes(ws)|
        ensures WiresBytes(ZeroTtl(ws))[i] == if InTtl(ws, i) then 0 else WiresBytes(ws)[i]
      {
        if i < n {
          ZeroTtlByte(w, i);
          if InTtl(ws[1..], i - n) {
            InTtlAfter(ws[1..], i - n);
          }
        } else {
          assert WiresBytes(ws)[i] == WiresBytes(ws[1..])[i - n];
        }
      }
    }
  }

  lemma {:induction false} WiresInjective(x: seq<Wire>, y: seq<Wire>)
    requires |x| == |y|
    requires forall i :: 0 <= i < |x| ==> |x[i].owner| == |y[i].owner| && |x[i].rdata| == |y[i].rdata|
    ensures |WiresBytes(x)| == |WiresBytes(y)|
    ensures WiresBytes(x) == WiresBytes(y) <==> x == y
  {
    hide WireBytes;
    if x != [] {
      WiresInjective(x[1..], y[1..]);
      WireInjective(x[0], y[0]);
      ConcatEqual(WireBytes(x[0]), WiresBytes(x[1..]), WireBytes(y[0]), WiresBytes(y[1..]));
      assert x == [x[0]] + x[1..] && y == [y[0]] + y[1..];
    }
  }

  lemma WireInjective(x: Wire, y: Wire)
    requires |x.owner| == |y.owner| && |x.rdata| == |y.rdata|
    ensures WireBytes(x) == WireBytes(y) <==> x == y
  {
    hide HeaderBytes;
    var n := |x.rdata| % 0x1_0000;
    var hx, hy := HeaderBytes(x.rtype, x.rclass, x.ttl, n), HeaderBytes(y.rtype, y.rclass, y.ttl, n);
    ConcatEqual(x.owner + hx, x.rdata, y.owner + hy, y.rdata);
    ConcatEqual(x.owner, hx, y.owner, hy);
    if hx == hy {
      HeaderFields(hx, 0, x.rtype, x.rclass, x.ttl, n);
      HeaderFields(hx, 0, y.rtype, y.rclass, y.ttl, n);
    }
  }

  // ----- The theorem

  /** `g` is `a` with the TTL fields of its records, and no other byte, put to zero. */
  ghost predicate OnlyTtlZeroed(a: seq<byte>, g: seq<byte>, ws: seq<Wire>) {
    |a| == |g| == HEADER_SIZE + |WiresBytes(ws)|
    && forall i :: 0 <= i < |a| ==> g[i] == if InTtl(ws, i - HEADER_SIZE) then 0 else a[i]
  }

  lemma OnlyTtlZeroedIs(h: seq<byte>, a: seq<byte>, g: seq<byte>, ws: seq<Wire>)
    requires |h| == HEADER_SIZE && a == h + WiresBytes(ws)
    ensures OnlyTtlZeroed(a, g, ws) <==> g == h + WiresBytes(ZeroTtl(ws))
  {
    hide InTtl, WiresBytes, ZeroTtl;
    ZeroTtlBytes(ws);
    var z := h + WiresBytes(ZeroTtl(ws));
    forall i | 0 <= i < |a| ensures z[i] == if InTtl(ws, i - HEADER_SIZE) then 0 else a[i] {
      if i < HEADER_SIZE && InTtl(ws, i - HEADER_SIZE) {
        InTtlAfter(ws, i - HEADER_SIZE);
      }
    }
    if OnlyTtlZeroed(a, g, ws) {
      assert forall i :: 0 <= i < |a| ==> g[i] == z[i];
    }
  }

  /** The wire forms of a goodbye and of its announcement: the same but for the TTLs exactly
      when every record has a class to keep. */
  lemma WiresOfGoodbye(stale: seq<byte>, hs: seq<Record>, x: seq<Item>, y: seq<Item>)
    requires ItemsValid(x) && ItemsValid(y) && AllSameMake(x, y)
    requires MadeFrom(x, hs, ANNOUNCE_CLASS, ANNOUNCE_TTL) && MadeFrom(y, hs, CLASS_IN, 0)
    ensures DictValid(FRESH)
    ensures var a, g := EmitItems(stale, FRESH, HEADER_SIZE, x).0, EmitItems(stale, FRESH, HEADER_SIZE, y).0;
            |WiresBytes(a)| == |WiresBytes(g)|
            && (WiresBytes(g) == WiresBytes(ZeroTtl(a)) <==> forall h :: h in hs ==> KeepsClass(h))
            && forall w :: w in a ==> w.ttl != 0
  {
    hide EmitItems, UpdateRclassTtl, KeepsClass, WiresBytes, ItemValid;
    EmitAllSameMake(stale, FRESH, HEADER_SIZE, x, y);
    var a, g := EmitItems(stale, FRESH, HEADER_SIZE, x).0, EmitItems(stale, FRESH, HEADER_SIZE, y).0;
    WiresInjective(a, g);
    WiresInjective(g, ZeroTtl(a));
    forall i | 0 <= i < |hs|
      ensures a[i].ttl != 0 && (g[i] == ZeroTtl(a)[i] <==> KeepsClass(hs[i]))
    {
      ClassKept(hs[i]);
      assert a[i] == Stamped(a[i], x[i]) && g[i] == Stamped(a[i], y[i]);
    }
    if forall h :: h in hs ==> KeepsClass(h) {
      forall i | 0 <= i < |hs| ensures g[i] == ZeroTtl(a)[i] {
        assert hs[i] in hs;
      }
    }
  }

  /** An announcement and the goodbye for the same records, whatever the two buffers held:
      both can be built or neither; they have one length; and the goodbye is the announcement
      with its TTL fields put to zero and no other byte changed, if and only if every record
      that gives an item its class has one (or is a pointer record). No TTL of the
      announcement is zero. Text records must be without values, or the buffers the same. */
  lemma GoodbyeIsAnnouncementExactly(staleA: seq<byte>, staleG: seq<byte>, answer: Record, authority: seq<Record>,
                                     additional: seq<Record>, top: Label)
    requires GoodRecord(answer, top) && GoodRecords(authority, top) && GoodRecords(additional, top)
    requires |staleA| == |staleG| <= 0x4000
    requires staleA == staleG || (NoTxtValues(authority) && NoTxtValues(additional))
    ensures var announcement := MulticastMessage(staleA, answer, authority, additional, ANNOUNCE_CLASS, ANNOUNCE_TTL);
            var goodbye := MulticastMessage(staleG, answer, authority, additional, CLASS_IN, 0);
            var ws := MulticastWires(staleA, answer, authority, additional, ANNOUNCE_CLASS, ANNOUNCE_TTL);
            announcement.Some? == goodbye.Some?
            && (announcement.Some? ==>
                  var a, g := announcement.value.buf[..announcement.value.pos], goodbye.value.buf[..goodbye.value.pos];
                  a == MulticastHeader(authority, additional) + WiresBytes(ws) && |a| == |g|
                  && (forall w :: w in ws ==> w.ttl != 0)
                  && (OnlyTtlZeroed(a, g, ws) <==> forall h :: h in Heads(answer, authority, additional) ==> KeepsClass(h)))
  {
    hide MulticastMessage, MulticastItems, GoodRecord, NoItemValues, NoTxtValues, EmitItems, WiresBytes, AllCarried, GoodItems,
      MulticastHeader, Heads, KeepsClass, UpdateRclassTtl, SameMake, OnlyTtlZeroed, ItemValid, ZeroTtl;
    var x := MulticastItems(answer, authority, additional, ANNOUNCE_CLASS, ANNOUNCE_TTL);
    var y := MulticastItems(answer, authority, additional, CLASS_IN, 0);
    var hs := Heads(answer, authority, additional);
    MulticastItemsValid(answer, authority, additional, ANNOUNCE_CLASS, ANNOUNCE_TTL);
    MulticastItemsValid(answer, authority, additional, CLASS_IN, 0);
    MulticastBytes(staleA, answer, authority, additional, ANNOUNCE_CLASS, ANNOUNCE_TTL, top);
    MulticastBytes(staleG, answer, authority, additional, CLASS_IN, 0, top);
    MessageMadeFrom(answer, authority, additional, ANNOUNCE_CLASS, ANNOUNCE_TTL, CLASS_IN, 0);
    MessageMadeFrom(answer, authority, additional, CLASS_IN, 0, ANNOUNCE_CLASS, ANNOUNCE_TTL);
    WiresOfGoodbye(staleA, hs, x, y);
    MulticastValues(answer, authority, additional, CLASS_IN, 0);
    if staleA != staleG {
      EmitIndependent(staleA, staleG, FRESH, HEADER_SIZE, y);
    }
    var announcement := MulticastMessage(staleA, answer, authority, additional, ANNOUNCE_CLASS, ANNOUNCE_TTL);
    var goodbye := MulticastMessage(staleG, answer, authority, additional, CLASS_IN, 0);
    if announcement.Some? {
      var ws := MulticastWires(staleA, answer, authority, additional, ANNOUNCE_CLASS, ANNOUNCE_TTL);
      var gs := EmitItems(staleA, FRESH, HEADER_SIZE, y).0;
      var h := MulticastHeader(authority, additional);
      var a, g := announcement.value.buf[..announcement.value.pos], goodbye.value.buf[..goodbye.value.pos];
      OnlyTtlZeroedIs(h, a, g, ws);
      ConcatEqual(h, WiresBytes(gs), h, WiresBytes(ZeroTtl(ws)));
    }
  }
}
