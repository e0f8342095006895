/** A message that was built is read back as what it was built from. */
module RoundTrip {
  import opened Bytes
  import opened NameReader
  import opened StringTables
  import opened NameWriter
  import opened NameCodec
  import opened Records
  import opened RecordCodec
  import opened Messages
  import opened Parser

  // ----- One record

  /** What the record parsers say of delivered data, whatever capacity they are given. An SRV
      record whose target is the root has seven bytes of data, and reads as all zeros. */
  ghost predicate DataRecovered(m: seq<byte>, d: Delivery, data: RecordData) {
    match data
    case Ptr(name) =>
      forall capacity :: PtrText(m, d.recordOffset, d.recordLength, capacity) == Cut(Dotted(Labels(name)), capacity)
    case Srv(priority, weight, port, target) =>
      forall capacity :: SrvOf(m, d.recordOffset, d.recordLength, capacity) ==
        if Labels(target) == [] then SrvRecord(0, 0, 0, [])
        else SrvRecord(priority, weight, port, Cut(Dotted(Labels(target)), capacity))
    case A(addr) => AddressOf(m, d.recordOffset, d.recordLength, 4) == addr
    case Aaaa(addr) => AddressOf(m, d.recordOffset, d.recordLength, 16) == addr
    case Txt(_, _) => true
    case Other(_) => d.recordLength == 0
  }

  /** The delivered record is the item: name, type, class, TTL and data, or all its text strings. */
  ghost predicate Recovered(m: seq<byte>, d: Delivery, item: Item, entry: EntryType, id: u16) {
    d.entry == entry && d.id == id
    && d.rtype == ItemType(item) && d.rclass == item.rec.rclass && d.ttl == item.rec.ttl
    && ReadName(m, d.nameOffset, MAX_FETCHES) == Some(Labels(item.rec.name))
    && NameEnd(m, d.nameOffset, MAX_FETCHES) == Some(d.nameOffset + d.nameLength)
    && d.recordOffset == d.nameOffset + d.nameLength + 10 && d.recordOffset + d.recordLength <= |m|
    && (if item.Plain? then DataRecovered(m, d, item.rec.data)
        else IsText(m[d.recordOffset..d.recordOffset + d.recordLength], item.strings))
  }

  ghost predicate AllRecovered(m: seq<byte>, ds: seq<Delivery>, items: seq<Item>, entry: EntryType, id: u16) {
    |ds| == |items| && forall i :: 0 <= i < |ds| ==> Recovered(m, ds[i], items[i], entry, id)
  }

  lemma HeaderFields(m: seq<byte>, h: nat, rtype: u16, rclass: u16, ttl: u32, length: u16)
    requires h + 10 <= |m| && m[h..h + 10] == HeaderBytes(rtype, rclass, ttl, length)
    ensures Get16(m, h) == rtype && Get16(m, h + 2) == rclass && Get32(m, h + 4) == ttl && Get16(m, h + 8) == length
  {
    hide Be16, Be32, Get16, Get32;
    var s := HeaderBytes(rtype, rclass, ttl, length);
    Slice(m, h, s, 0, 2);
    Slice(m, h, s, 2, 2);
    Slice(m, h, s, 4, 4);
    Slice(m, h, s, 8, 2);
    Get16Reads(m, h, rtype);
    Get16Reads(m, h + 2, rclass);
    Get32Reads(m, h + 4, ttl);
    Get16Reads(m, h + 8, length);
  }

  lemma NameEndPastTwo(m: seq<byte>, o: nat, ls: seq<Label>)
    requires NameAt(m, o, ls, 1) && ls != [] && NameEnd(m, o, MAX_FETCHES).Some?
    ensures NameEnd(m, o, MAX_FETCHES).value >= o + 2
  {
    FetchMore(m, m, o, 1, MAX_JUMPS);
    var s := Fetch(m, o, MAX_JUMPS);
    if !s.ref {
      NameEndInside(m, s.offset + s.length, MAX_FETCHES - 1);
    }
  }

  lemma TextOf(m: seq<byte>, o: nat, ls: seq<Label>, capacity: nat)
    requires NameAt(m, o, ls, 1) && |ls| < MAX_FETCHES
    ensures ReadName(m, o, MAX_FETCHES) == Some(ls) && TextAt(m, o, capacity) == Cut(Dotted(ls), capacity)
  {
    NameStable(m, m, o, ls, 1, MAX_JUMPS);
    ReadNameExact(m, o, ls, MAX_FETCHES);
  }

  lemma DataReadsBack(m: seq<byte>, d: Delivery, data: RecordData, rdata: seq<byte>, top: Label)
    requires CarriesData(m, d.recordOffset, rdata, data) && GoodData(data, top)
    requires d.recordLength == |rdata| && d.recordOffset + |rdata| <= |m|
    requires m[d.recordOffset..d.recordOffset + |rdata|] == rdata
    ensures DataRecovered(m, d, data)
  {
    hide NameAt, NameEnd, ReadName, Labels, Dotted, Cut, Get16;
    var at := d.recordOffset;
    match data
    case Ptr(name) =>
      forall capacity ensures PtrText(m, at, d.recordLength, capacity) == Cut(Dotted(Labels(name)), capacity) {
        TextOf(m, at, Labels(name), capacity);
        if Labels(name) != [] {
          NameEndPastTwo(m, at, Labels(name));
        } else {
          DottedNothing(capacity);
        }
      }
    case Srv(priority, weight, port, target) =>
      SrvReadsBack(m, d, priority, weight, port, target, rdata);
    case _ =>
  }

  lemma SrvReadsBack(m: seq<byte>, d: Delivery, priority: u16, weight: u16, port: u16, target: NameText, rdata: seq<byte>)
    requires CarriesData(m, d.recordOffset, rdata, Srv(priority, weight, port, target)) && |Labels(target)| < MAX_FETCHES
    requires d.recordLength == |rdata| && d.recordOffset + |rdata| <= |m|
    requires m[d.recordOffset..d.recordOffset + |rdata|] == rdata
    ensures DataRecovered(m, d, Srv(priority, weight, port, target))
  {
    hide NameAt, NameEnd, ReadName, Labels, Dotted, Cut, Get16, Be16;
    var at, ls := d.recordOffset, Labels(target);
    var sb := SrvBytes(priority, weight, port);
    assert m[at..at + 6] == sb by {
      Slice(m, at, rdata, 0, 6);
    }
    Slice(m, at, sb, 0, 2);
    Slice(m, at, sb, 2, 2);
    Slice(m, at, sb, 4, 2);
    Get16Reads(m, at, priority);
    Get16Reads(m, at + 2, weight);
    Get16Reads(m, at + 4, port);
    forall capacity
      ensures SrvOf(m, at, d.recordLength, capacity) ==
              if ls == [] then SrvRecord(0, 0, 0, []) else SrvRecord(priority, weight, port, Cut(Dotted(ls), capacity))
    {
      TextOf(m, at + 6, ls, capacity);
      if ls != [] {
        NameEndPastTwo(m, at + 6, ls);
      }
    }
  }

  lemma WireParts(m: seq<byte>, at: nat, w: Wire)
    requires at + |WireBytes(w)| <= |m| && m[at..at + |WireBytes(w)|] == WireBytes(w) && |w.rdata| < 0x1_0000
    ensures var h := at + |w.owner|;
            m[h..h + 10] == HeaderBytes(w.rtype, w.rclass, w.ttl, |w.rdata|) && m[h + 10..h + 10 + |w.rdata|] == w.rdata
  {
    hide HeaderBytes;
    var n, s := |w.owner|, WireBytes(w);
    assert s[n..n + 10] == HeaderBytes(w.rtype, w.rclass, w.ttl, |w.rdata|) && s[n + 10..n + 10 + |w.rdata|] == w.rdata;
    Slice(m, at, s, n, 10);
    Slice(m, at, s, n + 10, |w.rdata|);
  }

  /** A record that is carried is delivered, recovered, and followed by whatever comes after its bytes. */
  lemma CarriedIsDelivered(m: seq<byte>, at: nat, w: Wire, item: Item, entry: EntryType, id: u16, top: Label)
    requires Carries(m, at, w, item) && GoodItem(item, top)
    ensures HeaderAt(m, at) + 10 <= |m|
    ensures var d := RecordAt(m, at, entry, id);
            d.recordOffset + d.recordLength == at + |WireBytes(w)| && Recovered(m, d, item, entry, id)
  {
    hide NameAt, NameEnd, ReadName, Labels, HeaderBytes, Get16, Get32, CarriesData, DataRecovered, WireBytes, IsText;
    WireParts(m, at, w);
    HeaderFields(m, at + |w.owner|, w.rtype, w.rclass, w.ttl, |w.rdata|);
    TextOf(m, at, Labels(item.rec.name), 0);
    var d := RecordAt(m, at, entry, id);
    if item.Plain? {
      DataReadsBack(m, d, item.rec.data, w.rdata, top);
    }
  }

  // ----- Runs of records

  lemma {:induction false} WiresLength(ws: seq<Wire>)
    ensures |WiresBytes(ws)| >= 10 * |ws|
  {
    if ws != [] {
      WiresLength(ws[1..]);
    }
  }

  /** Walking over `n` records of a run delivers them all and stops where they end, with the
      rest of the run still to come. */
  lemma {:induction false} WalkRun(m: seq<byte>, at: nat, ws: seq<Wire>, items: seq<Item>, entry: EntryType, id: u16, n: nat, top: Label)
    requires AllCarried(m, at, ws, items) && GoodItems(items, top) && n <= |items|
    ensures var (ds, end) := ParseRecords(m, at, entry, id, n);
            AllRecovered(m, ds, items[..n], entry, id) && AllCarried(m, end, ws[n..], items[n..])
            && end + |WiresBytes(ws[n..])| == at + |WiresBytes(ws)|
    decreases n
  {
    hide Carries, Recovered, AllRecovered, WireBytes, GoodItem, HeaderAt, RecordAt;
    if n == 0 {
      assert ws[0..] == ws && items[0..] == items;
      NoneRecovered(m, items[..0], entry, id);
    } else {
      assert GoodItem(items[0], top);
      CarriedIsDelivered(m, at, ws[0], items[0], entry, id, top);
      CarriedFits(m, at, ws[0], items[0]);
      var d := RecordAt(m, at, entry, id);
      var next := at + |WireBytes(ws[0])|;
      WalkRun(m, next, ws[1..], items[1..], entry, id, n - 1, top);
      var rest := ParseRecords(m, next, entry, id, n - 1).0;
      assert ws[1..][n - 1..] == ws[n..] && items[1..][n - 1..] == items[n..];
      assert items[..n] == [items[0]] + items[1..][..n - 1];
      RecoveredCons(m, d, rest, items[0], items[1..][..n - 1], entry, id);
    }
  }

  lemma NoneRecovered(m: seq<byte>, items: seq<Item>, entry: EntryType, id: u16)
    requires items == []
    ensures AllRecovered(m, [], items, entry, id)
  {
  }

  lemma CarriedFits(m: seq<byte>, at: nat, w: Wire, item: Item)
    requires Carries(m, at, w, item)
    ensures at + |WireBytes(w)| <= |m|
  {
  }

  lemma RecoveredCons(m: seq<byte>, d: Delivery, ds: seq<Delivery>, item: Item, items: seq<Item>, entry: EntryType, id: u16)
    requires Recovered(m, d, item, entry, id) && AllRecovered(m, ds, items, entry, id)
    ensures AllRecovered(m, [d] + ds, [item] + items, entry, id)
  {
    hide Recovered;
  }

  /** Past the last record of a message there is nothing to deliver. */
  lemma WalkPastEnd(m: seq<byte>, entry: EntryType, id: u16, n: nat)
    ensures ParseRecords(m, |m|, entry, id, n) == ([], |m|)
  {
  }

  // ----- Sections

  /** What the hypotheses on names ask of a record. */
  predicate GoodRecord(r: Record, top: Label) {
    GoodName(Labels(r.name), top) && GoodData(r.data, top)
  }

  predicate GoodRecords(rs: seq<Record>, top: Label) {
    forall r :: r in rs ==> GoodRecord(r, top)
  }

  lemma {:induction false} PlainItemsGood(rs: seq<Record>, top: Label)
    requires GoodRecords(rs, top)
    ensures GoodItems(PlainItems(rs), top)
  {
    hide GoodName, Labels;
    if rs != [] {
      assert rs[0] in rs;
      PlainItemsGood(rs[1..], top);
    }
  }

  lemma {:induction false} FilledInGood(rs: seq<Record>, rclass: u16, ttl: u32, top: Label)
    requires GoodRecords(rs, top)
    ensures GoodRecords(Updated(rs, rclass, ttl), top) && GoodRecords(AllForUnicast(rs), top)
  {
    hide GoodName, Labels;
    if rs != [] {
      assert rs[0] in rs;
      FilledInGood(rs[1..], rclass, ttl, top);
    }
  }

  lemma {:induction false} TxtRecordsIn(rs: seq<Record>)
    ensures forall x :: x in TxtRecords(rs) ==> x in rs
  {
    if rs != [] {
      TxtRecordsIn(rs[1..]);
    }
  }

  lemma TextItemsGood(rs: seq<Record>, rclass: u16, ttl: u32, top: Label)
    requires GoodRecords(rs, top)
    ensures GoodItems(TextItems(rs, rclass, ttl), top)
  {
    hide GoodName, Labels;
    TextItemsValid(rs, rclass, ttl);
    TxtRecordsIn(rs);
    var txt := TxtRecords(rs);
    if txt != [] {
      assert txt[0] in txt;
      assert GoodRecord(txt[0], top);
    }
  }

  lemma MulticastItemsGood(answer: Record, authority: seq<Record>, additional: seq<Record>, rclass: u16, ttl: u32, top: Label)
    requires GoodRecord(answer, top) && GoodRecords(authority, top) && GoodRecords(additional, top)
    ensures GoodItems(MulticastItems(answer, authority, additional, rclass, ttl), top)
  {
    hide GoodName, Labels, PlainItems, TextItems, GoodItem;
    FilledInGood([answer], rclass, ttl, top);
    assert [answer][1..] == [];
    assert Updated([answer], rclass, ttl) == [UpdateRclassTtl(answer, rclass, ttl)] + Updated([], rclass, ttl);
    PlainItemsGood([UpdateRclassTtl(answer, rclass, ttl)], top);
    FilledInGood(authority, rclass, ttl, top);
    PlainItemsGood(Updated(authority, rclass, ttl), top);
    TextItemsGood(authority, rclass, ttl, top);
    FilledInGood(additional, rclass, ttl, top);
    PlainItemsGood(Updated(additional, rclass, ttl), top);
    TextItemsGood(additional, rclass, ttl, top);
  }

  lemma UnicastItemsGood(answer: Record, authority: seq<Record>, additional: seq<Record>, top: Label)
    requires GoodRecord(answer, top) && GoodRecords(authority, top) && GoodRecords(additional, top)
    ensures GoodItems(UnicastItems(answer, authority, additional), top)
  {
    hide GoodName, Labels, PlainItems, TextItems, GoodItem;
    var asked := answer.(rclass := CLASS_IN, ttl := LEGACY_TTL);
    assert GoodRecords([asked], top);
    PlainItemsGood([asked], top);
    FilledInGood(authority, CLASS_IN, LEGACY_TTL, top);
    PlainItemsGood(AllForUnicast(authority), top);
    TextItemsGood(authority, CLASS_IN, LEGACY_TTL, top);
    FilledInGood(additional, CLASS_IN, LEGACY_TTL, top);
    PlainItemsGood(AllForUnicast(additional), top);
    TextItemsGood(additional, CLASS_IN, LEGACY_TTL, top);
  }

  // ----- The records of a message, wherever they begin

  const FRESH: Dict := Some(Ring([], 0))

  /** Records added after a beginning whose dictionary is sound: exactly their wire form, all
      of them carried, or nothing because they do not fit. */
  lemma RecordsWritten(o: Out, stale: seq<byte>, d: Dict, items: seq<Item>, top: Label)
    requires DictValid(d) && o.Valid() && |o.buf| <= 0x4000 && o.table == Offsets(d)
    requires DictOk(o.buf[..o.pos], d, top) && ItemsValid(items) && GoodItems(items, top)
    requires |stale| == |o.buf| && stale[o.pos..] == o.buf[o.pos..]
    ensures var ws := EmitItems(stale, d, o.pos, items).0;
            match AddItems(Some(o), items)
            case None => |o.buf| < o.pos + |WiresBytes(ws)|
            case Some(x) =>
              x.pos == o.pos + |WiresBytes(ws)| && x.buf == Put(o.buf, o.pos, WiresBytes(ws))
              && x.buf[..x.pos] == o.buf[..o.pos] + WiresBytes(ws)
              && AllCarried(x.buf[..x.pos], o.pos, ws, items)
  {
    hide EmitItems, AddItems, DictOk, GoodItem, AllCarried, WiresBytes, Offsets;
    ItemsEmit(o, stale, d, items, top);
    var (ws, d') := EmitItems(stale, d, o.pos, items);
    var x := AddItems(Some(o), items);
    if x.Some? {
      WrittenPrefix(o, x.value, WiresBytes(ws), d');
      ItemsCarried(o.buf[..o.pos], stale, d, items, top);
    }
  }

  lemma BeginIs(stale: seq<byte>, header: seq<byte>)
    requires |header| == HEADER_SIZE <= |stale|
    ensures var o := Begin(stale, header, Some(RingOf([])));
            o.buf[..o.pos] == header && stale[o.pos..] == o.buf[o.pos..] && o.table == Offsets(FRESH)
            && o.Valid() && DictValid(FRESH)
    ensures forall m, top :: DictOk(m, FRESH, top)
  {
    assert AtOf([]) == [];
  }

  /** The records of a multicast message on the wire. */
  ghost function MulticastWires(stale: seq<byte>, answer: Record, authority: seq<Record>, additional: seq<Record>,
                                rclass: u16, ttl: u32): (ws: seq<Wire>)
  {
    MulticastItemsValid(answer, authority, additional, rclass, ttl);
    EmitItems(stale, FRESH, HEADER_SIZE, MulticastItems(answer, authority, additional, rclass, ttl)).0
  }

  /** A multicast message is its header and the wire form of its records, and is built
      exactly when the buffer has 48 bytes and room for that. */
  lemma MulticastBytes(stale: seq<byte>, answer: Record, authority: seq<Record>, additional: seq<Record>,
                       rclass: u16, ttl: u32, top: Label)
    requires GoodRecord(answer, top) && GoodRecords(authority, top) && GoodRecords(additional, top) && |stale| <= 0x4000
    ensures var ws := MulticastWires(stale, answer, authority, additional, rclass, ttl);
            match MulticastMessage(stale, answer, authority, additional, rclass, ttl)
            case None => |stale| < 48 || |stale| < HEADER_SIZE + |WiresBytes(ws)|
            case Some(o) =>
              var items := MulticastItems(answer, authority, additional, rclass, ttl);
              48 <= |stale| && o.pos == HEADER_SIZE + |WiresBytes(ws)| <= |stale|
              && o.buf[..o.pos] == MulticastHeader(authority, additional) + WiresBytes(ws)
              && AllCarried(o.buf[..o.pos], HEADER_SIZE, ws, items) && GoodItems(items, top)
  {
    hide EmitItems, AddItems, DictOk, GoodItem, AllCarried, WiresBytes, MulticastItems, Offsets, ItemValid, GoodRecord, Begin, MulticastHeader;
    var items := MulticastItems(answer, authority, additional, rclass, ttl);
    MulticastItemsValid(answer, authority, additional, rclass, ttl);
    MulticastItemsGood(answer, authority, additional, rclass, ttl, top);
    if |stale| >= MIN_ANSWER_CAPACITY {
      var header := MulticastHeader(authority, additional);
      BeginIs(stale, header);
      RecordsWritten(Begin(stale, header, Some(RingOf([]))), stale, FRESH, items, top);
    }
  }
}
