/** What the message builders promise. */
module MessageTheorems {
  import opened Bytes
  import opened NameReader
  import opened StringTables
  import opened NameWriter
  import opened NameCodec
  import opened NameTheorems
  import opened Records
  import opened RecordWriter
  import opened RecordCodec
  import opened Messages
  import opened Parser
  import opened RoundTrip

  // ----- Header fields

  lemma HeaderReads(m: seq<byte>, id: u16, flags: u16, questions: nat, answers: nat, authority: nat, additional: nat)
    requires |m| >= HEADER_SIZE
    requires m[..HEADER_SIZE] == MessageHeader(id, flags, questions, answers, authority, additional)
    ensures Get16(m, 0) == id && Get16(m, 2) == flags && Get16(m, 4) == questions % 0x1_0000
         && Get16(m, 6) == answers % 0x1_0000 && Get16(m, 8) == authority % 0x1_0000 && Get16(m, 10) == additional % 0x1_0000
    ensures m[0] == id / 0x100 && m[1] == id % 0x100 && m[2] == flags / 0x100 && m[3] == flags % 0x100
  {
    BytesRead(m, 0);
    BytesRead(m, 2);
    hide Be16, Get16;
    var s := MessageHeader(id, flags, questions, answers, authority, additional);
    assert m[0..0 + |s|] == s;
    Slice(m, 0, s, 0, 2);
    Slice(m, 0, s, 2, 2);
    Slice(m, 0, s, 4, 2);
    Slice(m, 0, s, 6, 2);
    Slice(m, 0, s, 8, 2);
    Slice(m, 0, s, 10, 2);
    Get16Reads(m, 0, id);
    Get16Reads(m, 2, flags);
    Get16Reads(m, 4, questions % 0x1_0000);
    Get16Reads(m, 6, answers % 0x1_0000);
    Get16Reads(m, 8, authority % 0x1_0000);
    Get16Reads(m, 10, additional % 0x1_0000);
  }

  lemma BytesRead(m: seq<byte>, o: nat)
    requires o + 2 <= |m|
    ensures m[o] == Get16(m, o) / 0x100 && m[o + 1] == Get16(m, o) % 0x100
  {
  }

  // ----- Three sections

  /** A run of records to the end of the message, read with the right three counts: every
      record is recovered in its section, and reading stops at the end of the message. */
  lemma SectionsRecovered(m: seq<byte>, at: nat, ws: seq<Wire>, x: seq<Item>, y: seq<Item>, z: seq<Item>, id: u16, top: Label)
    requires AllCarried(m, at, ws, x + (y + z)) && GoodItems(x + (y + z), top) && at + |WiresBytes(ws)| == |m|
    ensures var s := ParseSections(m, at, id, |x|, |y|, |z|);
            AllRecovered(m, s.answers, x, Answer, id) && AllRecovered(m, s.authority, y, Authority, id)
            && AllRecovered(m, s.additional, z, Additional, id) && s.end == |m|
  {
    hide AllCarried, AllRecovered, ParseRecords, GoodItems, WiresBytes;
    var all := x + (y + z);
    CarriedLengths(m, at, ws, all);
    WalkRun(m, at, ws, all, Answer, id, |x|, top);
    assert all[..|x|] == x && all[|x|..] == y + z;
    var (ds1, at1) := ParseRecords(m, at, Answer, id, |x|);
    RecoveredLengths(m, ds1, x, Answer, id);
    GoodRest(all, |x|, top);
    var ws1 := ws[|x|..];
    WalkRun(m, at1, ws1, y + z, Authority, id, |y|, top);
    assert (y + z)[..|y|] == y && (y + z)[|y|..] == z;
    var (ds2, at2) := ParseRecords(m, at1, Authority, id, |y|);
    RecoveredLengths(m, ds2, y, Authority, id);
    GoodRest(y + z, |y|, top);
    var ws2 := ws1[|y|..];
    WalkRun(m, at2, ws2, z, Additional, id, |z|, top);
    assert z[..|z|] == z;
    assert ws2[|z|..] == [];
    NoWires();
  }

  lemma NoWires()
    ensures WiresBytes([]) == []
  {
  }

  lemma {:induction false} CarriedLengths(m: seq<byte>, at: nat, ws: seq<Wire>, items: seq<Item>)
    requires AllCarried(m, at, ws, items)
    ensures |ws| == |items|
  {
  }

  lemma RecoveredLengths(m: seq<byte>, ds: seq<Delivery>, items: seq<Item>, entry: EntryType, id: u16)
    requires AllRecovered(m, ds, items, entry, id)
    ensures |ds| == |items|
  {
  }

  lemma GoodRest(items: seq<Item>, n: nat, top: Label)
    requires GoodItems(items, top) && n <= |items|
    ensures GoodItems(items[n..], top)
  {
    hide GoodItem;
  }

  // ----- Multicast messages

  /** The answer's section is the answer itself, unless it is a text record. */
  function AnswerItems(answer: Record, rclass: u16, ttl: u32): (items: seq<Item>) {
    PlainItems([UpdateRclassTtl(answer, rclass, ttl)])
  }

  lemma AnswerItemsIs(r: Record)
    ensures PlainItems([r]) == if r.data.Txt? then [] else [Plain(r)]
  {
    assert [r][1..] == [];
    assert PlainItems([]) == [];
  }

  lemma SectionCounts(records: seq<Record>, rclass: u16, ttl: u32)
    ensures |MulticastSection(records, rclass, ttl)| == SectionCount(records) == |UnicastSection(records)|
  {
    hide UpdateRclassTtl, ForUnicast, TxtRecords;
    PlainCounts(records, rclass, ttl);
  }

  lemma {:induction false} PlainCounts(records: seq<Record>, rclass: u16, ttl: u32)
    ensures |PlainItems(Updated(records, rclass, ttl))| == |PlainItems(records)| == |PlainItems(AllForUnicast(records))|
  {
    if records != [] {
      PlainCounts(records[1..], rclass, ttl);
      assert Updated(records, rclass, ttl)[1..] == Updated(records[1..], rclass, ttl);
      assert AllForUnicast(records)[1..] == AllForUnicast(records[1..]);
    }
  }

  /** A multicast answer, announcement or goodbye whose answer is not a text record is read
      back in full: with the counts in its header, parsing from byte 12 delivers the answer,
      then each section's other records in order and its text records as one, every one
      with its name, type, class, TTL and data; and it ends at the end of the message. */
  lemma MulticastRoundTrip(stale: seq<byte>, answer: Record, authority: seq<Record>, additional: seq<Record>,
                           rclass: u16, ttl: u32, top: Label)
    requires GoodRecord(answer, top) && GoodRecords(authority, top) && GoodRecords(additional, top) && |stale| <= 0x4000
    requires MulticastMessage(stale, answer, authority, additional, rclass, ttl).Some? && !answer.data.Txt?
    ensures var o := MulticastMessage(stale, answer, authority, additional, rclass, ttl).value;
            var m := o.buf[..o.pos];
            var s := ParseSections(m, HEADER_SIZE, 0, Get16(m, 6), Get16(m, 8), Get16(m, 10));
            AllRecovered(m, s.answers, [Plain(UpdateRclassTtl(answer, rclass, ttl))], Answer, 0)
            && AllRecovered(m, s.authority, MulticastSection(authority, rclass, ttl), Authority, 0)
            && AllRecovered(m, s.additional, MulticastSection(additional, rclass, ttl), Additional, 0)
            && s.end == |m| && m[0] == 0 && m[1] == 0 && m[2] == 0x84 && m[3] == 0
            && Get16(m, 0) == 0 && Get16(m, 4) == 0 && Get16(m, 6) == 1
            && Get16(m, 8) == SectionCount(authority) && Get16(m, 10) == SectionCount(additional)
  {
    hide AllCarried, AllRecovered, GoodItems, WiresBytes, EmitItems, ItemsValid, MulticastMessage, UpdateRclassTtl,
      MulticastSection, SectionCount, Get16, ParseSections, MessageHeader, PlainItems, EntryOk, GoodName, GoodRecord, Labels;
    var o := MulticastMessage(stale, answer, authority, additional, rclass, ttl).value;
    var m := o.buf[..o.pos];
    var items := MulticastItems(answer, authority, additional, rclass, ttl);
    MulticastBytes(stale, answer, authority, additional, rclass, ttl, top);
    var ws := MulticastWires(stale, answer, authority, additional, rclass, ttl);
    AnswerItemsIs(UpdateRclassTtl(answer, rclass, ttl));
    TypeKept(answer, rclass, ttl);
    SectionCounts(authority, rclass, ttl);
    SectionCounts(additional, rclass, ttl);
    WiresLength(ws);
    assert m[..HEADER_SIZE] == MulticastHeader(authority, additional);
    HeaderReads(m, 0, RESPONSE_FLAGS, 0, 1, SectionCount(authority), SectionCount(additional));
    SectionsRecovered(m, HEADER_SIZE, ws, AnswerItems(answer, rclass, ttl), MulticastSection(authority, rclass, ttl),
                      MulticastSection(additional, rclass, ttl), 0, top);
  }

  lemma TypeKept(r: Record, rclass: u16, ttl: u32)
    ensures UpdateRclassTtl(r, rclass, ttl).data == r.data && UpdateRclassTtl(r, rclass, ttl).name == r.name
  {
  }

  // ----- A text record as the answer

  /** Walking to the end of the message delivers as many records as there are, or as were asked for. */
  lemma {:induction false} WalkToEnd(m: seq<byte>, at: nat, ws: seq<Wire>, items: seq<Item>, entry: EntryType, id: u16, n: nat, top: Label)
    requires AllCarried(m, at, ws, items) && GoodItems(items, top) && at + |WiresBytes(ws)| == |m|
    ensures |ParseRecords(m, at, entry, id, n).0| == if n <= |items| then n else |items|
    decreases n
  {
    hide Carries, WireBytes, GoodItem, HeaderAt, RecordAt;
    if items == [] {
      WalkPastEnd(m, entry, id, n);
    } else if n > 0 {
      assert GoodItem(items[0], top);
      CarriedIsDelivered(m, at, ws[0], items[0], entry, id, top);
      CarriedFits(m, at, ws[0], items[0]);
      WalkToEnd(m, at + |WireBytes(ws[0])|, ws[1..], items[1..], entry, id, n - 1, top);
    }
  }

  function Total(s: Sections): (n: nat) {
    |s.answers| + |s.authority| + |s.additional|
  }

  /** One answer too many in the header leaves the reading one record short. */
  lemma OneShort(m: seq<byte>, at: nat, ws: seq<Wire>, y: seq<Item>, z: seq<Item>, id: u16, top: Label)
    requires AllCarried(m, at, ws, y + z) && GoodItems(y + z, top) && at + |WiresBytes(ws)| == |m|
    ensures Total(ParseSections(m, at, id, 1, |y|, |z|)) == |y| + |z|
  {
    hide AllCarried, ParseRecords, GoodItems, WiresBytes, AllRecovered;
    var all := y + z;
    CarriedLengths(m, at, ws, all);
    WalkToEnd(m, at, ws, all, Answer, id, 1, top);
    if all != [] {
      WalkRun(m, at, ws, all, Answer, id, 1, top);
      GoodRest(all, 1, top);
      var at1 := ParseRecords(m, at, Answer, id, 1).1;
      WalkToEnd(m, at1, ws[1..], all[1..], Authority, id, |y|, top);
      if |y| < |all| {
        WalkRun(m, at1, ws[1..], all[1..], Authority, id, |y|, top);
        GoodRest(all[1..], |y|, top);
        var at2 := ParseRecords(m, at1, Authority, id, |y|).1;
        WalkToEnd(m, at2, ws[1..][|y|..], all[1..][|y|..], Additional, id, |z|, top);
      }
    }
  }

  /** With a text record as its answer a message delivers one record fewer than its header counts. */
  lemma TextAnswerIsShort(stale: seq<byte>, answer: Record, authority: seq<Record>, additional: seq<Record>,
                          rclass: u16, ttl: u32, top: Label)
    requires GoodRecord(answer, top) && GoodRecords(authority, top) && GoodRecords(additional, top) && |stale| <= 0x4000
    requires MulticastMessage(stale, answer, authority, additional, rclass, ttl).Some? && answer.data.Txt?
    ensures var o := MulticastMessage(stale, answer, authority, additional, rclass, ttl).value;
            var m := o.buf[..o.pos];
            Total(ParseSections(m, HEADER_SIZE, 0, Get16(m, 6), Get16(m, 8), Get16(m, 10))) + 1
              == Get16(m, 6) as int + Get16(m, 8) + Get16(m, 10)
  {
    hide AllCarried, GoodItems, WiresBytes, EmitItems, ItemsValid, MulticastMessage, UpdateRclassTtl, MulticastSection,
      SectionCount, Get16, ParseSections, MessageHeader, PlainItems, EntryOk, GoodName, GoodRecord, Labels, Total;
    var o := MulticastMessage(stale, answer, authority, additional, rclass, ttl).value;
    var m := o.buf[..o.pos];
    var y, z := MulticastSection(authority, rclass, ttl), MulticastSection(additional, rclass, ttl);
    MulticastBytes(stale, answer, authority, additional, rclass, ttl, top);
    var ws := MulticastWires(stale, answer, authority, additional, rclass, ttl);
    AnswerItemsIs(UpdateRclassTtl(answer, rclass, ttl));
    TypeKept(answer, rclass, ttl);
    SectionCounts(authority, rclass, ttl);
    SectionCounts(additional, rclass, ttl);
    assert MulticastItems(answer, authority, additional, rclass, ttl) == y + z;
    CarriedLengths(m, HEADER_SIZE, ws, y + z);
    WiresLength(ws);
    assert m[..HEADER_SIZE] == MulticastHeader(authority, additional);
    HeaderReads(m, 0, RESPONSE_FLAGS, 0, 1, SectionCount(authority), SectionCount(additional));
    OneShort(m, HEADER_SIZE, ws, y, z, 0, top);
  }

  /** The header counts exactly the records that are delivered if and only if the answer is
      not a text record: a text record is counted as an answer but never written as one. */
  lemma HeaderCountsExactly(stale: seq<byte>, answer: Record, authority: seq<Record>, additional: seq<Record>,
                            rclass: u16, ttl: u32, top: Label)
    requires GoodRecord(answer, top) && GoodRecords(authority, top) && GoodRecords(additional, top) && |stale| <= 0x4000
    requires MulticastMessage(stale, answer, authority, additional, rclass, ttl).Some?
    ensures var o := MulticastMessage(stale, answer, authority, additional, rclass, ttl).value;
            var m := o.buf[..o.pos];
            (Total(ParseSections(m, HEADER_SIZE, 0, Get16(m, 6), Get16(m, 8), Get16(m, 10)))
               == Get16(m, 6) as int + Get16(m, 8) + Get16(m, 10)
             <==> !answer.data.Txt?)
  {
    hide AllRecovered, MulticastMessage, UpdateRclassTtl, MulticastSection, Get16, GoodName, GoodRecord, Labels;
    if answer.data.Txt? {
      TextAnswerIsShort(stale, answer, authority, additional, rclass, ttl, top);
    } else {
      MulticastRoundTrip(stale, answer, authority, additional, rclass, ttl, top);
      var o := MulticastMessage(stale, answer, authority, additional, rclass, ttl).value;
      var m := o.buf[..o.pos];
      var s := ParseSections(m, HEADER_SIZE, 0, Get16(m, 6), Get16(m, 8), Get16(m, 10));
      RecoveredLengths(m, s.answers, [Plain(UpdateRclassTtl(answer, rclass, ttl))], Answer, 0);
      SectionCounts(authority, rclass, ttl);
      SectionCounts(additional, rclass, ttl);
      RecoveredLengths(m, s.authority, MulticastSection(authority, rclass, ttl), Authority, 0);
      RecoveredLengths(m, s.additional, MulticastSection(additional, rclass, ttl), Additional, 0);
    }
  }

  // ----- Unicast answers

  /** The question a unicast answer repeats: it can be skipped, and leaves the dictionary sound. */
  lemma QuestionWritten(o: Out, rtype: u16, name: NameText, qclass: u16, top: Label)
    requires o.Valid() && |o.buf| <= 0x4000 && o.table == Offsets(FRESH) && GoodName(Labels(name), top)
    ensures DictValid(FRESH)
    ensures var (bytes, d) := EmitName(FRESH, o.pos, Labels(name));
            match AddQuestion(o, rtype, name, qclass)
            case None => |o.buf| < o.pos + |bytes| + 4
            case Some(q) =>
              Written(o, q, bytes + (Be16(rtype) + Be16(qclass)), d) && DictOk(q.buf[..q.pos], d, top)
              && NameEnd(q.buf[..q.pos], o.pos, MAX_FETCHES) == Some(q.pos - 4)
              && NameAt(q.buf[..q.pos], o.pos, Labels(name), 1)
  {
    hide EntryOk, EmitName, MakeName, GoodName, Labels, Put, Offsets, NameAt, NameEnd, Be16;
    var m, ls := o.buf[..o.pos], Labels(name);
    var (bytes, d) := EmitName(FRESH, o.pos, ls);
    assert DictOk(m, FRESH, top);
    NameEmits(o, FRESH, ls, top);
    var named := MakeName(o, ls);
    if named.Some? {
      EmittedSound(o, FRESH, ls, top);
      EmitNameEnd(m, FRESH, ls, top);
      if |o.buf| - named.value.pos >= 4 {
        var qb := Be16(rtype) + Be16(qclass);
        var q := named.value.Append(qb);
        AppendWritten(named.value, d, qb);
        WrittenAppend(o, named.value, q, bytes, qb, d, d);
        WrittenPrefix(o, q, bytes + qb, d);
        var c := q.buf[..q.pos];
        assert m + bytes <= c;
        DictStable(m + bytes, c, d, top);
        NameEndStable(m + bytes, c, o.pos, MAX_FETCHES);
        NameStable(m + bytes, c, o.pos, ls, 1, 1);
      }
    }
  }

  lemma EmitNameEnd(m: seq<byte>, d: Dict, ls: seq<Label>, top: Label)
    requires DictOk(m, d, top) && GoodName(ls, top) && |m| + |EmitName(d, |m|, ls).0| <= 0x4000
    ensures NameEnd(m + EmitName(d, |m|, ls).0, |m|, MAX_FETCHES) == Some(|m| + |EmitName(d, |m|, ls).0|)
    ensures NameAt(m + EmitName(d, |m|, ls).0, |m|, ls, 1)
  {
    hide EntryOk, EmitName, NameAt, NameEnd;
    EmitNameRoundTrip(m, d, ls, top);
  }

  /** The question of a unicast message, its bytes and where it leaves the dictionary. */
  ghost function QuestionBytes(rtype: u16, name: NameText): (r: (seq<byte>, Dict))
    ensures |r.0| > 4 && DictValid(r.1)
  {
    var (bytes, d) := EmitName(FRESH, HEADER_SIZE, Labels(name));
    (bytes + (Be16(rtype) + Be16(CLASS_IN + TOP_BIT)), d)
  }

  /** The records of a unicast message on the wire, after its question. */
  ghost function UnicastWires(stale: seq<byte>, rtype: u16, name: NameText, answer: Record,
                              authority: seq<Record>, additional: seq<Record>): (ws: seq<Wire>)
  {
    UnicastItemsValid(answer, authority, additional);
    var (asked, d) := QuestionBytes(rtype, name);
    EmitItems(stale, d, HEADER_SIZE + |asked|, UnicastItems(answer, authority, additional)).0
  }

  /** A unicast message: its question, then the wire form of its records. */
  lemma UnicastBytes(stale: seq<byte>, id: u16, rtype: u16, name: NameText, answer: Record,
                     authority: seq<Record>, additional: seq<Record>, top: Label)
    requires GoodName(Labels(name), top) && GoodRecord(answer, top) && GoodRecords(authority, top) && GoodRecords(additional, top)
    requires |stale| <= 0x4000
    ensures var asked := QuestionBytes(rtype, name).0;
            var at := HEADER_SIZE + |asked|;
            var ws := UnicastWires(stale, rtype, name, answer, authority, additional);
            match UnicastMessage(stale, id, rtype, name, answer, authority, additional)
            case None => |stale| < 48 || |stale| < at + |WiresBytes(ws)|
            case Some(o) =>
              var m := o.buf[..o.pos];
              var items := UnicastItems(answer, authority, additional);
              48 <= |stale| && o.pos == at + |WiresBytes(ws)| <= |stale|
              && m[..HEADER_SIZE] == UnicastHeader(id, authority, additional)
              && m == UnicastHeader(id, authority, additional) + asked + WiresBytes(ws)
              && NameEnd(m, HEADER_SIZE, MAX_FETCHES) == Some(at - 4) && NameAt(m, HEADER_SIZE, Labels(name), 1)
              && AllCarried(m, at, ws, items) && GoodItems(items, top)
  {
    hide EntryOk, EmitName, EmitItems, AddItems, DictOk, GoodItem, AllCarried, WiresBytes, UnicastItems, Offsets, ItemValid,
      GoodRecord, GoodName, Begin, UnicastHeader, AddQuestion, NameAt, NameEnd, Be16, Labels, Put;
    var items := UnicastItems(answer, authority, additional);
    UnicastItemsValid(answer, authority, additional);
    UnicastItemsGood(answer, authority, additional, top);
    if |stale| >= MIN_ANSWER_CAPACITY {
      var header := UnicastHeader(id, authority, additional);
      BeginIs(stale, header);
      var o0 := Begin(stale, header, Some(RingOf([])));
      QuestionWritten(o0, rtype, name, CLASS_IN + TOP_BIT, top);
      var q := AddQuestion(o0, rtype, name, CLASS_IN + TOP_BIT);
      if q.Some? {
        var (asked, d) := QuestionBytes(rtype, name);
        UnicastRecords(stale, o0, q.value, asked, d, items, name, top);
      }
    } else {
      assert UnicastMessage(stale, id, rtype, name, answer, authority, additional).None?;
    }
  }

  lemma UnicastRecords(stale: seq<byte>, o0: Out, q: Out, asked: seq<byte>, d: Dict, items: seq<Item>, name: NameText, top: Label)
    requires DictValid(d) && o0.Valid() && q.Valid() && |o0.buf| <= 0x4000 && ItemsValid(items) && GoodItems(items, top)
    requires |stale| == |o0.buf| && stale[o0.pos..] == o0.buf[o0.pos..]
    requires Written(o0, q, asked, d) && DictOk(q.buf[..q.pos], d, top)
    requires NameEnd(q.buf[..q.pos], o0.pos, MAX_FETCHES).Some? && NameAt(q.buf[..q.pos], o0.pos, Labels(name), 1)
    ensures var ws := EmitItems(stale, d, q.pos, items).0;
            match AddItems(Some(q), items)
            case None => |stale| < q.pos + |WiresBytes(ws)|
            case Some(x) =>
              var m := x.buf[..x.pos];
              x.pos == q.pos + |WiresBytes(ws)| && m == o0.buf[..o0.pos] + asked + WiresBytes(ws)
              && NameEnd(m, o0.pos, MAX_FETCHES) == NameEnd(q.buf[..q.pos], o0.pos, MAX_FETCHES)
              && NameAt(m, o0.pos, Labels(name), 1) && AllCarried(m, q.pos, ws, items)
  {
    hide EntryOk, EmitItems, AddItems, DictOk, GoodItem, AllCarried, WiresBytes, Offsets, ItemValid, NameAt, NameEnd, Labels;
    WrittenPrefix(o0, q, asked, d);
    StaleLeft(o0, q, stale, asked, d);
    RecordsWritten(q, stale, d, items, top);
    var x := AddItems(Some(q), items);
    if x.Some? {
      var m := x.value.buf[..x.value.pos];
      NameEndStable(q.buf[..q.pos], m, o0.pos, MAX_FETCHES);
      NameStable(q.buf[..q.pos], m, o0.pos, Labels(name), 1, 1);
    }
  }

  /** How a unicast reply begins: the ID of the query, the flags of an authoritative response,
      one question, which is the one asked. */
  lemma UnicastOpens(stale: seq<byte>, id: u16, rtype: u16, name: NameText, answer: Record,
                     authority: seq<Record>, additional: seq<Record>, top: Label)
    requires GoodName(Labels(name), top) && GoodRecord(answer, top) && GoodRecords(authority, top) && GoodRecords(additional, top)
    requires |stale| <= 0x4000 && UnicastMessage(stale, id, rtype, name, answer, authority, additional).Some?
    ensures var o := UnicastMessage(stale, id, rtype, name, answer, authority, additional).value;
            var m := o.buf[..o.pos];
            Get16(m, 0) == id && m[2] == 0x84 && m[3] == 0 && Get16(m, 4) == 1 && Asks(m, name, rtype)
  {
    hide EntryOk, EmitItems, GoodItems, AllCarried, WiresBytes, ItemsValid, UnicastMessage, SectionCount, Get16, MessageHeader,
      PlainItems, NameAt, NameEnd, GoodName, GoodRecord, Labels, Be16, Asks, QuestionBytes;
    var o := UnicastMessage(stale, id, rtype, name, answer, authority, additional).value;
    var m := o.buf[..o.pos];
    UnicastBytes(stale, id, rtype, name, answer, authority, additional, top);
    HeaderReads(m, id, RESPONSE_FLAGS, 1, 1, SectionCount(authority), SectionCount(additional));
    GoodIsShort(Labels(name), top);
    QuestionAsks(m, UnicastHeader(id, authority, additional), rtype, name,
                 WiresBytes(UnicastWires(stale, rtype, name, answer, authority, additional)));
  }

  /** A unicast answer whose answer is not a text record, read by the routine that receives
      answers, with any query ID it may be waiting for: the one question is passed over and
      every record is recovered, the answer with class IN and a TTL of 10. */
  lemma UnicastRoundTrip(stale: seq<byte>, id: u16, rtype: u16, name: NameText, answer: Record,
                         authority: seq<Record>, additional: seq<Record>, onlyId: int, top: Label)
    requires GoodName(Labels(name), top) && GoodRecord(answer, top) && GoodRecords(authority, top) && GoodRecords(additional, top)
    requires |stale| <= 0x4000 && !answer.data.Txt? && (onlyId <= 0 || onlyId == id)
    requires UnicastMessage(stale, id, rtype, name, answer, authority, additional).Some?
    ensures var o := UnicastMessage(stale, id, rtype, name, answer, authority, additional).value;
            var m := o.buf[..o.pos];
            var s := ReceivedAnswer(m, onlyId);
            AllRecovered(m, s.answers, [Plain(answer.(rclass := CLASS_IN, ttl := LEGACY_TTL))], Answer, id)
            && AllRecovered(m, s.authority, UnicastSection(authority), Authority, id)
            && AllRecovered(m, s.additional, UnicastSection(additional), Additional, id)
            && s.end == |m| && Total(s) == 1 + SectionCount(authority) + SectionCount(additional)
            && Get16(m, 0) == id && m[2] == 0x84 && m[3] == 0 && Get16(m, 4) == 1 && Asks(m, name, rtype)
  {
    hide EntryOk, EmitName, EmitItems, GoodItems, AllCarried, AllRecovered, WiresBytes, ItemsValid, UnicastMessage,
      UnicastSection, SectionCount, Get16, ParseSections, MessageHeader, PlainItems, NameAt, NameEnd, GoodName, GoodRecord,
      Labels, Be16, Asks;
    var asked := answer.(rclass := CLASS_IN, ttl := LEGACY_TTL);
    var o := UnicastMessage(stale, id, rtype, name, answer, authority, additional).value;
    var m := o.buf[..o.pos];
    var items := UnicastItems(answer, authority, additional);
    UnicastBytes(stale, id, rtype, name, answer, authority, additional, top);
    var at := HEADER_SIZE + |QuestionBytes(rtype, name).0|;
    var ws := UnicastWires(stale, rtype, name, answer, authority, additional);
    AnswerItemsIs(asked);
    SectionCounts(authority, 0, 0);
    SectionCounts(additional, 0, 0);
    WiresLength(ws);
    HeaderReads(m, id, RESPONSE_FLAGS, 1, 1, SectionCount(authority), SectionCount(additional));
    OneQuestion(m, at);
    UnicastOpens(stale, id, rtype, name, answer, authority, additional, top);
    SectionsRecovered(m, at, ws, [Plain(asked)], UnicastSection(authority), UnicastSection(additional), id, top);
    var s := ReceivedAnswer(m, onlyId);
    RecoveredLengths(m, s.answers, [Plain(asked)], Answer, id);
    RecoveredLengths(m, s.authority, UnicastSection(authority), Authority, id);
    RecoveredLengths(m, s.additional, UnicastSection(additional), Additional, id);
  }

  /** The counts in the header of a unicast reply, and what is delivered when its answer is a text record. */
  lemma UnicastCounts(stale: seq<byte>, id: u16, rtype: u16, name: NameText, answer: Record,
                      authority: seq<Record>, additional: seq<Record>, onlyId: int, top: Label)
    requires GoodName(Labels(name), top) && GoodRecord(answer, top) && GoodRecords(authority, top) && GoodRecords(additional, top)
    requires |stale| <= 0x4000 && (onlyId <= 0 || onlyId == id)
    requires UnicastMessage(stale, id, rtype, name, answer, authority, additional).Some?
    ensures var o := UnicastMessage(stale, id, rtype, name, answer, authority, additional).value;
            var m := o.buf[..o.pos];
            Get16(m, 6) == 1 && Get16(m, 8) == SectionCount(authority) && Get16(m, 10) == SectionCount(additional)
            && (answer.data.Txt? ==> Total(ReceivedAnswer(m, onlyId)) == SectionCount(authority) + SectionCount(additional))
  {
    hide EntryOk, EmitName, EmitItems, GoodItems, AllCarried, WiresBytes, ItemsValid, UnicastMessage, Total,
      UnicastSection, SectionCount, Get16, ParseSections, MessageHeader, PlainItems, NameAt, NameEnd, GoodName, GoodRecord,
      Labels, Be16;
    var asked := answer.(rclass := CLASS_IN, ttl := LEGACY_TTL);
    var o := UnicastMessage(stale, id, rtype, name, answer, authority, additional).value;
    var m := o.buf[..o.pos];
    var y, z := UnicastSection(authority), UnicastSection(additional);
    UnicastBytes(stale, id, rtype, name, answer, authority, additional, top);
    var at := HEADER_SIZE + |QuestionBytes(rtype, name).0|;
    var ws := UnicastWires(stale, rtype, name, answer, authority, additional);
    AnswerItemsIs(asked);
    SectionCounts(authority, 0, 0);
    SectionCounts(additional, 0, 0);
    CarriedLengths(m, at, ws, UnicastItems(answer, authority, additional));
    WiresLength(ws);
    HeaderReads(m, id, RESPONSE_FLAGS, 1, 1, SectionCount(authority), SectionCount(additional));
    OneQuestion(m, at);
    if answer.data.Txt? {
      assert UnicastItems(answer, authority, additional) == y + z;
      OneShort(m, at, ws, y, z, id, top);
    }
  }

  /** The header of a unicast reply, too, counts exactly the records that are delivered if and
      only if the answer is not a text record. */
  lemma UnicastCountsExactly(stale: seq<byte>, id: u16, rtype: u16, name: NameText, answer: Record,
                             authority: seq<Record>, additional: seq<Record>, onlyId: int, top: Label)
    requires GoodName(Labels(name), top) && GoodRecord(answer, top) && GoodRecords(authority, top) && GoodRecords(additional, top)
    requires |stale| <= 0x4000 && (onlyId <= 0 || onlyId == id)
    requires UnicastMessage(stale, id, rtype, name, answer, authority, additional).Some?
    ensures var o := UnicastMessage(stale, id, rtype, name, answer, authority, additional).value;
            var m := o.buf[..o.pos];
            (Total(ReceivedAnswer(m, onlyId)) == Get16(m, 6) as int + Get16(m, 8) + Get16(m, 10) <==> !answer.data.Txt?)
  {
    hide AllRecovered, UnicastMessage, UnicastSection, Get16, GoodName, GoodRecord, GoodRecords, Labels, ReceivedAnswer, Total, SectionCount;
    UnicastCounts(stale, id, rtype, name, answer, authority, additional, onlyId, top);
    if !answer.data.Txt? {
      UnicastRoundTrip(stale, id, rtype, name, answer, authority, additional, onlyId, top);
    }
  }

  /** The question of a message: it starts at byte 12 and is of class IN, asking for a unicast reply. */
  ghost predicate Asks(m: seq<byte>, name: NameText, rtype: u16) {
    ReadName(m, 12, MAX_FETCHES) == Some(Labels(name))
    && match NameEnd(m, 12, MAX_FETCHES)
       case None => false
       case Some(e) => e + 4 <= |m| && Get16(m, e) == rtype && m[e + 2] == 0x80 && m[e + 3] == 1
  }

  lemma GoodIsShort(ls: seq<Label>, top: Label)
    requires GoodName(ls, top)
    ensures |ls| < MAX_FETCHES
  {
  }

  lemma QuestionAsks(m: seq<byte>, header: seq<byte>, rtype: u16, name: NameText, rest: seq<byte>)
    requires |header| == HEADER_SIZE && m == header + QuestionBytes(rtype, name).0 + rest
    requires NameEnd(m, HEADER_SIZE, MAX_FETCHES) == Some(HEADER_SIZE + |QuestionBytes(rtype, name).0| - 4)
    requires NameAt(m, HEADER_SIZE, Labels(name), 1) && |Labels(name)| < MAX_FETCHES
    ensures Asks(m, name, rtype)
  {
    hide NameEnd, NameAt, Labels, ReadName, EmitName, Get16;
    TextOf(m, 12, Labels(name), 0);
    var asked := QuestionBytes(rtype, name).0;
    var n := |asked| - 4;
    var tail := Be16(rtype) + Be16(CLASS_IN + TOP_BIT);
    assert asked[n..] == tail;
    assert m[12..12 + |asked|] == asked;
    Slice(m, 12, asked, n, 4);
    var e := 12 + n;
    assert m[e..e + 4] == tail;
    Slice(m, e, tail, 0, 2);
    Slice(m, e, tail, 2, 2);
    Get16Reads(m, e, rtype);
    assert m[e + 2] == m[e + 2..e + 4][0] && m[e + 3] == m[e + 2..e + 4][1];
  }

  lemma OneQuestion(m: seq<byte>, at: nat)
    requires at >= 4 && NameEnd(m, HEADER_SIZE, MAX_FETCHES) == Some(at - 4)
    ensures SkipQuestions(m, 12, 1) == Some(at)
  {
    assert SkipQuestions(m, at, 0) == Some(at);
  }
}
