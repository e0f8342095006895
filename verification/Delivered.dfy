/** What becomes of each record given to a message builder, said of the record that is
    delivered from the message: its type, class, TTL, name and data, in plain figures. */
module Delivered {
  import opened Bytes
  import opened NameReader
  import opened NameWriter
  import opened NameCodec
  import opened Records
  import opened RecordCodec
  import opened Messages
  import opened Parser
  import opened RoundTrip
  import opened MessageTheorems
  import opened Goodbye

  // ----- One record

  /** The type numbers of RFC 1035, RFC 2782 and RFC 3596. */
  predicate HasType(d: Delivery, data: RecordData) {
    match data
    case Ptr(_) => d.rtype == 12
    case Srv(_, _, _, _) => d.rtype == 33
    case A(_) => d.rtype == 1
    case Aaaa(_) => d.rtype == 28
    case Txt(_, _) => d.rtype == 16
    case Other(t) => d.rtype == t
  }

  /** The record's own TTL if both it and the TTL asked for are nonzero, the TTL asked for otherwise. */
  predicate HasTtl(d: Delivery, r: Record, ttl: u32) {
    if r.ttl != 0 && ttl != 0 then d.ttl == r.ttl else d.ttl == ttl
  }

  /** Of the record's own class, or of the class asked for if it has none, the lowest bit, and
      the cache-flush bit except for a pointer record. */
  predicate HasClass(d: Delivery, r: Record, rclass: u16) {
    var c := if r.rclass == 0 then rclass else r.rclass;
    d.rclass % 0x8000 == c % 2 && (d.rclass >= 0x8000 <==> c >= 0x8000 && !r.data.Ptr?)
  }

  ghost predicate HasNameAndData(m: seq<byte>, d: Delivery, r: Record) {
    ReadName(m, d.nameOffset, MAX_FETCHES) == Some(Labels(r.name)) && HasType(d, r.data)
    && d.recordOffset + d.recordLength <= |m| && DataRecovered(m, d, r.data)
  }

  /** `d` is the record `r` as a multicast message sends it. */
  ghost predicate SentToAll(m: seq<byte>, d: Delivery, r: Record, rclass: u16, ttl: u32) {
    HasNameAndData(m, d, r) && HasTtl(d, r, ttl) && HasClass(d, r, rclass)
  }

  ghost predicate AllSentToAll(m: seq<byte>, ds: seq<Delivery>, rs: seq<Record>, rclass: u16, ttl: u32) {
    |ds| == |rs| && forall i :: 0 <= i < |ds| ==> SentToAll(m, ds[i], rs[i], rclass, ttl)
  }

  /** `d` is the record `r` as a unicast reply sends it with its answer: class IN, and a TTL of 10
      if it has none. A text record alone keeps its cache-flush bit. */
  ghost predicate SentToOne(m: seq<byte>, d: Delivery, r: Record) {
    HasNameAndData(m, d, r) && (if r.ttl != 0 then d.ttl == r.ttl else d.ttl == 10)
    && if r.data.Txt? then HasClass(d, r, 1) else d.rclass == 1
  }

  ghost predicate AllSentToOne(m: seq<byte>, ds: seq<Delivery>, rs: seq<Record>) {
    |ds| == |rs| && forall i :: 0 <= i < |ds| ==> SentToOne(m, ds[i], rs[i])
  }

  lemma RecoveredIsSent(m: seq<byte>, d: Delivery, item: Item, r: Record, rclass: u16, ttl: u32, entry: EntryType, id: u16)
    requires Recovered(m, d, item, entry, id) && item.rec == UpdateRclassTtl(r, rclass, ttl) && ItemValid(item)
    ensures SentToAll(m, d, r, rclass, ttl)
  {
    hide ReadName, NameEnd, Labels;
  }

  lemma RecoveredIsSentToOne(m: seq<byte>, d: Delivery, item: Item, r: Record, entry: EntryType, id: u16)
    requires Recovered(m, d, item, entry, id) && ItemValid(item)
    requires item.rec == if r.data.Txt? then UpdateRclassTtl(r, CLASS_IN, LEGACY_TTL) else ForUnicast(r)
    ensures SentToOne(m, d, r)
  {
    hide ReadName, NameEnd, Labels;
  }

  // ----- The records of a section

  /** The records that are delivered for a section's: all but the text records, in order, and
      then the first text record. */
  lemma HeadsAreRecords(records: seq<Record>)
    ensures forall r :: r in records && !r.data.Txt? ==> r in SectionHeads(records)
    ensures forall r :: r in SectionHeads(records) ==> r in records
    ensures (exists r :: r in records && r.data.Txt?) <==>
            (SectionHeads(records) != [] && SectionHeads(records)[|SectionHeads(records)| - 1].data.Txt?)
  {
    PlainAre(records);
    FirstText(records);
    var p := PlainRecords(records);
    if TxtRecords(records) == [] && p != [] {
      assert p[|p| - 1] in p;
    }
  }

  lemma {:induction false} PlainAre(records: seq<Record>)
    ensures forall r :: r in PlainRecords(records) <==> r in records && !r.data.Txt?
  {
    if records != [] {
      PlainAre(records[1..]);
      assert forall r :: r in records <==> r == records[0] || r in records[1..];
    }
  }

  lemma {:induction false} FirstText(records: seq<Record>)
    ensures TxtRecords(records) == [] <==> forall r :: r in records ==> !r.data.Txt?
    ensures TxtRecords(records) != [] ==> TxtRecords(records)[0] in records
  {
    if records != [] {
      FirstText(records[1..]);
      assert forall r :: r in records <==> r == records[0] || r in records[1..];
    }
  }

  lemma SectionSent(m: seq<byte>, ds: seq<Delivery>, records: seq<Record>, rclass: u16, ttl: u32, entry: EntryType, id: u16)
    requires AllRecovered(m, ds, MulticastSection(records, rclass, ttl), entry, id)
    ensures AllSentToAll(m, ds, SectionHeads(records), rclass, ttl)
  {
    hide Recovered, SentToAll, ItemValid, UpdateRclassTtl, MulticastSection, SectionHeads;
    SectionMadeFrom(records, rclass, ttl, rclass, ttl);
    MulticastSectionValid(records, rclass, ttl);
    var items, hs := MulticastSection(records, rclass, ttl), SectionHeads(records);
    forall i | 0 <= i < |ds| ensures SentToAll(m, ds[i], hs[i], rclass, ttl) {
      assert items[i] in items;
      RecoveredIsSent(m, ds[i], items[i], hs[i], rclass, ttl, entry, id);
    }
  }

  /** The text record of a section, delivered last, holds all its text strings in order. */
  ghost predicate TextSent(m: seq<byte>, ds: seq<Delivery>, records: seq<Record>) {
    (exists r :: r in records && r.data.Txt?) ==>
      ds != []
      && var d := ds[|ds| - 1];
         d.recordOffset + d.recordLength <= |m| && IsText(m[d.recordOffset..d.recordOffset + d.recordLength], Strings(records))
  }

  lemma TextIsSent(m: seq<byte>, ds: seq<Delivery>, plain: seq<Item>, records: seq<Record>, rclass: u16, ttl: u32, entry: EntryType, id: u16)
    requires AllRecovered(m, ds, plain + TextItems(records, rclass, ttl), entry, id)
    ensures TextSent(m, ds, records)
  {
    hide ReadName, NameEnd, Labels, IsText, UpdateRclassTtl;
    FirstText(records);
    if TxtRecords(records) != [] {
      var items := plain + TextItems(records, rclass, ttl);
      assert Recovered(m, ds[|ds| - 1], items[|ds| - 1], entry, id);
    }
  }

  lemma MulticastSectionValid(records: seq<Record>, rclass: u16, ttl: u32)
    ensures ItemsValid(MulticastSection(records, rclass, ttl))
  {
    hide ItemValid;
    PlainItemsValid(Updated(records, rclass, ttl));
    TextItemsValid(records, rclass, ttl);
  }

  lemma SectionTextSent(m: seq<byte>, ds: seq<Delivery>, records: seq<Record>, rclass: u16, ttl: u32, entry: EntryType, id: u16)
    requires AllRecovered(m, ds, MulticastSection(records, rclass, ttl), entry, id)
    ensures TextSent(m, ds, records)
  {
    hide AllRecovered, TextSent;
    TextIsSent(m, ds, PlainItems(Updated(records, rclass, ttl)), records, rclass, ttl, entry, id);
  }

  /** Every record of a multicast message, an announcement or a goodbye is delivered as what was
      given: its own TTL unless one of the two is zero, its own class if it has one. */
  lemma MulticastDelivers(stale: seq<byte>, answer: Record, authority: seq<Record>, additional: seq<Record>,
                          rclass: u16, ttl: u32, top: Label)
    requires GoodRecord(answer, top) && GoodRecords(authority, top) && GoodRecords(additional, top) && |stale| <= 0x4000
    requires MulticastMessage(stale, answer, authority, additional, rclass, ttl).Some? && !answer.data.Txt?
    ensures var o := MulticastMessage(stale, answer, authority, additional, rclass, ttl).value;
            var m := o.buf[..o.pos];
            var s := ParseSections(m, HEADER_SIZE, 0, Get16(m, 6), Get16(m, 8), Get16(m, 10));
            AllSentToAll(m, s.answers, [answer], rclass, ttl)
            && AllSentToAll(m, s.authority, SectionHeads(authority), rclass, ttl)
            && AllSentToAll(m, s.additional, SectionHeads(additional), rclass, ttl)
            && TextSent(m, s.authority, authority) && TextSent(m, s.additional, additional) && s.end == |m|
  {
    hide TextSent, MulticastMessage, Recovered, SentToAll, UpdateRclassTtl, MulticastSection, SectionHeads, GoodRecord, GoodRecords, Get16, ParseSections;
    MulticastRoundTrip(stale, answer, authority, additional, rclass, ttl, top);
    var o := MulticastMessage(stale, answer, authority, additional, rclass, ttl).value;
    var m := o.buf[..o.pos];
    var s := ParseSections(m, HEADER_SIZE, 0, Get16(m, 6), Get16(m, 8), Get16(m, 10));
    TypeKept(answer, rclass, ttl);
    RecoveredIsSent(m, s.answers[0], Plain(UpdateRclassTtl(answer, rclass, ttl)), answer, rclass, ttl, Answer, 0);
    SectionSent(m, s.authority, authority, rclass, ttl, Authority, 0);
    SectionSent(m, s.additional, additional, rclass, ttl, Additional, 0);
    SectionTextSent(m, s.authority, authority, rclass, ttl, Authority, 0);
    SectionTextSent(m, s.additional, additional, rclass, ttl, Additional, 0);
  }

  // ----- Unicast

  lemma {:induction false} PlainForUnicast(records: seq<Record>)
    ensures |PlainItems(AllForUnicast(records))| == |PlainRecords(records)|
    ensures forall i :: 0 <= i < |PlainRecords(records)| ==>
              PlainItems(AllForUnicast(records))[i] == Plain(ForUnicast(PlainRecords(records)[i]))
  {
    hide ForUnicast;
    if records != [] {
      PlainForUnicast(records[1..]);
      var us := AllForUnicast(records);
      KindKept(records[0]);
      assert us[0] == ForUnicast(records[0]) && us[1..] == AllForUnicast(records[1..]);
    }
  }

  lemma KindKept(r: Record)
    ensures ForUnicast(r).data == r.data && ForUnicast(r).name == r.name
  {
  }

  lemma UnicastSectionMade(records: seq<Record>)
    ensures ItemsValid(UnicastSection(records))
    ensures var items, hs := UnicastSection(records), SectionHeads(records);
            |items| == |hs| && forall i :: 0 <= i < |hs| ==>
              items[i].rec == if hs[i].data.Txt? then UpdateRclassTtl(hs[i], CLASS_IN, LEGACY_TTL) else ForUnicast(hs[i])
  {
    hide ItemValid, UpdateRclassTtl, ForUnicast;
    PlainItemsValid(AllForUnicast(records));
    TextItemsValid(records, CLASS_IN, LEGACY_TTL);
    PlainForUnicast(records);
    PlainAre(records);
    var p := PlainRecords(records);
    assert forall i :: 0 <= i < |p| ==> p[i] in p;
  }

  lemma SectionSentToOne(m: seq<byte>, ds: seq<Delivery>, records: seq<Record>, entry: EntryType, id: u16)
    requires AllRecovered(m, ds, UnicastSection(records), entry, id)
    ensures AllSentToOne(m, ds, SectionHeads(records)) && TextSent(m, ds, records)
  {
    TextIsSent(m, ds, PlainItems(AllForUnicast(records)), records, CLASS_IN, LEGACY_TTL, entry, id);
    hide TextSent, Recovered, SentToOne, ItemValid, UpdateRclassTtl, ForUnicast, UnicastSection, SectionHeads;
    UnicastSectionMade(records);
    var items, hs := UnicastSection(records), SectionHeads(records);
    forall i | 0 <= i < |ds| ensures SentToOne(m, ds[i], hs[i]) {
      assert items[i] in items;
      RecoveredIsSentToOne(m, ds[i], items[i], hs[i], entry, id);
    }
  }

  /** Every record of a unicast reply is delivered: the answer with class IN and a TTL of 10,
      the others with class IN and their own TTL. */
  lemma UnicastDelivers(stale: seq<byte>, id: u16, rtype: u16, name: NameText, answer: Record,
                        authority: seq<Record>, additional: seq<Record>, onlyId: int, top: Label)
    requires GoodName(Labels(name), top) && GoodRecord(answer, top) && GoodRecords(authority, top) && GoodRecords(additional, top)
    requires |stale| <= 0x4000 && !answer.data.Txt? && (onlyId <= 0 || onlyId == id)
    requires UnicastMessage(stale, id, rtype, name, answer, authority, additional).Some?
    ensures var o := UnicastMessage(stale, id, rtype, name, answer, authority, additional).value;
            var m := o.buf[..o.pos];
            var s := ReceivedAnswer(m, onlyId);
            |s.answers| == 1 && HasNameAndData(m, s.answers[0], answer) && s.answers[0].rclass == 1 && s.answers[0].ttl == 10
            && AllSentToOne(m, s.authority, SectionHeads(authority))
            && AllSentToOne(m, s.additional, SectionHeads(additional))
            && TextSent(m, s.authority, authority) && TextSent(m, s.additional, additional) && s.end == |m|
  {
    hide TextSent, UnicastMessage, SentToOne, UnicastSection, SectionHeads, GoodRecord, GoodRecords, GoodName, Get16, ReceivedAnswer, ReadName, NameEnd, Labels;
    UnicastRoundTrip(stale, id, rtype, name, answer, authority, additional, onlyId, top);
    var o := UnicastMessage(stale, id, rtype, name, answer, authority, additional).value;
    var m := o.buf[..o.pos];
    var s := ReceivedAnswer(m, onlyId);
    assert Recovered(m, s.answers[0], Plain(answer.(rclass := CLASS_IN, ttl := LEGACY_TTL)), Answer, id);
    SectionSentToOne(m, s.authority, authority, Authority, id);
    SectionSentToOne(m, s.additional, additional, Additional, id);
  }
}
