/** Which questions the service answers and what is read in its messages, said of names,
    type numbers, TTLs and addresses, and not of the functions that choose or make records. */
module Replies {
  import opened Bytes
  import opened NameReader
  import opened StringTables
  import opened NameWriter
  import opened NameCodec
  import opened NameTheorems
  import opened Records
  import opened RecordCodec
  import opened Messages
  import opened Parser
  import opened RoundTrip
  import opened MessageTheorems
  import opened Goodbye
  import opened Delivered
  import opened Advertise
  import opened ReplyTheorems

  // ----- What there is to be told

  /** What the service has a record of: that there is such a service, the service itself, where
      it runs, the host's addresses, and an empty text. */
  datatype Kind = Services | Pointer | Place | Address4 | Address6 | Text

  function TypeNumber(kind: Kind): (t: u16) {
    match kind
    case Services => 12
    case Pointer => 12
    case Place => 33
    case Address4 => 1
    case Address6 => 28
    case Text => 16
  }

  const SERVICES_TEXT: seq<byte> := Ascii("_services._dns-sd._udp.local.")
  const SERVICE_TEXT: seq<byte> := Ascii("_wlr-remote._udp.local.")
  const INSTANCE_ENDS: seq<byte> := Ascii("._wlr-remote._udp.local.")
  const HOST_ENDS: seq<byte> := Ascii(".local.")

  /** The kinds of record a name is asked for; the text record is never asked for. */
  predicate Owns(s: Service, kind: Kind, name: seq<byte>) {
    if name == SERVICES_TEXT then kind.Services?
    else
      match kind
      case Services => false
      case Pointer => name == SERVICE_TEXT
      case Place => name == s.hostname + INSTANCE_ENDS
      case Address4 => name == s.hostname + HOST_ENDS && s.v4.Some?
      case Address6 => name == s.hostname + HOST_ENDS && s.v6.Some?
      case Text => false
  }

  /** Asked for by its type number or with all others; of two addresses the IPv4 one comes first. */
  predicate AnsweredBy(s: Service, name: seq<byte>, rtype: u16, kind: Kind) {
    Owns(s, kind, name) && (rtype == TypeNumber(kind) || rtype == 255)
    && (kind.Address6? && rtype == 255 ==> s.v4.None?)
  }

  /** The kinds of record that go with an answer, in order. */
  function Companions(s: Service, kind: Kind): (kinds: seq<Kind>) {
    var four: seq<Kind> := if s.v4.Some? then [Address4] else [];
    var six: seq<Kind> := if s.v6.Some? then [Address6] else [];
    match kind
    case Services => []
    case Pointer => [Place] + four + six + [Text]
    case Place => four + six + [Text]
    case Address4 => six + [Text]
    case Address6 => four + [Text]
    case Text => [Text]
  }

  function OwnTtl(kind: Kind): (t: u32) {
    match kind
    case Services => 0
    case Pointer => 4500
    case _ => 120
  }

  /** What a client reads in the record `d` of message `m`. */
  ghost predicate Reads(m: seq<byte>, d: Delivery, s: Service, kind: Kind, ttl: u32) {
    d.rtype == TypeNumber(kind) && d.rclass == 1 && d.ttl == ttl && d.recordOffset + d.recordLength <= |m|
    && var name := TextAt(m, d.nameOffset, 256);
       match kind
       case Services =>
         name == SERVICES_TEXT
         && PtrText(m, d.recordOffset, d.recordLength, 256) == SERVICE_TEXT
       case Pointer =>
         name == SERVICE_TEXT
         && PtrText(m, d.recordOffset, d.recordLength, 256) == s.hostname + INSTANCE_ENDS
       case Place =>
         name == s.hostname + INSTANCE_ENDS
         && SrvOf(m, d.recordOffset, d.recordLength, 256) == SrvRecord(0, 0, s.port, s.hostname + HOST_ENDS)
       case Address4 =>
         name == s.hostname + HOST_ENDS
         && s.v4.Some? && AddressOf(m, d.recordOffset, d.recordLength, 4) == s.v4.value
       case Address6 =>
         name == s.hostname + HOST_ENDS
         && s.v6.Some? && AddressOf(m, d.recordOffset, d.recordLength, 16) == s.v6.value
       case Text =>
         name == s.hostname + INSTANCE_ENDS
         && m[d.recordOffset..d.recordOffset + d.recordLength] == [1, 0]
  }

  ghost predicate AllRead(m: seq<byte>, ds: seq<Delivery>, s: Service, kinds: seq<Kind>, ttl: u32) {
    |ds| == |kinds| && forall i :: 0 <= i < |ds| ==> Reads(m, ds[i], s, kinds[i], ttl)
  }

  // ----- Names

  /** The names in letters. */
  lemma NamesSpelled(hostname: seq<byte>)
    ensures SERVICE_NAME == SERVICE_TEXT
    ensures DNS_SD_SERVICE_INSTANCE == SERVICES_TEXT
    ensures InstanceName(hostname) == hostname + INSTANCE_ENDS
    ensures QualifiedName(hostname) == hostname + HOST_ENDS
  {
    ServiceSpelled();
    ServicesSpelled();
    assert INSTANCE_ENDS == [DOT] + SERVICE_TEXT;
    assert QUALIFIED_SUFFIX == HOST_ENDS;
    hide SERVICE_NAME, SERVICE_TEXT, INSTANCE_ENDS, SERVICES_TEXT, DNS_SD_SERVICE_INSTANCE;
    assert hostname + [DOT] + SERVICE_NAME == hostname + ([DOT] + SERVICE_NAME);
  }

  lemma ServiceSpelled()
    ensures SERVICE_NAME == SERVICE_TEXT
  {
  }

  lemma ServicesSpelled()
    ensures DNS_SD_SERVICE_INSTANCE == SERVICES_TEXT
  {
  }

  /** The one hostname whose qualified name is the service's own. */
  const NAMESAKE: seq<byte> := WLR_REMOTE + [DOT] + UDP

  lemma NamesDiffer(s: Service)
    requires s.hostname != NAMESAKE
    ensures InstanceName(s.hostname) != SERVICE_NAME && QualifiedName(s.hostname) != InstanceName(s.hostname)
         && QualifiedName(s.hostname) != SERVICE_NAME
  {
    assert s.hostname == QualifiedName(s.hostname)[..|s.hostname|];
    assert NAMESAKE == SERVICE_NAME[..|NAMESAKE|];
  }

  /** A proper hostname is not that one. */
  lemma GoodIsNoNamesake(s: Service)
    requires GoodService(s)
    ensures s.hostname != NAMESAKE
  {
    hide Labels, SplitFrom, Dotted;
    if s.hostname == NAMESAKE {
      var ls: seq<Label> := [WLR_REMOTE, UDP];
      DottedOne(WLR_REMOTE);
      DottedOne(UDP);
      DottedConcat([WLR_REMOTE], [UDP]);
      assert ls == [WLR_REMOTE] + [UDP] && Dotted(ls) == NAMESAKE + [DOT];
      SplitDotted([], ls);
      assert [] + Dotted(ls)[..|Dotted(ls)| - 1] == NAMESAKE;
      assert HostLabels(NAMESAKE) == ls;
      RunOfTwo();
    }
  }

  lemma RunOfTwo()
    ensures var ls: seq<Label> := [WLR_REMOTE, UDP]; !NoRun(ls + [WLR_REMOTE, UDP])
  {
    var ls: seq<Label> := [WLR_REMOTE, UDP];
    assert Twice(ls + [WLR_REMOTE, UDP], 0, 2);
  }

  // ----- The choice

  /** The record of a kind. */
  function OwnRecord(s: Service, kind: Kind): (r: Record) {
    match kind
    case Services => Record(DNS_SD_SERVICE_INSTANCE, Ptr(SERVICE_NAME), 0, 0)
    case Pointer => s.PtrRecord()
    case Place => s.SrvRecord()
    case Address4 => s.ARecord()
    case Address6 => s.AaaaRecord()
    case Text => s.TxtRecord()
  }

  function RecordsOf(s: Service, kinds: seq<Kind>): (rs: seq<Record>)
    ensures |rs| == |kinds| && forall i :: 0 <= i < |rs| ==> rs[i] == OwnRecord(s, kinds[i])
  {
    seq(|kinds|, i requires 0 <= i < |kinds| => OwnRecord(s, kinds[i]))
  }

  function AdditionalOf(s: Service, kind: Kind): (rs: seq<Record>) {
    if kind.Services? then [] else s.Additional(TypeNumber(kind))
  }

  lemma CompanionsAre(s: Service, kind: Kind)
    ensures AdditionalOf(s, kind) == RecordsOf(s, Companions(s, kind))
  {
    hide OwnRecord;
    var four, six := s.V4Records(), s.V6Records();
    OwnIs(s);
    match kind
    case Services =>
    case Pointer => assert RecordsOf(s, Companions(s, kind)) == [s.SrvRecord()] + four + six + [s.TxtRecord()];
    case Place => assert RecordsOf(s, Companions(s, kind)) == four + six + [s.TxtRecord()];
    case Address4 => assert RecordsOf(s, Companions(s, kind)) == six + [s.TxtRecord()];
    case Address6 => assert RecordsOf(s, Companions(s, kind)) == four + [s.TxtRecord()];
    case Text => assert RecordsOf(s, Companions(s, kind)) == [s.TxtRecord()];
  }

  lemma OwnIs(s: Service)
    ensures OwnRecord(s, Place) == s.SrvRecord() && OwnRecord(s, Text) == s.TxtRecord()
    ensures OwnRecord(s, Address4) == s.ARecord() && OwnRecord(s, Address6) == s.AaaaRecord()
  {
  }

  /** When the service answers, and with what: for every kind of record the name and type ask
      for, there is an answer, and it is of that kind with its companions; for no kind, none. */
  lemma ChoiceExactly(s: Service, name: seq<byte>, rtype: u16)
    requires 0 !in s.hostname && s.hostname != NAMESAKE
    ensures s.Choose(name, rtype).Some? <==> exists kind :: AnsweredBy(s, name, rtype, kind)
    ensures forall kind :: AnsweredBy(s, name, rtype, kind) ==>
              s.Choose(name, rtype) == Some((OwnRecord(s, kind), AdditionalOf(s, kind)))
  {
    hide StrNEqual, SERVICES_TEXT, SERVICE_TEXT, INSTANCE_ENDS, HOST_ENDS, Service.Additional, Service.PtrRecord, Service.SrvRecord, Service.ARecord, Service.AaaaRecord;
    NamesSpelled(s.hostname);
    NamesDiffer(s);
    NoNulInNames(s);
    StringEqualsIsEquality(name, DNS_SD_SERVICE_INSTANCE);
    StringEqualsIsEquality(name, SERVICE_NAME);
    StringEqualsIsEquality(name, InstanceName(s.hostname));
    StringEqualsIsEquality(name, QualifiedName(s.hostname));
    hide StringEquals, InstanceName, QualifiedName, SERVICE_NAME, DNS_SD_SERVICE_INSTANCE;
    ChoiceCases(s, name, rtype);
  }

  lemma ChoiceCases(s: Service, name: seq<byte>, rtype: u16)
    requires StringEquals(name, DNS_SD_SERVICE_INSTANCE) <==> name == SERVICES_TEXT
    requires StringEquals(name, SERVICE_NAME) <==> name == SERVICE_TEXT
    requires StringEquals(name, InstanceName(s.hostname)) <==> name == s.hostname + INSTANCE_ENDS
    requires StringEquals(name, QualifiedName(s.hostname)) <==> name == s.hostname + HOST_ENDS
    requires s.hostname + INSTANCE_ENDS != SERVICE_TEXT
    requires s.hostname + HOST_ENDS != s.hostname + INSTANCE_ENDS
    requires s.hostname + HOST_ENDS != SERVICE_TEXT
    ensures s.Choose(name, rtype).Some? <==> exists kind :: AnsweredBy(s, name, rtype, kind)
    ensures forall kind :: AnsweredBy(s, name, rtype, kind) ==>
              s.Choose(name, rtype) == Some((OwnRecord(s, kind), AdditionalOf(s, kind)))
  {
    hide StringEquals, SERVICES_TEXT, SERVICE_TEXT, INSTANCE_ENDS, HOST_ENDS, Service.Additional, Service.PtrRecord, Service.SrvRecord, Service.ARecord, Service.AaaaRecord,
      InstanceName, QualifiedName, SERVICE_NAME, DNS_SD_SERVICE_INSTANCE;
    if s.Choose(name, rtype).Some? {
      var kind :=
        if name == SERVICES_TEXT then Services
        else if name == SERVICE_TEXT then Pointer
        else if name == s.hostname + INSTANCE_ENDS then Place
        else if s.v4.Some? && (rtype == 1 || rtype == 255) then Address4 else Address6;
      assert AnsweredBy(s, name, rtype, kind);
    }
  }

  // ----- From what is sent to what is read

  lemma {:induction false} TextComesLast(x: seq<Record>, t: Record)
    requires (forall r :: r in x ==> !r.data.Txt?) && t.data.Txt?
    ensures PlainRecords(x + [t]) == x && TxtRecords(x + [t]) == [t] && Strings(x + [t]) == [t.data]
  {
    if x == [] {
      assert [] + [t] == [t] && [t][1..] == [];
    } else {
      TextComesLast(x[1..], t);
      assert (x + [t])[1..] == x[1..] + [t];
      assert x[0] in x;
    }
  }

  lemma KindOfText(s: Service, kind: Kind)
    ensures OwnRecord(s, kind).data.Txt? <==> kind.Text?
  {
  }

  lemma CompanionsShape(s: Service, kind: Kind)
    ensures var kinds := Companions(s, kind);
            (kinds != [] <==> !kind.Services?)
            && (forall i :: 0 <= i < |kinds| ==> (kinds[i].Text? <==> i == |kinds| - 1) && !kinds[i].Services? && !kinds[i].Pointer?)
            && (forall i :: 0 <= i < |kinds| ==> (kinds[i].Address4? ==> s.v4.Some?) && (kinds[i].Address6? ==> s.v6.Some?))
  {
  }

  /** The companions are delivered as they are listed: the text record is one, and the last. */
  lemma HeadsOfCompanions(s: Service, kind: Kind)
    ensures var rs := RecordsOf(s, Companions(s, kind));
            SectionHeads(rs) == rs && (rs != [] ==> Strings(rs) == [Txt([], [])])
  {
    hide OwnRecord, Companions;
    var kinds := Companions(s, kind);
    var rs := RecordsOf(s, kinds);
    CompanionsShape(s, kind);
    if rs != [] {
      var n := |rs| - 1;
      forall r | r in rs[..n] ensures !r.data.Txt? {
        var i :| 0 <= i < n && rs[i] == r;
        KindOfText(s, kinds[i]);
      }
      TextOfOwn(s);
      TextComesLast(rs[..n], rs[n]);
      assert rs == rs[..n] + [rs[n]];
    }
  }

  lemma TextOfOwn(s: Service)
    ensures OwnRecord(s, Text).data == Txt([], [])
  {
  }

  lemma NameIsRead(m: seq<byte>, at: nat, name: NameText)
    requires ReadName(m, at, MAX_FETCHES) == Some(Labels(name)) && Dotted(Labels(name)) == name && |name| <= 256
    ensures TextAt(m, at, 256) == name
  {
    hide ReadName, Labels, Dotted;
  }

  lemma OwnNames(s: Service)
    requires GoodService(s)
    ensures Dotted(Labels(SERVICE_NAME)) == SERVICE_NAME && |SERVICE_NAME| <= 256
    ensures Dotted(Labels(DNS_SD_SERVICE_INSTANCE)) == DNS_SD_SERVICE_INSTANCE && |DNS_SD_SERVICE_INSTANCE| <= 256
    ensures Dotted(Labels(InstanceName(s.hostname))) == InstanceName(s.hostname) && |InstanceName(s.hostname)| <= 256
    ensures Dotted(Labels(QualifiedName(s.hostname))) == QualifiedName(s.hostname) && |QualifiedName(s.hostname)| <= 256
    ensures Labels(QualifiedName(s.hostname)) != []
  {
    hide Labels, Dotted, HostOk, GoodName, HostLabels;
    ServiceNames(s.hostname);
    GoodLength(s);
    assert |HostLabels(s.hostname) + [LOCAL]| > 0;
  }

  /** A record of the service, delivered with its name and data, is read as what it is. */
  lemma SentReads(m: seq<byte>, d: Delivery, s: Service, kind: Kind, ttl: u32)
    requires GoodService(s) && HasNameAndData(m, d, OwnRecord(s, kind)) && d.rclass == 1 && d.ttl == ttl
    requires (kind.Address4? ==> s.v4.Some?) && (kind.Address6? ==> s.v6.Some?)
    requires kind.Text? ==> m[d.recordOffset..d.recordOffset + d.recordLength] == [1, 0]
    ensures Reads(m, d, s, kind, ttl)
  {
    hide Labels, Dotted, ReadName, GoodService, TextAt, SrvOf, PtrText, AddressOf, InstanceName, QualifiedName, SERVICE_NAME,
      DNS_SD_SERVICE_INSTANCE, SERVICES_TEXT, SERVICE_TEXT, INSTANCE_ENDS, HOST_ENDS;
    OwnNames(s);
    NamesSpelled(s.hostname);
    NameIsRead(m, d.nameOffset, OwnRecord(s, kind).name);
    CutWhole(SERVICE_NAME);
    CutWhole(InstanceName(s.hostname));
    CutWhole(QualifiedName(s.hostname));
  }

  lemma CutWhole(text: seq<byte>)
    requires |text| <= 256
    ensures Cut(text, 256) == text
  {
  }

  lemma EmptyText(data: seq<byte>)
    requires IsText(data, [Txt([], [])])
    ensures data == [1, 0]
  {
    var strings: seq<RecordData> := [Txt([], [])];
    assert strings[1..] == [];
    assert data[2..] == [];
    assert TxtStart(strings[0]) == [1, 0] <= data;
  }

  /** What is known of delivered records of the service, whichever way they were sent. */
  ghost predicate AllSent(m: seq<byte>, ds: seq<Delivery>, s: Service, kinds: seq<Kind>, ttl: u32) {
    |ds| == |kinds|
    && forall i :: 0 <= i < |ds| ==> HasNameAndData(m, ds[i], OwnRecord(s, kinds[i])) && ds[i].rclass == 1 && ds[i].ttl == ttl
  }

  lemma CompanionsRead(m: seq<byte>, ds: seq<Delivery>, s: Service, kind: Kind, ttl: u32)
    requires GoodService(s) && AllSent(m, ds, s, Companions(s, kind), ttl)
    requires TextSent(m, ds, RecordsOf(s, Companions(s, kind)))
    ensures AllRead(m, ds, s, Companions(s, kind), ttl)
  {
    hide HasNameAndData, OwnRecord, Reads, GoodService, IsText, Companions;
    var kinds := Companions(s, kind);
    var rs := RecordsOf(s, kinds);
    HeadsOfCompanions(s, kind);
    CompanionsShape(s, kind);
    if rs != [] {
      TextOfOwn(s);
      assert rs[|rs| - 1] == OwnRecord(s, Text) && rs[|rs| - 1] in rs;
      EmptyText(m[ds[|ds| - 1].recordOffset..ds[|ds| - 1].recordOffset + ds[|ds| - 1].recordLength]);
    }
    forall i | 0 <= i < |ds| ensures Reads(m, ds[i], s, kinds[i], ttl) {
      SentReads(m, ds[i], s, kinds[i], ttl);
    }
  }

  // ----- Replies

  /** A reply to one client, as it reads it: sent to it alone, an authoritative response with its
      query's ID and its question, and with one answer, of class IN and a TTL of 10, of the kind
      asked for; with that, in order, the kinds of record that go with it. */
  ghost predicate ToldToOne(s: Service, name: NameText, rtype: u16, id: u16, kind: Kind, r: Answered) {
    r.Answered? && r.unicast && r.message.Some? && 12 <= |r.message.value| <= 6 * |s.hostname| + 241
    && var m := r.message.value;
       var got := ReceivedAnswer(m, id);
       m[0] == id / 0x100 && m[1] == id % 0x100 && m[2] == 0x84 && m[3] == 0 && Asks(m, name, rtype)
       && |got.answers| == 1 && Reads(m, got.answers[0], s, kind, 10)
       && got.authority == [] && AllRead(m, got.additional, s, Companions(s, kind), 120) && got.end == |m|
  }

  /** A reply to all, as anyone who listens hears it. */
  ghost predicate ToldToAll(s: Service, kind: Kind, r: Answered) {
    r.Answered? && !r.unicast && r.message.Some? && |r.message.value| <= 6 * |s.hostname| + 241
    && IsHeard(r.message.value, s, kind, if kind.Services? then 60 else OwnTtl(kind), 120)
  }

  /** An authoritative response without question: one answer of the kind, and its companions. */
  ghost predicate IsHeard(m: seq<byte>, s: Service, kind: Kind, ttl: u32, ttlOfOthers: u32) {
    Listenable(m) && m[0] == 0 && m[1] == 0 && m[2] == 0x84 && m[3] == 0 && Heard(m).0 == []
    && var got := Heard(m).1;
       |got.answers| == 1 && Reads(m, got.answers[0], s, kind, ttl)
       && got.authority == [] && AllRead(m, got.additional, s, Companions(s, kind), ttlOfOthers) && got.end == |m|
  }

  lemma OwnIsGood(s: Service, kind: Kind)
    requires GoodService(s)
    ensures GoodRecord(OwnRecord(s, kind), LOCAL) && GoodName(Labels(OwnRecord(s, kind).name), LOCAL)
    ensures GoodRecords(RecordsOf(s, Companions(s, kind)), LOCAL) && GoodRecords([], LOCAL)
  {
    hide GoodService, Labels, GoodName, HostOk, Companions;
    OwnRecordsGood(s);
  }

  lemma {:induction false} NoneSent(m: seq<byte>, ds: seq<Delivery>, rclass: u16, ttl: u32)
    ensures AllSentToAll(m, ds, SectionHeads([]), rclass, ttl) ==> ds == []
    ensures AllSentToOne(m, ds, SectionHeads([])) ==> ds == []
  {
  }

  /** The record of a kind, as it is delivered from a multicast message. */
  lemma OwnSentToAll(m: seq<byte>, d: Delivery, s: Service, kind: Kind, rclass: u16, ttl: u32)
    requires SentToAll(m, d, OwnRecord(s, kind), rclass, ttl) && (rclass == 1 || !kind.Services?)
    ensures HasNameAndData(m, d, OwnRecord(s, kind)) && d.rclass == 1
    ensures d.ttl == if ttl == 0 || kind.Services? then ttl else OwnTtl(kind)
  {
    hide HasNameAndData;
  }

  lemma OwnSentToOne(m: seq<byte>, d: Delivery, s: Service, kind: Kind)
    requires SentToOne(m, d, OwnRecord(s, kind)) && !kind.Services?
    ensures HasNameAndData(m, d, OwnRecord(s, kind)) && d.rclass == 1 && d.ttl == OwnTtl(kind)
  {
    hide HasNameAndData;
  }

  /** What is heard of any multicast message about the service: reply, announcement or goodbye. */
  lemma MulticastIsHeard(stale: seq<byte>, s: Service, kind: Kind, rclass: u16, ttl: u32)
    requires GoodService(s) && |stale| <= 0x4000 && !kind.Text? && (rclass == 1 || !kind.Services?)
    requires (kind.Address4? ==> s.v4.Some?) && (kind.Address6? ==> s.v6.Some?)
    requires MulticastMessage(stale, OwnRecord(s, kind), [], RecordsOf(s, Companions(s, kind)), rclass, ttl).Some?
    ensures var o := MulticastMessage(stale, OwnRecord(s, kind), [], RecordsOf(s, Companions(s, kind)), rclass, ttl).value;
            IsHeard(o.buf[..o.pos], s, kind, if ttl == 0 || kind.Services? then ttl else OwnTtl(kind), if ttl == 0 then 0 else 120)
  {
    hide MulticastMessage, SentToAll, Reads, AllRead, OwnRecord, SectionHeads, GoodRecord, GoodRecords, GoodName, HasNameAndData,
      GoodService, Get16, ParseSections, NameEnd, TextSent, Companions, Labels, MulticastSection;
    var answer, additional := OwnRecord(s, kind), RecordsOf(s, Companions(s, kind));
    OwnIsGood(s, kind);
    KindOfText(s, kind);
    MulticastRoundTrip(stale, answer, [], additional, rclass, ttl, LOCAL);
    MulticastDelivers(stale, answer, [], additional, rclass, ttl, LOCAL);
    var o := MulticastMessage(stale, answer, [], additional, rclass, ttl).value;
    var m := o.buf[..o.pos];
    var got := ParseSections(m, HEADER_SIZE, 0, Get16(m, 6), Get16(m, 8), Get16(m, 10));
    OwnSentToAll(m, got.answers[0], s, kind, rclass, ttl);
    SentReads(m, got.answers[0], s, kind, if ttl == 0 || kind.Services? then ttl else OwnTtl(kind));
    NoneSent(m, got.authority, rclass, ttl);
    HeadsOfCompanions(s, kind);
    CompanionsShape(s, kind);
    forall i | 0 <= i < |additional| ensures HasNameAndData(m, got.additional[i], additional[i]) && got.additional[i].rclass == 1
      && got.additional[i].ttl == if ttl == 0 then 0 else 120
    {
      OwnSentToAll(m, got.additional[i], s, Companions(s, kind)[i], rclass, ttl);
    }
    CompanionsRead(m, got.additional, s, kind, if ttl == 0 then 0 else 120);
  }

  lemma UnicastIsTold(stale: seq<byte>, s: Service, kind: Kind, id: u16, rtype: u16)
    requires GoodService(s) && |stale| <= 0x4000 && !kind.Text?
    requires (kind.Address4? ==> s.v4.Some?) && (kind.Address6? ==> s.v6.Some?)
    requires var answer := OwnRecord(s, kind);
             UnicastMessage(stale, id, rtype, answer.name, answer, [], RecordsOf(s, Companions(s, kind))).Some?
    ensures var answer := OwnRecord(s, kind);
            var o := UnicastMessage(stale, id, rtype, answer.name, answer, [], RecordsOf(s, Companions(s, kind))).value;
            o.pos <= 6 * |s.hostname| + 241 ==>
              ToldToOne(s, answer.name, rtype, id, kind, Answered(true, Some(o.buf[..o.pos])))
  {
    hide UnicastMessage, SentToOne, Reads, AllRead, OwnRecord, SectionHeads, GoodRecord, GoodRecords, GoodName, HasNameAndData,
      GoodService, Get16, ReceivedAnswer, NameEnd, TextSent, Companions, Labels, UnicastSection, Asks;
    var answer, additional := OwnRecord(s, kind), RecordsOf(s, Companions(s, kind));
    OwnIsGood(s, kind);
    KindOfText(s, kind);
    UnicastRoundTrip(stale, id, rtype, answer.name, answer, [], additional, id, LOCAL);
    UnicastDelivers(stale, id, rtype, answer.name, answer, [], additional, id, LOCAL);
    var o := UnicastMessage(stale, id, rtype, answer.name, answer, [], additional).value;
    var m := o.buf[..o.pos];
    BytesRead(m, 0);
    var got := ReceivedAnswer(m, id);
    SentReads(m, got.answers[0], s, kind, 10);
    NoneSent(m, got.authority, 0, 0);
    HeadsOfCompanions(s, kind);
    CompanionsShape(s, kind);
    forall i | 0 <= i < |additional| ensures HasNameAndData(m, got.additional[i], additional[i]) && got.additional[i].rclass == 1
      && got.additional[i].ttl == 120
    {
      OwnSentToOne(m, got.additional[i], s, Companions(s, kind)[i]);
    }
    CompanionsRead(m, got.additional, s, kind, 120);
  }
}
