/** From question to answer and back: what a client that queries the service is told, and
    what the network hears when the service comes and goes. */
module Discovery {
  import opened Bytes
  import opened NameReader
  import opened NameWriter
  import opened NameCodec
  import opened NameTheorems
  import opened Records
  import opened RecordCodec
  import opened Messages
  import opened Parser
  import opened RoundTrip
  import opened StaleBytes
  import opened Goodbye
  import opened QueryTheorems
  import opened Advertise
  import opened ReplyTheorems
  import opened Stability
  import opened Replies

  // ----- Coming and going

  /** The records a service announces, on the wire. */
  ghost function AnnouncementWires(s: Service): (ws: seq<Wire>)
  {
    MulticastWires([], s.PtrRecord(), [], s.Additional(TYPE_PTR), ANNOUNCE_CLASS, ANNOUNCE_TTL)
  }

  lemma ServiceHasNoValues(s: Service)
    ensures NoTxtValues(s.Additional(TYPE_PTR)) && NoTxtValues([])
  {
  }

  lemma {:induction false} PlainRecordsIn(rs: seq<Record>)
    ensures forall r :: r in PlainRecords(rs) ==> r in rs
    ensures forall r :: r in SectionHeads(rs) ==> r in rs
  {
    TxtRecordsIn(rs);
    if rs != [] {
      PlainRecordsIn(rs[1..]);
    }
    var txt := TxtRecords(rs);
    if txt != [] {
      assert txt[0] in txt;
    }
  }

  lemma ServiceKeepsClass(s: Service)
    ensures forall h :: h in Heads(s.PtrRecord(), [], s.Additional(TYPE_PTR)) ==> KeepsClass(h)
  {
    hide PlainRecords, SectionHeads;
    PlainRecordsIn([s.PtrRecord()]);
    PlainRecordsIn([]);
    PlainRecordsIn(s.Additional(TYPE_PTR));
  }

  /** What a service announces is one message of at most 6h + 241 bytes, no TTL in it zero, and
      its goodbye is that message with every TTL put to zero and no other byte changed;
      nothing depends on what the buffer held. */
  lemma AnnouncementAndGoodbye(s: Service, a: Option<seq<byte>>, g: Option<seq<byte>>)
    requires GoodService(s) && Announces(s, false, a) && Announces(s, true, g)
    ensures a.Some? && g.Some? && |a.value| == |g.value| <= 6 * |s.hostname| + 241
    ensures a.value == MulticastHeader([], s.Additional(TYPE_PTR)) + WiresBytes(AnnouncementWires(s))
    ensures OnlyTtlZeroed(a.value, g.value, AnnouncementWires(s))
    ensures forall w :: w in AnnouncementWires(s) ==> w.ttl != 0
  {
    hide MulticastMessage, MulticastItems, GoodRecord, GoodRecords, EmitItems, WiresBytes, AllCarried, GoodItems, MulticastHeader, Heads,
      KeepsClass, OnlyTtlZeroed, ItemsValid, HostOk, NoTxtValues, NoItemValues;
    var staleA: seq<byte> :| |staleA| == ANNOUNCE_CAPACITY && a == MessageBytes(Announcement(s, false, staleA));
    var staleG: seq<byte> :| |staleG| == ANNOUNCE_CAPACITY && g == MessageBytes(Announcement(s, true, staleG));
    var answer, additional := s.PtrRecord(), s.Additional(TYPE_PTR);
    OwnRecordsGood(s);
    NoneGood();
    ServiceHasNoValues(s);
    ServiceKeepsClass(s);
    GoodLength(s);
    AnnouncementFits(s, false, staleA);
    GoodbyeIsAnnouncementExactly(staleA, staleG, answer, [], additional, LOCAL);
    MulticastItemsValid(answer, [], additional, ANNOUNCE_CLASS, ANNOUNCE_TTL);
    MulticastValues(answer, [], additional, ANNOUNCE_CLASS, ANNOUNCE_TTL);
    EmitIndependent(staleA, [], FRESH, HEADER_SIZE, MulticastItems(answer, [], additional, ANNOUNCE_CLASS, ANNOUNCE_TTL));
  }

  /** Whoever hears the announcement is told of the service, with a TTL of 4500 for its pointer and 120
      for each other record; whoever hears the goodbye is told the same with every TTL 0. */
  lemma AnnouncementIsHeard(s: Service, goodbye: bool, a: Option<seq<byte>>)
    requires GoodService(s) && Announces(s, goodbye, a)
    ensures a.Some? && IsHeard(a.value, s, Pointer, if goodbye then 0 else 4500, if goodbye then 0 else 120)
  {
    hide MulticastMessage, IsHeard, GoodService, Service.Additional, Service.PtrRecord, RecordsOf;
    var stale: seq<byte> :| |stale| == ANNOUNCE_CAPACITY && a == MessageBytes(Announcement(s, goodbye, stale));
    GoodLength(s);
    AnnouncementFits(s, goodbye, stale);
    CompanionsAre(s, Pointer);
    MulticastIsHeard(stale, s, Pointer, if goodbye then CLASS_IN else ANNOUNCE_CLASS, if goodbye then 0 else ANNOUNCE_TTL);
  }

  // ----- A reply leaves nothing to ask

  /** The name a record's data points at. */
  function Target(data: RecordData): (r: Option<NameText>) {
    match data
    case Ptr(name) => Some(name)
    case Srv(_, _, _, target) => Some(target)
    case _ => None
  }

  /** The records the service has. */
  function OwnRecords(s: Service): (rs: seq<Record>) {
    [s.PtrRecord(), s.SrvRecord(), s.TxtRecord()] + s.V4Records() + s.V6Records()
  }

  lemma OwnNamed(s: Service, own: Record)
    requires s.hostname != NAMESAKE && own in OwnRecords(s)
    ensures own.name == InstanceName(s.hostname) ==> own == s.SrvRecord() || own == s.TxtRecord()
    ensures own.name == QualifiedName(s.hostname) ==>
              (s.v4.Some? && own == s.ARecord()) || (s.v6.Some? && own == s.AaaaRecord())
  {
    NamesDiffer(s);
  }

  /** Which records go with an answer of each type: the text record with any the service has,
      the service record with a pointer, an address with whatever leads to its host, and with
      the address of the other family. */
  lemma AdditionalExactly(s: Service, rtype: u16, r: Record)
    ensures r in s.Additional(rtype) <==>
              (rtype == TYPE_PTR && r == s.SrvRecord())
              || (rtype in {TYPE_PTR, TYPE_SRV, TYPE_AAAA} && s.v4.Some? && r == s.ARecord())
              || (rtype in {TYPE_PTR, TYPE_SRV, TYPE_A} && s.v6.Some? && r == s.AaaaRecord())
              || (rtype in {TYPE_PTR, TYPE_SRV, TYPE_A, TYPE_AAAA, TYPE_TXT} && r == s.TxtRecord())
  {
    hide Service.SrvRecord, Service.ARecord, Service.AaaaRecord, Service.TxtRecord;
    var f, x := s.V4Records(), s.V6Records();
    assert r in [s.SrvRecord()] + f + x + [s.TxtRecord()] <==> r == s.SrvRecord() || r in f || r in x || r == s.TxtRecord();
    assert r in f + x + [s.TxtRecord()] <==> r in f || r in x || r == s.TxtRecord();
    assert r in f + [s.TxtRecord()] <==> r in f || r == s.TxtRecord();
    assert r in x + [s.TxtRecord()] <==> r in x || r == s.TxtRecord();
  }

  /** The choice has one of these forms. */
  lemma ChoiceForms(s: Service, name: seq<byte>, rtype: u16)
    requires s.Choose(name, rtype).Some? && !StringEquals(name, DNS_SD_SERVICE_INSTANCE)
    ensures var c := s.Choose(name, rtype).value;
            c == (s.PtrRecord(), s.Additional(TYPE_PTR)) || c == (s.SrvRecord(), s.Additional(TYPE_SRV))
            || c == (s.ARecord(), s.Additional(TYPE_A)) || c == (s.AaaaRecord(), s.Additional(TYPE_AAAA))
  {
    hide StringEquals;
  }

  /** The answer is to the question. */
  lemma AnswerFitsQuestion(s: Service, name: seq<byte>, rtype: u16)
    requires 0 !in s.hostname && s.Choose(name, rtype).Some?
    ensures var answer := s.Choose(name, rtype).value.0;
            answer.name == name && (TypeOf(answer.data) == rtype || rtype == TYPE_ANY)
  {
    hide StringEquals, Service.Additional;
    ChoiceNamed(s, name, rtype);
  }

  /** Except in reply to services discovery, every record the service has for a name that a
      record of the reply points at is in the reply too (section 12 of RFC 6763): the service
      record with a pointer, and with that the addresses. */
  lemma ReplyIsClosed(s: Service, name: seq<byte>, rtype: u16, r: Record, own: Record)
    requires 0 !in s.hostname && s.hostname != NAMESAKE && s.Choose(name, rtype).Some? && name != DNS_SD_SERVICE_INSTANCE
    requires var (answer, additional) := s.Choose(name, rtype).value;
             r in [answer] + additional && own in OwnRecords(s) && Target(r.data) == Some(own.name)
    ensures own in [s.Choose(name, rtype).value.0] + s.Choose(name, rtype).value.1
  {
    hide StringEquals, OwnRecords, Service.Additional, Service.Choose;
    NoNulInNames(s);
    StringEqualsIsEquality(name, DNS_SD_SERVICE_INSTANCE);
    ChoiceForms(s, name, rtype);
    AdditionalExactly(s, TYPE_PTR, own);
    AdditionalExactly(s, TYPE_SRV, own);
    AdditionalExactly(s, TypeOf(s.Choose(name, rtype).value.0.data), r);
    OwnNamed(s, own);
  }

  /** An own record of a name and type is of a kind the name is asked for, and the other way round. */
  lemma OwnHasKind(s: Service, name: seq<byte>, rtype: u16, own: Record)
    requires s.hostname != NAMESAKE && name != SERVICES_TEXT
    requires own in OwnRecords(s) && !own.data.Txt? && own.name == name && (TypeOf(own.data) == rtype || rtype == 255)
    ensures exists kind :: AnsweredBy(s, name, rtype, kind)
  {
    hide SERVICES_TEXT, SERVICE_TEXT, INSTANCE_ENDS, HOST_ENDS, InstanceName, QualifiedName, SERVICE_NAME, DNS_SD_SERVICE_INSTANCE,
      OwnRecords;
    NamesSpelled(s.hostname);
    KindsAre(s);
    var kind := if own.data.Ptr? then Pointer else if own.data.Srv? then Place
                else if own.data.A? || (rtype == 255 && s.v4.Some?) then Address4 else Address6;
    assert AnsweredBy(s, name, rtype, kind);
  }

  lemma KindHasOwn(s: Service, name: seq<byte>, rtype: u16, kind: Kind)
    requires name != SERVICES_TEXT && AnsweredBy(s, name, rtype, kind)
    ensures var own := OwnRecord(s, kind);
            own in OwnRecords(s) && !own.data.Txt? && own.name == name && (TypeOf(own.data) == rtype || rtype == 255)
  {
    hide SERVICES_TEXT, SERVICE_TEXT, INSTANCE_ENDS, HOST_ENDS, InstanceName, QualifiedName, SERVICE_NAME, DNS_SD_SERVICE_INSTANCE,
      OwnRecords;
    NamesSpelled(s.hostname);
    KindsAre(s);
  }

  /** A question for any name but that of services discovery is answered if and only if the service
      has a record other than the text record of that name and type, and then with such a record. */
  lemma AnsweredExactly(s: Service, name: seq<byte>, rtype: u16)
    requires 0 !in s.hostname && s.hostname != NAMESAKE && name != SERVICES_TEXT
    ensures s.Choose(name, rtype).Some? <==>
              exists own :: own in OwnRecords(s) && !own.data.Txt? && own.name == name && (TypeOf(own.data) == rtype || rtype == 255)
    ensures s.Choose(name, rtype).Some? ==>
              var own := s.Choose(name, rtype).value.0;
              own in OwnRecords(s) && !own.data.Txt? && own.name == name && (TypeOf(own.data) == rtype || rtype == 255)
  {
    hide Service.Choose, SERVICES_TEXT, AnsweredBy, OwnRecords, OwnRecord, AdditionalOf;
    ChoiceExactly(s, name, rtype);
    if s.Choose(name, rtype).Some? {
      var kind :| AnsweredBy(s, name, rtype, kind);
      KindHasOwn(s, name, rtype, kind);
    }
    if own :| own in OwnRecords(s) && !own.data.Txt? && own.name == name && (TypeOf(own.data) == rtype || rtype == 255) {
      OwnHasKind(s, name, rtype, own);
    }
  }

  lemma KindsAre(s: Service)
    ensures s.PtrRecord() in OwnRecords(s) && s.SrvRecord() in OwnRecords(s) && s.TxtRecord() in OwnRecords(s)
    ensures s.v4.Some? ==> s.ARecord() in OwnRecords(s)
    ensures s.v6.Some? ==> s.AaaaRecord() in OwnRecords(s)
    ensures forall own :: own in OwnRecords(s) ==>
              own == s.PtrRecord() || own == s.SrvRecord() || own == s.TxtRecord()
              || (s.v4.Some? && own == s.ARecord()) || (s.v6.Some? && own == s.AaaaRecord())
  {
    hide Service.PtrRecord, Service.SrvRecord, Service.TxtRecord, Service.ARecord, Service.AaaaRecord;
    var x := [s.PtrRecord(), s.SrvRecord(), s.TxtRecord()];
    var f, g := s.V4Records(), s.V6Records();
    assert forall own :: own in x + f + g <==> own in x || own in f || own in g;
    assert x[0] in x && x[1] in x && x[2] in x;
    assert s.v4.Some? ==> f[0] in f;
    assert s.v6.Some? ==> g[0] in g;
  }

  // ----- Question, answer, and what the client learns

  /** No name of the service is long enough for the name buffer to cut it. */
  lemma ChooseIgnoresCut(s: Service, text: seq<byte>, rtype: u16)
    requires GoodService(s)
    ensures s.Choose(Cut(text, NAME_CAPACITY), rtype) == s.Choose(text, rtype)
  {
    hide HostLabelsOk, StrNEqual;
  }

  /** What becomes of a question: a reply of the kind it asks for, to its sender or to all, or
      none if it asks for nothing the service has. */
  ghost predicate Replied(s: Service, name: seq<byte>, rtype: u16, id: u16, unicast: bool, r: Answered) {
    (forall kind :: AnsweredBy(s, name, rtype, kind) ==>
       if unicast then name != [] && ToldToOne(s, name, rtype, id, kind, r) else ToldToAll(s, kind, r))
    && ((forall kind :: !AnsweredBy(s, name, rtype, kind)) ==> r == Unanswered)
  }

  lemma AnsweredHas(s: Service, name: seq<byte>, rtype: u16, kind: Kind)
    requires AnsweredBy(s, name, rtype, kind)
    ensures !kind.Text? && (kind.Address4? ==> s.v4.Some?) && (kind.Address6? ==> s.v6.Some?)
  {
  }

  /** Any question that is heard, whoever asks, of whatever class: a reply is sent to one exactly when
      the class asks for it, is built whatever the send buffer held, fits, and is read in full. */
  lemma QuestionIsAnswered(s: Service, packet: seq<byte>, d: Delivery, ls: seq<Label>, r: Answered)
    requires GoodService(s) && d.entry == Question && ReadName(packet, d.nameOffset, MAX_FETCHES) == Some(ls)
    requires Answers(s, packet, d, r)
    ensures Replied(s, Dotted(ls), d.rtype, d.id, d.rclass >= 0x8000, r)
  {
    hide HostOk, Dotted, Cut, ReadName, AnsweredBy, ToldToOne, ToldToAll, ReplyMessage, Service.Choose;
    var text := Dotted(ls);
    ChooseIgnoresCut(s, text, d.rtype);
    GoodLength(s);
    GoodIsNoNamesake(s);
    ChoiceExactly(s, text, d.rtype);
    assert TextAt(packet, d.nameOffset, NAME_CAPACITY) == Cut(text, NAME_CAPACITY);
    forall kind | AnsweredBy(s, text, d.rtype, kind)
      ensures if d.rclass >= 0x8000 then text != [] && ToldToOne(s, text, d.rtype, d.id, kind, r) else ToldToAll(s, kind, r)
    {
      var stale: seq<byte> :| |stale| == SEND_CAPACITY && r.message == MessageBytes(ReplyMessage(s, packet, d, stale));
      KindIsTold(s, packet, d, text, kind, stale);
    }
  }

  lemma KindIsTold(s: Service, packet: seq<byte>, d: Delivery, text: seq<byte>, kind: Kind, stale: seq<byte>)
    requires GoodService(s) && AnsweredBy(s, text, d.rtype, kind) && |stale| == SEND_CAPACITY
    requires TextAt(packet, d.nameOffset, NAME_CAPACITY) == Cut(text, NAME_CAPACITY)
    ensures var r := Answered(d.rclass >= 0x8000, MessageBytes(ReplyMessage(s, packet, d, stale)));
            if d.rclass >= 0x8000 then text != [] && ToldToOne(s, text, d.rtype, d.id, kind, r) else ToldToAll(s, kind, r)
  {
    hide HostOk, AnsweredBy, ToldToOne, UnicastMessage, MulticastMessage, Service.Choose, TextAt, Cut, OwnRecord, Companions, IsHeard, AdditionalOf, RecordsOf;
    ChooseIgnoresCut(s, text, d.rtype);
    GoodLength(s);
    GoodIsNoNamesake(s);
    ChoiceExactly(s, text, d.rtype);
    ChoiceNamed(s, text, d.rtype);
    CompanionsAre(s, kind);
    AnsweredHas(s, text, d.rtype, kind);
    RepliesFit(s, text, d.id, d.rtype, stale);
    if d.rclass >= 0x8000 {
      UnicastIsTold(stale, s, kind, d.id, d.rtype);
    } else {
      MulticastIsHeard(stale, s, kind, CLASS_IN, 60);
    }
  }

  /** A question whose name cannot be read gets no reply, and no record does. */
  lemma OthersGetNoReply(s: Service, packet: seq<byte>, d: Delivery, r: Answered)
    requires GoodService(s) && Answers(s, packet, d, r)
    requires d.entry != Question || ReadName(packet, d.nameOffset, MAX_FETCHES) == None
    ensures r == Unanswered
  {
    hide HostOk, ReadName, StrNEqual;
  }

  /** A client that sends any well-shaped list of questions, from a port of its own or from the
      multicast port, is replied to question by question: to it alone in the first case, to all
      in the second. */
  lemma QuestionsAreAnswered(s: Service, stale: seq<byte>, queries: seq<Query>, id: u16, multicastPort: bool, i: nat, r: Answered)
    requires GoodService(s) && ShapedQueries(queries) && |queries| < 0x1_0000 && i < |queries|
    requires QueryMessage(stale, queries, id, QueryClass(multicastPort)).Some?
    ensures var o := QueryMessage(stale, queries, id, QueryClass(multicastPort)).value;
            var packet := o.buf[..o.pos];
            Listenable(packet) && |Heard(packet).0| == |queries|
            && (Answers(s, packet, Heard(packet).0[i], r) ==>
                  Replied(s, Dotted(Labels(queries[i].name)), queries[i].rtype, id, !multicastPort, r))
  {
    hide QueryMessage, Labels, LabelShape, HostOk, Dotted, Cut, ReadName, NameEnd, Answers, Replied, Listenable, Heard;
    var o := QueryMessage(stale, queries, id, QueryClass(multicastPort)).value;
    var packet := o.buf[..o.pos];
    QueryRoundTrip(stale, queries, id, multicastPort);
    var d := Heard(packet).0[i];
    if Answers(s, packet, d, r) {
      QuestionIsAnswered(s, packet, d, Labels(queries[i].name), r);
    }
  }

  /** Asking for the service by name is enough to reach it: in the one reply the client reads the
      instance, its host and port, and every address of the host. */
  lemma ServiceIsDiscovered(s: Service, stale: seq<byte>, id: u16, r: Answered)
    requires GoodService(s) && |stale| >= 64
    ensures QueryMessage(stale, [Query(12, SERVICE_NAME)], id, QueryClass(false)).Some?
    ensures var o := QueryMessage(stale, [Query(12, SERVICE_NAME)], id, QueryClass(false)).value;
            var packet := o.buf[..o.pos];
            Listenable(packet) && |Heard(packet).0| == 1
            && (Answers(s, packet, Heard(packet).0[0], r) ==> ToldToOne(s, SERVICE_NAME, 12, id, Pointer, r))
  {
    hide QueryMessage, Labels, LabelShape, HostOk, Dotted, Cut, ReadName, NameEnd, Answers, ToldToOne, Listenable, Heard, AllAsked, GoodName,
      SERVICE_NAME, DNS_SD_SERVICE_INSTANCE, SERVICES_TEXT, SERVICE_TEXT;
    var queries := [Query(12, SERVICE_NAME)];
    ServiceNames(s.hostname);
    ServiceNameIs();
    GoodIsShaped(SERVICE_LABELS, LOCAL);
    QueryFits(stale, id);
    NamesSpelled(s.hostname);
    ServiceIsNotServices();
    QuestionsAreAnswered(s, stale, queries, id, false, 0, r);
    assert AnsweredBy(s, SERVICE_NAME, 12, Pointer);
  }

  lemma ServiceIsNotServices()
    ensures SERVICE_TEXT != SERVICES_TEXT
  {
    assert |SERVICE_TEXT| != |SERVICES_TEXT|;
  }

  lemma QueryFits(stale: seq<byte>, id: u16)
    requires |stale| >= 64
    ensures QueryMessage(stale, [Query(12, SERVICE_NAME)], id, QueryClass(false)).Some?
  {
    hide Labels, MakeName;
    var q := Query(12, SERVICE_NAME);
    var o := Begin(stale, MessageHeader(id, 0, 1, 0, 0, 0), None);
    NameFits(o, SERVICE_NAME);
    assert [q][1..] == [];
    var x := AddQuestion(o, 12, SERVICE_NAME, QueryClass(false));
    assert x.Some?;
    assert AddQuestions(x.value, [], QueryClass(false)) == x;
  }

  lemma SectionOfNone()
    ensures UnicastSection([]) == [] && GoodRecords([], LOCAL)
    ensures forall rclass, ttl :: MulticastSection([], rclass, ttl) == []
  {
  }

  // ----- A reused buffer makes no difference

  /** The reply to a question depends on the service and the question alone: two answers to it
      are the same, whatever earlier messages left in the send buffer. */
  lemma AnswersAreDetermined(s: Service, packet: seq<byte>, d: Delivery, x: Answered, y: Answered)
    requires GoodService(s) && Answers(s, packet, d, x) && Answers(s, packet, d, y)
    ensures x == y
  {
    hide ReplyMessage;
    if ReplyDue(s, packet, d) {
      var p: seq<byte> :| |p| == SEND_CAPACITY && x.message == MessageBytes(ReplyMessage(s, packet, d, p));
      var q: seq<byte> :| |q| == SEND_CAPACITY && y.message == MessageBytes(ReplyMessage(s, packet, d, q));
      SameReply(s, packet, d, p, q);
    }
  }

  lemma SameReply(s: Service, packet: seq<byte>, d: Delivery, p: seq<byte>, q: seq<byte>)
    requires GoodService(s) && ReplyDue(s, packet, d) && |p| == |q| == SEND_CAPACITY
    ensures SameMessage(ReplyMessage(s, packet, d, p), ReplyMessage(s, packet, d, q))
  {
    hide UnicastMessage, MulticastMessage, GoodService, Service.Choose, TextAt, SameMessage;
    var name := TextAt(packet, d.nameOffset, NAME_CAPACITY);
    if d.rclass >= TOP_BIT {
      SameUnicast(s, name, d.id, d.rtype, p, q);
    } else {
      SameMulticast(s, name, d.rtype, p, q);
    }
  }

  lemma SameUnicast(s: Service, name: seq<byte>, id: u16, rtype: u16, p: seq<byte>, q: seq<byte>)
    requires GoodService(s) && s.Choose(name, rtype).Some? && |p| == |q| == SEND_CAPACITY
    ensures var (answer, additional) := s.Choose(name, rtype).value;
            SameMessage(UnicastMessage(p, id, rtype, answer.name, answer, [], additional),
                        UnicastMessage(q, id, rtype, answer.name, answer, [], additional))
  {
    hide UnicastMessage, MulticastMessage, GoodRecord, GoodName, Labels, GoodService, Service.Choose, NoTxtValues, SameMessage;
    var (answer, additional) := s.Choose(name, rtype).value;
    ChoiceGood(s, name, rtype);
    ChoiceHasNoValues(s, name, rtype);
    GoodLength(s);
    RepliesFit(s, name, id, rtype, p);
    SectionOfNone();
    ReplyIgnoresStaleBytesExactly(p, id, rtype, answer.name, answer, [], additional, LOCAL);
  }

  lemma SameMulticast(s: Service, name: seq<byte>, rtype: u16, p: seq<byte>, q: seq<byte>)
    requires GoodService(s) && s.Choose(name, rtype).Some? && |p| == |q| == SEND_CAPACITY
    ensures var (answer, additional) := s.Choose(name, rtype).value;
            SameMessage(MulticastMessage(p, answer, [], additional, CLASS_IN, 60),
                        MulticastMessage(q, answer, [], additional, CLASS_IN, 60))
  {
    hide UnicastMessage, MulticastMessage, GoodRecord, GoodName, Labels, GoodService, Service.Choose, NoTxtValues, SameMessage;
    var (answer, additional) := s.Choose(name, rtype).value;
    ChoiceGood(s, name, rtype);
    ChoiceHasNoValues(s, name, rtype);
    GoodLength(s);
    RepliesFit(s, name, 0, rtype, p);
    SectionOfNone();
    MessageIgnoresStaleBytesExactly(p, answer, [], additional, CLASS_IN, 60, LOCAL);
  }

  lemma ChoiceHasNoValues(s: Service, name: seq<byte>, rtype: u16)
    requires s.Choose(name, rtype).Some?
    ensures NoTxtValues(s.Choose(name, rtype).value.1) && NoTxtValues([])
  {
    hide StringEquals, Service.Additional;
    var additional := s.Choose(name, rtype).value.1;
    forall r | r in additional && r.data.Txt? ensures r.data.value == [] {
      AdditionalExactly(s, TYPE_PTR, r);
      AdditionalExactly(s, TYPE_SRV, r);
      AdditionalExactly(s, TYPE_A, r);
      AdditionalExactly(s, TYPE_AAAA, r);
    }
  }
}
