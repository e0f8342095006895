/** A query that was built is heard as the questions it was built from. */
module QueryTheorems {
  import opened Bytes
  import opened NameReader
  import opened NameWriter
  import opened NameCodec
  import opened NameTheorems
  import opened Messages
  import opened Parser
  import opened RoundTrip
  import opened MessageTheorems

  predicate ShapedQueries(queries: seq<Query>) {
    forall q :: q in queries ==> LabelShape(Labels(q.name))
  }

  /** The questions lie one after another from `at` to `end`. */
  ghost predicate QuestionRun(m: seq<byte>, at: nat, queries: seq<Query>, qclass: u16, end: nat)
    decreases |queries|
  {
    if queries == [] then at == end
    else
      match NameEnd(m, at, MAX_FETCHES)
      case None => false
      case Some(e) =>
        NameAt(m, at, Labels(queries[0].name), 1) && e + 4 <= |m|
        && m[e..e + 4] == Be16(queries[0].rtype) + Be16(qclass)
        && QuestionRun(m, e + 4, queries[1..], qclass, end)
  }

  lemma QuestionMade(o: Out, q: Query, qclass: u16)
    requires o.Valid() && o.table.None? && LabelShape(Labels(q.name))
    requires AddQuestion(o, q.rtype, q.name, qclass).Some?
    ensures var x := AddQuestion(o, q.rtype, q.name, qclass).value;
            var m := x.buf[..x.pos];
            o.buf[..o.pos] <= m && x.table.None? && o.pos + 5 <= x.pos
            && NameAt(m, o.pos, Labels(q.name), 1) && NameEnd(m, o.pos, MAX_FETCHES) == Some(x.pos - 4)
            && m[x.pos - 4..x.pos] == Be16(q.rtype) + Be16(qclass)
  {
    hide EmitName, MakeName, Labels, NameAt, NameEnd, Be16, Offsets;
    var m, ls := o.buf[..o.pos], Labels(q.name);
    assert Offsets(None) == None;
    NameEmitsPlain(o, ls);
    var bytes := EmitName(None, o.pos, ls).0;
    var named := MakeName(o, ls).value;
    EmitNameRoundTrip(m, None, ls, []);
    PutPrefix(o.buf, o.pos, bytes);
    var qb := Be16(q.rtype) + Be16(qclass);
    var x := named.Append(qb);
    PutPrefix(named.buf, named.pos, qb);
    var c := x.buf[..x.pos];
    assert c == (m + bytes) + qb;
    NameStable(m + bytes, c, o.pos, ls, 1, 1);
    NameEndStable(m + bytes, c, o.pos, MAX_FETCHES);
  }

  lemma NameEmitsPlain(o: Out, ls: seq<Label>)
    requires o.Valid() && o.table.None?
    ensures match MakeName(o, ls)
            case None => true
            case Some(x) => Written(o, x, EmitName(None, o.pos, ls).0, None)
    ensures EmitName(None, o.pos, ls).1 == None
  {
    MakeNameEmits(o, None, ls, []);
  }

  lemma {:induction false} QuestionsMade(o: Out, queries: seq<Query>, qclass: u16)
    requires o.Valid() && o.table.None? && ShapedQueries(queries) && AddQuestions(o, queries, qclass).Some?
    ensures var x := AddQuestions(o, queries, qclass).value;
            o.buf[..o.pos] <= x.buf[..x.pos] && o.pos + 5 * |queries| <= x.pos
            && QuestionRun(x.buf[..x.pos], o.pos, queries, qclass, x.pos)
    decreases |queries|
  {
    hide AddQuestion, NameAt, NameEnd, Labels, LabelShape;
    if queries != [] {
      assert queries[0] in queries;
      QuestionMade(o, queries[0], qclass);
      var o1 := AddQuestion(o, queries[0].rtype, queries[0].name, qclass).value;
      QuestionsMade(o1, queries[1..], qclass);
      var x := AddQuestions(o1, queries[1..], qclass).value;
      var m1, m := o1.buf[..o1.pos], x.buf[..x.pos];
      NameStable(m1, m, o.pos, Labels(queries[0].name), 1, 1);
      NameEndStable(m1, m, o.pos, MAX_FETCHES);
      assert m[o1.pos - 4..o1.pos] == m1[o1.pos - 4..o1.pos];
    }
  }

  /** The listener is told of the question: its type, class and name, and nothing else. */
  ghost predicate Asked(m: seq<byte>, d: Delivery, q: Query, qclass: u16, id: u16) {
    d.entry == Question && d.id == id && d.rtype == q.rtype && d.rclass == qclass && d.ttl == 0
    && ReadName(m, d.nameOffset, MAX_FETCHES) == Some(Labels(q.name))
    && NameEnd(m, d.nameOffset, MAX_FETCHES) == Some(d.nameOffset + d.nameLength)
    && d.recordOffset == d.nameOffset && d.recordLength == d.nameLength
  }

  ghost predicate AllAsked(m: seq<byte>, ds: seq<Delivery>, queries: seq<Query>, qclass: u16, id: u16) {
    |ds| == |queries| && forall i :: 0 <= i < |ds| ==> Asked(m, ds[i], queries[i], qclass, id)
  }

  lemma {:induction false} RunIsHeard(m: seq<byte>, at: nat, queries: seq<Query>, qclass: u16, id: u16)
    requires QuestionRun(m, at, queries, qclass, |m|) && ShapedQueries(queries) && AcceptedClass(qclass)
    ensures QuestionsComplete(m, at, |queries|)
    ensures var (ds, end) := ListenQuestions(m, at, id, 0, |queries|);
            AllAsked(m, ds, queries, qclass, id) && end == |m|
    decreases |queries|
  {
    hide NameAt, NameEnd, ReadName, Labels, LabelShape, Get16, Be16, SameName;
    if queries != [] {
      assert queries[0] in queries;
      var e := NameEnd(m, at, MAX_FETCHES).value;
      NameEndInside(m, at, MAX_FETCHES);
      TypeAndClass(m, e, queries[0].rtype, qclass);
      RunIsHeard(m, e + 4, queries[1..], qclass, id);
      Shape(queries[0]);
      TextOf(m, at, Labels(queries[0].name), 0);
      var d := Delivery(Question, id, queries[0].rtype, qclass, 0, at, e - at, at, e - at);
      var (rest, end) := ListenQuestions(m, e + 4, id, 0, |queries| - 1);
      assert ListenQuestions(m, at, id, 0, |queries|) == GoOn([d], (rest, end));
      assert Asked(m, d, queries[0], qclass, id);
      AskedCons(m, d, rest, queries, qclass, id);
    }
  }

  lemma Shape(q: Query)
    requires LabelShape(Labels(q.name))
    ensures |Labels(q.name)| < MAX_FETCHES
  {
  }

  lemma AskedCons(m: seq<byte>, d: Delivery, rest: seq<Delivery>, queries: seq<Query>, qclass: u16, id: u16)
    requires queries != [] && Asked(m, d, queries[0], qclass, id) && AllAsked(m, rest, queries[1..], qclass, id)
    ensures AllAsked(m, [d] + rest, queries, qclass, id)
  {
    hide Asked;
  }

  lemma TypeAndClass(m: seq<byte>, e: nat, rtype: u16, qclass: u16)
    requires e + 4 <= |m| && m[e..e + 4] == Be16(rtype) + Be16(qclass)
    ensures Get16(m, e) == rtype && Get16(m, e + 2) == qclass
  {
    hide Be16, Get16;
    var s := Be16(rtype) + Be16(qclass);
    assert m[e..e + |s|] == s;
    Slice(m, e, s, 0, 2);
    Slice(m, e, s, 2, 2);
    Get16Reads(m, e, rtype);
    Get16Reads(m, e + 2, qclass);
  }

  /** Any list of fewer than 65536 queries with well-shaped names is heard as that list, in
      order, and nothing else is heard; the labels need be neither distinct nor share a last one. */
  lemma QueryRoundTrip(stale: seq<byte>, queries: seq<Query>, id: u16, boundToMdnsPort: bool)
    requires ShapedQueries(queries) && |queries| < 0x1_0000
    requires QueryMessage(stale, queries, id, QueryClass(boundToMdnsPort)).Some?
    ensures var o := QueryMessage(stale, queries, id, QueryClass(boundToMdnsPort)).value;
            var m := o.buf[..o.pos];
            Listenable(m) && AllAsked(m, Heard(m).0, queries, if boundToMdnsPort then 1 else 0x8001, id)
            && Heard(m).1 == Sections([], [], [], |m|) && m[2] == 0 && m[3] == 0
  {
    hide AddQuestion, NameAt, NameEnd, ReadName, Labels, LabelShape, Get16, Be16, AllAsked, MessageHeader, Asked, QuestionRun;
    var qclass := QueryClass(boundToMdnsPort);
    var header := MessageHeader(id, 0, |queries|, 0, 0, 0);
    var o0 := Begin(stale, header, None);
    assert o0.buf[..o0.pos] == header;
    QuestionsMade(o0, queries, qclass);
    var o := QueryMessage(stale, queries, id, qclass).value;
    var m := o.buf[..o.pos];
    assert m[..HEADER_SIZE] == header;
    HeaderReads(m, id, 0, |queries|, 0, 0, 0);
    RunIsHeard(m, HEADER_SIZE, queries, qclass, id);
  }

  // ----- The bytes of a query

  /** A question in full: its labels, the root, its type, and class IN with the bit that asks for
      a unicast reply unless the query comes from the multicast port. */
  function QuestionWire(q: Query, multicastPort: bool): (s: seq<byte>) {
    WireLabels(Labels(q.name)) + [0, q.rtype / 0x100, q.rtype % 0x100, if multicastPort then 0 else 0x80, 1]
  }

  function QuestionsWire(queries: seq<Query>, multicastPort: bool): (s: seq<byte>) {
    if queries == [] then [] else QuestionWire(queries[0], multicastPort) + QuestionsWire(queries[1..], multicastPort)
  }

  /** Written in full: `s` was stored, or it did not fit. */
  ghost predicate Stored(o: Out, r: Option<Out>, s: seq<byte>) {
    if o.pos + |s| <= |o.buf| then r == Some(o.Append(s)) else r == None
  }

  lemma StoredTwice(o: Out, x: Option<Out>, y: Option<Out>, s: seq<byte>, t: seq<byte>)
    requires o.pos <= |o.buf| && Stored(o, x, s) && (if x.None? then y.None? else Stored(x.value, y, t))
    ensures Stored(o, y, s + t)
  {
    if o.pos + |s| + |t| <= |o.buf| {
      PutPut(o.buf, o.pos, s, t);
    }
  }

  lemma {:induction false} PlainNameStored(o: Out, ls: seq<Label>)
    requires o.Valid() && o.table.None?
    ensures Stored(o, MakeName(o, ls), WireLabels(ls) + [0])
    decreases |ls|
  {
    hide Put, LabelBytes;
    if ls == [] {
      assert WireLabels(ls) + [0] == [0];
    } else {
      var l := LabelBytes(ls[0]);
      assert WireLabels(ls) + [0] == l + (WireLabels(ls[1..]) + [0]);
      if |o.buf| - o.pos > |ls[0]| + 1 {
        var o1 := LabelWritten(o, ls[0]);
        assert o1 == o.Append(l);
        PlainNameStored(o1, ls[1..]);
        StoredTwice(o, Some(o1), MakeName(o1, ls[1..]), l, WireLabels(ls[1..]) + [0]);
      }
    }
  }

  lemma QuestionStored(o: Out, q: Query, multicastPort: bool)
    requires o.Valid() && o.table.None?
    ensures Stored(o, AddQuestion(o, q.rtype, q.name, QueryClass(multicastPort)), QuestionWire(q, multicastPort))
  {
    hide MakeName, Labels, WireLabels, Put;
    var name := WireLabels(Labels(q.name)) + [0];
    var qb := Be16(q.rtype) + Be16(QueryClass(multicastPort));
    PlainNameStored(o, Labels(q.name));
    assert QuestionWire(q, multicastPort) == name + qb;
    StoredTwice(o, MakeName(o, Labels(q.name)), AddQuestion(o, q.rtype, q.name, QueryClass(multicastPort)), name, qb);
  }

  lemma {:induction false} QuestionsStored(o: Out, queries: seq<Query>, multicastPort: bool)
    requires o.Valid() && o.table.None?
    ensures Stored(o, AddQuestions(o, queries, QueryClass(multicastPort)), QuestionsWire(queries, multicastPort))
    decreases |queries|
  {
    hide AddQuestion, QuestionWire, QueryClass;
    if queries == [] {
      NothingStored(o);
    } else {
      QuestionStored(o, queries[0], multicastPort);
      var x := AddQuestion(o, queries[0].rtype, queries[0].name, QueryClass(multicastPort));
      if x.Some? {
        QuestionsStored(x.value, queries[1..], multicastPort);
      }
      StoredTwice(o, x, AddQuestions(o, queries, QueryClass(multicastPort)), QuestionWire(queries[0], multicastPort),
                  QuestionsWire(queries[1..], multicastPort));
    }
  }

  lemma NothingStored(o: Out)
    requires o.Valid()
    ensures Stored(o, Some(o), [])
  {
    assert Put(o.buf, o.pos, []) == o.buf;
  }

  /** For queries of any names: the message is built if and only if there is a query, the buffer has
      twelve bytes and six for each, and the questions in full have room; and then it is a
      header without flags, with their number, and these questions. */
  lemma QueryExactly(stale: seq<byte>, queries: seq<Query>, id: u16, multicastPort: bool)
    ensures var r := QueryMessage(stale, queries, id, QueryClass(multicastPort));
            var n, wire := |queries|, QuestionsWire(queries, multicastPort);
            (r.Some? <==> n > 0 && |stale| >= 12 + 6 * n && |stale| >= 12 + |wire|)
            && (r.Some? ==> r.value.buf[..r.value.pos]
                              == [id / 0x100, id % 0x100, 0, 0, n % 0x1_0000 / 0x100, n % 0x1_0000 % 0x100, 0, 0, 0, 0, 0, 0] + wire)
  {
    hide AddQuestions, QuestionsWire, QueryClass;
    if queries != [] && |stale| >= 12 + 6 * |queries| {
      var header := MessageHeader(id, 0, |queries|, 0, 0, 0);
      var o := Begin(stale, header, None);
      QuestionsStored(o, queries, multicastPort);
      HeaderOf(id, |queries|);
      var wire := QuestionsWire(queries, multicastPort);
      if o.pos + |wire| <= |o.buf| {
        PutPrefix(o.buf, o.pos, wire);
        assert o.buf[..o.pos] == header;
      }
    }
  }

  lemma HeaderOf(id: u16, n: nat)
    ensures MessageHeader(id, 0, n, 0, 0, 0) == [id / 0x100, id % 0x100, 0, 0, n % 0x1_0000 / 0x100, n % 0x1_0000 % 0x100, 0, 0, 0, 0, 0, 0]
  {
  }
}
