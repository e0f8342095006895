/** Building whole messages: queries, multicast answers, announcements, goodbyes and
    unicast answers. */
module Messages {
  import opened Bytes
  import opened NameReader
  import opened StringTables
  import opened NameWriter
  import opened Records
  import opened RecordWriter

  const HEADER_SIZE: nat := 12
  const RESPONSE_FLAGS: u16 := 0x8400

  /** A record type and a name to ask about. */
  datatype Query = Query(rtype: u16, name: NameText)

  function MessageHeader(id: u16, flags: u16, questions: nat, answers: nat, authority: nat, additional: nat): (s: seq<byte>)
    ensures |s| == HEADER_SIZE
  {
    Be16(id) + Be16(flags) + Be16(questions % 0x1_0000) + Be16(answers % 0x1_0000)
    + Be16(authority % 0x1_0000) + Be16(additional % 0x1_0000)
  }

  /** Counting a section in 16 bits first makes no difference to the header. */
  lemma CountsInHeader(id: u16, flags: u16, questions: nat, answers: nat, authority: nat, additional: nat)
    ensures MessageHeader(id, flags, questions, answers, authority % 0x1_0000, additional % 0x1_0000)
         == MessageHeader(id, flags, questions, answers, authority, additional)
  {
  }

  // ----- What a message is to hold

  /** The records of a multicast section, each with class and TTL filled in. */
  function Updated(records: seq<Record>, rclass: u16, ttl: u32): (r: seq<Record>)
    ensures |r| == |records|
  {
    if records == [] then [] else [UpdateRclassTtl(records[0], rclass, ttl)] + Updated(records[1..], rclass, ttl)
  }

  const LEGACY_TTL: u32 := 10

  /** A record of a unicast answer: class IN without cache flush, a TTL of 10 where there is none. */
  function ForUnicast(record: Record): (r: Record) {
    record.(rclass := CLASS_IN, ttl := if record.ttl == 0 then LEGACY_TTL else record.ttl)
  }

  function AllForUnicast(records: seq<Record>): (r: seq<Record>)
    ensures |r| == |records|
  {
    if records == [] then [] else [ForUnicast(records[0])] + AllForUnicast(records[1..])
  }

  function MulticastSection(records: seq<Record>, rclass: u16, ttl: u32): (items: seq<Item>) {
    PlainItems(Updated(records, rclass, ttl)) + TextItems(records, rclass, ttl)
  }

  function UnicastSection(records: seq<Record>): (items: seq<Item>) {
    PlainItems(AllForUnicast(records)) + TextItems(records, CLASS_IN, LEGACY_TTL)
  }

  /** Answer, authority and additional records of a multicast message, in order. */
  function MulticastItems(answer: Record, authority: seq<Record>, additional: seq<Record>, rclass: u16, ttl: u32): (items: seq<Item>)
  {
    PlainItems([UpdateRclassTtl(answer, rclass, ttl)])
    + (MulticastSection(authority, rclass, ttl) + MulticastSection(additional, rclass, ttl))
  }

  function UnicastItems(answer: Record, authority: seq<Record>, additional: seq<Record>): (items: seq<Item>) {
    PlainItems([answer.(rclass := CLASS_IN, ttl := LEGACY_TTL)])
    + (UnicastSection(authority) + UnicastSection(additional))
  }

  lemma MulticastItemsValid(answer: Record, authority: seq<Record>, additional: seq<Record>, rclass: u16, ttl: u32)
    ensures ItemsValid(PlainItems([UpdateRclassTtl(answer, rclass, ttl)]))
    ensures ItemsValid(MulticastSection(authority, rclass, ttl)) && ItemsValid(MulticastSection(additional, rclass, ttl))
    ensures ItemsValid(MulticastItems(answer, authority, additional, rclass, ttl))
  {
    hide UpdateRclassTtl, PlainItems, TextItems, ItemValid;
    PlainItemsValid([UpdateRclassTtl(answer, rclass, ttl)]);
    PlainItemsValid(Updated(authority, rclass, ttl));
    PlainItemsValid(Updated(additional, rclass, ttl));
    TextItemsValid(authority, rclass, ttl);
    TextItemsValid(additional, rclass, ttl);
  }

  lemma UnicastItemsValid(answer: Record, authority: seq<Record>, additional: seq<Record>)
    ensures ItemsValid(PlainItems([answer.(rclass := CLASS_IN, ttl := LEGACY_TTL)]))
    ensures ItemsValid(UnicastSection(authority)) && ItemsValid(UnicastSection(additional))
    ensures ItemsValid(UnicastItems(answer, authority, additional))
  {
    hide PlainItems, TextItems, ItemValid;
    PlainItemsValid([answer.(rclass := CLASS_IN, ttl := LEGACY_TTL)]);
    PlainItemsValid(AllForUnicast(authority));
    PlainItemsValid(AllForUnicast(additional));
    TextItemsValid(authority, CLASS_IN, LEGACY_TTL);
    TextItemsValid(additional, CLASS_IN, LEGACY_TTL);
  }

  // ----- Messages as functions of the old buffer

  /** The smallest buffer an answer is built in. */
  const MIN_ANSWER_CAPACITY: nat := 48

  ghost function Begin(stale: seq<byte>, header: seq<byte>, table: Option<Ring<nat>>): (o: Out)
    requires |header| == HEADER_SIZE <= |stale| && (table.Some? ==> table.value.Valid())
    ensures o.Valid() && o.pos == HEADER_SIZE && |o.buf| == |stale|
  {
    Out(Put(stale, 0, header), table, HEADER_SIZE)
  }

  ghost function AddQuestion(o: Out, rtype: u16, name: NameText, qclass: u16): (r: Option<Out>)
    requires o.Valid()
    ensures r.Some? ==> r.value.Valid() && |r.value.buf| == |o.buf| && o.pos < r.value.pos
    ensures r.Some? ==> r.value.table.Some? == o.table.Some?
  {
    var named :- MakeName(o, Labels(name));
    if |named.buf| - named.pos < 4 then None else Some(named.Append(Be16(rtype) + Be16(qclass)))
  }

  ghost function AddQuestions(o: Out, queries: seq<Query>, qclass: u16): (r: Option<Out>)
    requires o.Valid()
    ensures r.Some? ==> r.value.Valid() && |r.value.buf| == |o.buf| && o.pos <= r.value.pos
    decreases |queries|
  {
    if queries == [] then Some(o)
    else
      var next :- AddQuestion(o, queries[0].rtype, queries[0].name, qclass);
      AddQuestions(next, queries[1..], qclass)
  }

  function QueryClass(boundToMdnsPort: bool): (c: u16) {
    if boundToMdnsPort then CLASS_IN else CLASS_IN + TOP_BIT
  }

  ghost function QueryMessage(stale: seq<byte>, queries: seq<Query>, id: u16, qclass: u16): (r: Option<Out>)
    ensures r.Some? ==> r.value.Valid() && |r.value.buf| == |stale| && HEADER_SIZE <= r.value.pos
  {
    if queries == [] || |stale| < HEADER_SIZE + 6 * |queries| then None
    else AddQuestions(Begin(stale, MessageHeader(id, 0, |queries|, 0, 0, 0), None), queries, qclass)
  }

  function MulticastHeader(authority: seq<Record>, additional: seq<Record>): (s: seq<byte>)
    ensures |s| == HEADER_SIZE
  {
    MessageHeader(0, RESPONSE_FLAGS, 0, 1, SectionCount(authority), SectionCount(additional))
  }

  ghost function MulticastMessage(stale: seq<byte>, answer: Record, authority: seq<Record>, additional: seq<Record>,
                                  rclass: u16, ttl: u32): (r: Option<Out>)
    ensures r.Some? ==> r.value.Valid() && |r.value.buf| == |stale| && HEADER_SIZE <= r.value.pos
  {
    MulticastItemsValid(answer, authority, additional, rclass, ttl);
    if |stale| < MIN_ANSWER_CAPACITY then None
    else AddItems(Some(Begin(stale, MulticastHeader(authority, additional), Some(RingOf([])))),
                  MulticastItems(answer, authority, additional, rclass, ttl))
  }

  function UnicastHeader(id: u16, authority: seq<Record>, additional: seq<Record>): (s: seq<byte>)
    ensures |s| == HEADER_SIZE
  {
    MessageHeader(id, RESPONSE_FLAGS, 1, 1, SectionCount(authority), SectionCount(additional))
  }

  ghost function UnicastMessage(stale: seq<byte>, id: u16, rtype: u16, name: NameText, answer: Record,
                                authority: seq<Record>, additional: seq<Record>): (r: Option<Out>)
    ensures r.Some? ==> r.value.Valid() && |r.value.buf| == |stale| && HEADER_SIZE <= r.value.pos
  {
    UnicastItemsValid(answer, authority, additional);
    if |stale| < MIN_ANSWER_CAPACITY then None
    else
      AddItems(AddQuestion(Begin(stale, UnicastHeader(id, authority, additional), Some(RingOf([]))),
                           rtype, name, CLASS_IN + TOP_BIT),
               UnicastItems(answer, authority, additional))
  }

  // ----- The builders

  lemma PlainStep(o: Option<Out>, records: seq<Record>)
    requires records != [] && (o.Some? ==> o.value.Valid())
    ensures ItemsValid(PlainItems(records)) && ItemsValid(PlainItems([records[0]])) && ItemsValid(PlainItems(records[1..]))
    ensures AddItems(o, PlainItems(records)) == AddItems(AddItems(o, PlainItems([records[0]])), PlainItems(records[1..]))
  {
    hide AddItems, ItemValid;
    PlainItemsValid(records);
    PlainItemsValid([records[0]]);
    PlainItemsValid(records[1..]);
    assert [records[0]][1..] == [];
    assert PlainItems(records) == PlainItems([records[0]]) + PlainItems(records[1..]);
    AddItemsConcat(o, PlainItems([records[0]]), PlainItems(records[1..]));
  }

  /** The non-text records of a multicast section, then its text records. */
  method WriteMulticastSection(buffer: array<byte>, data: Option<nat>, records: seq<Record>, rclass: u16, ttl: u32, table: StringTable?)
    returns (r: Option<nat>)
    requires Ready(buffer, table, data)
    modifies buffer, table
    ensures ItemsValid(MulticastSection(records, rclass, ttl))
    ensures Wrote(AddItems(old(StateOf(buffer, table, data)), MulticastSection(records, rclass, ttl)), r, buffer, table)
  {
    hide AddItems, ItemValid, UpdateRclassTtl, PlainItems, TextItems;
    ghost var start := StateOf(buffer, table, data);
    ghost var rest := Updated(records, rclass, ttl);
    PlainItemsValid(rest);
    TextItemsValid(records, rclass, ttl);
    AddItemsConcat(start, PlainItems(rest), TextItems(records, rclass, ttl));
    r := data;
    var i := 0;
    assert records[0..] == records;
    while r.Some? && i < |records|
      invariant 0 <= i <= |records| && Ready(buffer, table, r)
      invariant rest == Updated(records[i..], rclass, ttl) && ItemsValid(PlainItems(rest))
      invariant AddItems(start, PlainItems(Updated(records, rclass, ttl))) == AddItems(StateOf(buffer, table, r), PlainItems(rest))
    {
      PlainStep(StateOf(buffer, table, r), rest);
      assert records[i..][1..] == records[i + 1..];
      rest := rest[1..];
      r := AnswerAddRecord(buffer, r, UpdateRclassTtl(records[i], rclass, ttl), table);
      i := i + 1;
    }
    NothingMore(StateOf(buffer, table, r), rest);
    r := AnswerAddTxtRecord(buffer, r, records, rclass, ttl, table);
  }

  lemma NothingMore(o: Option<Out>, rest: seq<Record>)
    requires (o.Some? ==> o.value.Valid()) && ItemsValid(PlainItems(rest)) && (rest == [] || o.None?)
    ensures AddItems(o, PlainItems(rest)) == o
  {
  }

  method WriteUnicastSection(buffer: array<byte>, data: Option<nat>, records: seq<Record>, table: StringTable?)
    returns (r: Option<nat>)
    requires Ready(buffer, table, data)
    modifies buffer, table
    ensures ItemsValid(UnicastSection(records))
    ensures Wrote(AddItems(old(StateOf(buffer, table, data)), UnicastSection(records)), r, buffer, table)
  {
    hide AddItems, ItemValid, ForUnicast, PlainItems, TextItems;
    ghost var start := StateOf(buffer, table, data);
    ghost var rest := AllForUnicast(records);
    PlainItemsValid(rest);
    TextItemsValid(records, CLASS_IN, LEGACY_TTL);
    AddItemsConcat(start, PlainItems(rest), TextItems(records, CLASS_IN, LEGACY_TTL));
    r := data;
    var i := 0;
    assert records[0..] == records;
    while r.Some? && i < |records|
      invariant 0 <= i <= |records| && Ready(buffer, table, r)
      invariant rest == AllForUnicast(records[i..]) && ItemsValid(PlainItems(rest))
      invariant AddItems(start, PlainItems(AllForUnicast(records))) == AddItems(StateOf(buffer, table, r), PlainItems(rest))
    {
      PlainStep(StateOf(buffer, table, r), rest);
      assert records[i..][1..] == records[i + 1..];
      rest := rest[1..];
      r := AnswerAddRecord(buffer, r, ForUnicast(records[i]), table);
      i := i + 1;
    }
    NothingMore(StateOf(buffer, table, r), rest);
    r := AnswerAddTxtRecord(buffer, r, records, CLASS_IN, LEGACY_TTL, table);
  }

  /** The bytes of a finished message, or nothing was built. */
  ghost predicate Built(expected: Option<Out>, r: Option<nat>, buffer: array<byte>)
    reads buffer
  {
    match expected
    case None => r.None?
    case Some(o) => r == Some(o.pos) && buffer[..] == o.buf
  }

  method AnswerMulticastRclassTtl(buffer: array<byte>, answer: Record, authority: seq<Record>, additional: seq<Record>,
                                  rclass: u16, ttl: u32) returns (r: Option<nat>)
    modifies buffer
    ensures Built(MulticastMessage(old(buffer[..]), answer, authority, additional, rclass, ttl), r, buffer)
  {
    hide AddItems, ItemValid, UpdateRclassTtl, PlainItems, MulticastSection, SectionCount, Put, MessageHeader;
    if buffer.Length < MIN_ANSWER_CAPACITY {
      return None;
    }
    ghost var first := PlainItems([UpdateRclassTtl(answer, rclass, ttl)]);
    ghost var second, third := MulticastSection(authority, rclass, ttl), MulticastSection(additional, rclass, ttl);
    MulticastItemsValid(answer, authority, additional, rclass, ttl);
    var authorityCount := AnswerGetRecordCount(authority);
    var additionalCount := AnswerGetRecordCount(additional);
    CountsInHeader(0, RESPONSE_FLAGS, 0, 1, SectionCount(authority), SectionCount(additional));
    CopyBytes(buffer, 0, MessageHeader(0, RESPONSE_FLAGS, 0, 1, authorityCount, additionalCount));
    var table := new StringTable();
    ghost var start := Some(OutOf(buffer, table, HEADER_SIZE));
    AddItemsConcat(start, first, second + third);
    AddItemsConcat(AddItems(start, first), second, third);
    r := AnswerAddRecord(buffer, Some(HEADER_SIZE), UpdateRclassTtl(answer, rclass, ttl), table);
    r := WriteMulticastSection(buffer, r, authority, rclass, ttl, table);
    r := WriteMulticastSection(buffer, r, additional, rclass, ttl, table);
  }

  method AnswerAddQuestionUnicast(buffer: array<byte>, data: nat, rtype: u16, name: NameText, table: StringTable?) returns (r: Option<nat>)
    requires Ready(buffer, table, Some(data))
    modifies buffer, table
    ensures Wrote(AddQuestion(old(OutOf(buffer, table, data)), rtype, name, CLASS_IN + TOP_BIT), r, buffer, table)
  {
    hide MakeName, Labels, Put;
    r := StringMake(buffer, data, name, table);
    if r.None? {
      return;
    }
    if buffer.Length - r.value < 4 {
      return None;
    }
    var next := Store(buffer, r.value, Be16(rtype) + Be16(CLASS_IN + TOP_BIT), table);
    return Some(next);
  }

  method QueryAnswerUnicast(buffer: array<byte>, id: u16, rtype: u16, name: NameText, answer: Record,
                            authority: seq<Record>, additional: seq<Record>) returns (r: Option<nat>)
    modifies buffer
    ensures Built(UnicastMessage(old(buffer[..]), id, rtype, name, answer, authority, additional), r, buffer)
  {
    hide AddItems, ItemValid, PlainItems, UnicastSection, SectionCount, AddQuestion, Put, MessageHeader;
    if buffer.Length < MIN_ANSWER_CAPACITY {
      return None;
    }
    var asked := answer.(rclass := CLASS_IN, ttl := LEGACY_TTL);
    ghost var first := PlainItems([asked]);
    ghost var second, third := UnicastSection(authority), UnicastSection(additional);
    UnicastItemsValid(answer, authority, additional);
    var authorityCount := AnswerGetRecordCount(authority);
    var additionalCount := AnswerGetRecordCount(additional);
    CountsInHeader(id, RESPONSE_FLAGS, 1, 1, SectionCount(authority), SectionCount(additional));
    CopyBytes(buffer, 0, MessageHeader(id, RESPONSE_FLAGS, 1, 1, authorityCount, additionalCount));
    var table := new StringTable();
    r := AnswerAddQuestionUnicast(buffer, HEADER_SIZE, rtype, name, table);
    ghost var start := StateOf(buffer, table, r);
    AddItemsConcat(start, first, second + third);
    AddItemsConcat(AddItems(start, first), second, third);
    r := AnswerAddRecord(buffer, r, asked, table);
    r := WriteUnicastSection(buffer, r, authority, table);
    r := WriteUnicastSection(buffer, r, additional, table);
  }

  method QueryAnswerMulticast(buffer: array<byte>, answer: Record, authority: seq<Record>, additional: seq<Record>)
    returns (r: Option<nat>)
    modifies buffer
    ensures Built(MulticastMessage(old(buffer[..]), answer, authority, additional, CLASS_IN, 60), r, buffer)
  {
    r := AnswerMulticastRclassTtl(buffer, answer, authority, additional, CLASS_IN, 60);
  }

  method AnnounceMulticast(buffer: array<byte>, answer: Record, authority: seq<Record>, additional: seq<Record>)
    returns (r: Option<nat>)
    modifies buffer
    ensures Built(MulticastMessage(old(buffer[..]), answer, authority, additional, CLASS_IN + TOP_BIT, 60), r, buffer)
  {
    r := AnswerMulticastRclassTtl(buffer, answer, authority, additional, CLASS_IN + TOP_BIT, 60);
  }

  method GoodbyeMulticast(buffer: array<byte>, answer: Record, authority: seq<Record>, additional: seq<Record>)
    returns (r: Option<nat>)
    modifies buffer
    ensures Built(MulticastMessage(old(buffer[..]), answer, authority, additional, CLASS_IN, 0), r, buffer)
  {
    r := AnswerMulticastRclassTtl(buffer, answer, authority, additional, CLASS_IN, 0);
  }

  method MultiqueryBuild(buffer: array<byte>, queries: seq<Query>, id: u16, boundToMdnsPort: bool) returns (r: Option<nat>)
    modifies buffer
    ensures Built(QueryMessage(old(buffer[..]), queries, id, QueryClass(boundToMdnsPort)), r, buffer)
  {
    hide MakeName, Labels, Put;
    if |queries| == 0 || buffer.Length < HEADER_SIZE + 6 * |queries| {
      return None;
    }
    var qclass := QueryClass(boundToMdnsPort);
    CopyBytes(buffer, 0, MessageHeader(id, 0, |queries|, 0, 0, 0));
    ghost var start := OutOf(buffer, null, HEADER_SIZE);
    var data: nat := HEADER_SIZE;
    var iq := 0;
    assert queries[0..] == queries;
    while iq < |queries|
      invariant 0 <= iq <= |queries| && data <= buffer.Length
      invariant AddQuestions(start, queries, qclass) == AddQuestions(OutOf(buffer, null, data), queries[iq..], qclass)
    {
      var query := queries[iq];
      assert queries[iq..][1..] == queries[iq + 1..];
      var made := StringMake(buffer, data, query.name, null);
      if made.None? {
        return None;
      }
      if buffer.Length - made.value < 4 {
        return None;
      }
      data := Store(buffer, made.value, Be16(query.rtype) + Be16(qclass), null);
      iq := iq + 1;
    }
    return Some(data);
  }
}
