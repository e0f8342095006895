/** Reading whole messages: records, questions, and the data of records. */
module Parser {
  import opened Bytes
  import opened NameReader
  import opened Records

  datatype EntryType = Question | Answer | Authority | Additional

  /** What the record callback is told; it is taken to let parsing go on. */
  datatype Delivery = Delivery(entry: EntryType, id: u16, rtype: u16, rclass: u16, ttl: u32,
                               nameOffset: nat, nameLength: nat, recordOffset: nat, recordLength: nat)

  // ----- Records

  /** Where the fixed header of the record at `at` is looked for: a name that cannot be
      skipped is not skipped. */
  function HeaderAt(m: seq<byte>, at: nat): (o: nat)
    ensures at <= o
  {
    match NameEnd(m, at, MAX_FETCHES)
    case None => at
    case Some(end) => NameEndInside(m, at, MAX_FETCHES); end
  }

  function RecordAt(m: seq<byte>, at: nat, entry: EntryType, id: u16): (d: Delivery)
    requires HeaderAt(m, at) + 10 <= |m|
  {
    var h := HeaderAt(m, at);
    Delivery(entry, id, Get16(m, h), Get16(m, h + 2), Get32(m, h + 4), at, h - at, h + 10, Get16(m, h + 8))
  }

  /** Delivered records and final offset of walking over `n` records; one whose data would
      run past the end is passed over. */
  function ParseRecords(m: seq<byte>, at: nat, entry: EntryType, id: u16, n: nat): (r: (seq<Delivery>, nat))
    decreases n
  {
    if n == 0 then ([], at)
    else if HeaderAt(m, at) + 10 > |m| then ([], HeaderAt(m, at))
    else
      var d := RecordAt(m, at, entry, id);
      var rest := ParseRecords(m, d.recordOffset + d.recordLength, entry, id, n - 1);
      ((if d.recordOffset + d.recordLength <= |m| then [d] else []) + rest.0, rest.1)
  }

  /** A walk that has delivered `before` and goes on as `rest`. */
  function GoOn(before: seq<Delivery>, rest: (seq<Delivery>, nat)): (r: (seq<Delivery>, nat)) {
    (before + rest.0, rest.1)
  }

  lemma GoOnNothing(before: seq<Delivery>, rest: (seq<Delivery>, nat))
    ensures GoOn([], rest) == rest
    ensures GoOn(before, ([], rest.1)) == (before, rest.1)
  {
    assert [] + rest.0 == rest.0;
    assert before + [] == before;
  }

  lemma ParseStep(m: seq<byte>, at: nat, entry: EntryType, id: u16, n: nat)
    requires n > 0
    ensures ParseRecords(m, at, entry, id, n) ==
            if HeaderAt(m, at) + 10 > |m| then ([], HeaderAt(m, at))
            else
              var d := RecordAt(m, at, entry, id);
              GoOn(if d.recordOffset + d.recordLength <= |m| then [d] else [],
                   ParseRecords(m, d.recordOffset + d.recordLength, entry, id, n - 1))
  {
    hide HeaderAt, RecordAt;
  }

  method RecordsParse(buffer: seq<byte>, offset: nat, entry: EntryType, id: u16, records: nat)
    returns (parsed: nat, newOffset: nat, delivered: seq<Delivery>)
    ensures (delivered, newOffset) == ParseRecords(buffer, offset, entry, id, records)
    ensures parsed == |delivered|
  {
    hide NameEnd, GoOn, ParseRecords, Get16, Get32;
    parsed, newOffset, delivered := 0, offset, [];
    GoOnNothing([], ParseRecords(buffer, offset, entry, id, records));
    var i := 0;
    while i < records
      invariant 0 <= i <= records && parsed == |delivered|
      invariant ParseRecords(buffer, offset, entry, id, records)
             == GoOn(delivered, ParseRecords(buffer, newOffset, entry, id, records - i))
    {
      ParseStep(buffer, newOffset, entry, id, records - i);
      var nameOffset := newOffset;
      var _, next, _ := Skip(buffer, newOffset);
      newOffset := next;
      assert newOffset == HeaderAt(buffer, nameOffset);
      if newOffset + 10 > |buffer| {
        GoOnNothing(delivered, ([], newOffset));
        return;
      }
      var nameLength := newOffset - nameOffset;
      var rtype, rclass := Get16(buffer, newOffset), Get16(buffer, newOffset + 2);
      var ttl, length := Get32(buffer, newOffset + 4), Get16(buffer, newOffset + 8);
      newOffset := newOffset + 10;
      var d := Delivery(entry, id, rtype, rclass, ttl, nameOffset, nameLength, newOffset, length);
      var fits := length <= |buffer| - newOffset;
      GoOnTwice(delivered, if fits then [d] else [], ParseRecords(buffer, newOffset + length, entry, id, records - i - 1));
      if fits {
        parsed := parsed + 1;
        delivered := delivered + [d];
      } else {
        assert delivered + [] == delivered;
      }
      newOffset := newOffset + length;
      i := i + 1;
    }
    NothingLeft(buffer, newOffset, entry, id);
    GoOnNothing(delivered, ([], newOffset));
  }

  lemma NothingLeft(m: seq<byte>, at: nat, entry: EntryType, id: u16)
    ensures ParseRecords(m, at, entry, id, 0) == ([], at)
  {
  }

  lemma GoOnTwice(before: seq<Delivery>, x: seq<Delivery>, rest: (seq<Delivery>, nat))
    ensures GoOn(before, GoOn(x, rest)) == GoOn(before + x, rest)
  {
    assert before + (x + rest.0) == (before + x) + rest.0;
  }

  /** On arbitrary bytes: every delivered record has its name, its ten header bytes and its
      data side by side inside the message. */
  ghost predicate Inside(m: seq<byte>, d: Delivery) {
    d.nameOffset + d.nameLength + 10 == d.recordOffset && d.recordOffset + d.recordLength <= |m|
    && (NameEnd(m, d.nameOffset, MAX_FETCHES) == Some(d.nameOffset + d.nameLength) || d.nameLength == 0)
    && d.rtype == Get16(m, d.recordOffset - 10) && d.rclass == Get16(m, d.recordOffset - 8)
    && d.ttl == Get32(m, d.recordOffset - 6) && d.recordLength == Get16(m, d.recordOffset - 2)
  }

  /** No more records than asked for, each inside the message, each ending before the next begins;
      as many as asked for only if the walk ends inside the message. */
  ghost predicate Safe(m: seq<byte>, at: nat, ds: seq<Delivery>, end: nat, n: nat, entry: EntryType, id: u16) {
    |ds| <= n && at <= end && (n == 0 ==> end == at)
    && (forall d :: d in ds ==> Inside(m, d) && at <= d.nameOffset && d.entry == entry && d.id == id)
    && (forall i, j :: 0 <= i < j < |ds| ==> ds[i].recordOffset + ds[i].recordLength <= ds[j].nameOffset)
    && (|ds| == n && n > 0 ==> end <= |m| && end == ds[n - 1].recordOffset + ds[n - 1].recordLength)
  }

  lemma SafeCons(m: seq<byte>, d: Delivery, rest: seq<Delivery>, end: nat, n: nat, entry: EntryType, id: u16)
    requires Inside(m, d) && d.entry == entry && d.id == id
    requires Safe(m, d.recordOffset + d.recordLength, rest, end, n, entry, id)
    ensures Safe(m, d.nameOffset, [d] + rest, end, n + 1, entry, id)
  {
    hide Inside;
    InsideOrder(m, d);
    var ds := [d] + rest;
    forall i, j | 0 <= i < j < |ds| ensures ds[i].recordOffset + ds[i].recordLength <= ds[j].nameOffset {
      assert ds[j] == rest[j - 1] && rest[j - 1] in rest;
      if i > 0 {
        assert ds[i] == rest[i - 1];
      }
    }
  }

  lemma InsideOrder(m: seq<byte>, d: Delivery)
    requires Inside(m, d)
    ensures d.nameOffset <= d.recordOffset && d.recordOffset + d.recordLength <= |m|
  {
  }

  lemma SafeNone(m: seq<byte>, at: nat, end: nat, n: nat, entry: EntryType, id: u16)
    requires if n == 0 then end == at else at <= end
    ensures Safe(m, at, [], end, n, entry, id)
  {
  }

  lemma RecordIsInside(m: seq<byte>, at: nat, entry: EntryType, id: u16)
    requires HeaderAt(m, at) + 10 <= |m|
    ensures var d := RecordAt(m, at, entry, id);
            at == d.nameOffset <= d.recordOffset && d.entry == entry && d.id == id
            && (d.recordOffset + d.recordLength <= |m| ==> Inside(m, d))
  {
    hide NameEnd, Get16, Get32;
  }

  /** What a walk over arbitrary bytes delivers. */
  lemma {:induction false} WalkIsSafe(m: seq<byte>, at: nat, entry: EntryType, id: u16, n: nat)
    ensures var (ds, end) := ParseRecords(m, at, entry, id, n);
            Safe(m, at, ds, end, n, entry, id)
    decreases n
  {
    hide NameEnd, ParseRecords, RecordAt, HeaderAt, Inside, Safe;
    if n == 0 {
      NothingLeft(m, at, entry, id);
      SafeNone(m, at, at, n, entry, id);
    } else {
      ParseStep(m, at, entry, id, n);
      if HeaderAt(m, at) + 10 <= |m| {
        var d := RecordAt(m, at, entry, id);
        RecordIsInside(m, at, entry, id);
        var next := d.recordOffset + d.recordLength;
        if next <= |m| {
          WalkIsSafe(m, next, entry, id, n - 1);
          var (rest, end) := ParseRecords(m, next, entry, id, n - 1);
          SafeCons(m, d, rest, end, n - 1, entry, id);
        } else {
          NothingPastEnd(m, next, entry, id, n - 1);
          GoOnNothing([], ([], next));
          SafeNone(m, at, next, n, entry, id);
        }
      } else {
        SafeNone(m, at, HeaderAt(m, at), n, entry, id);
      }
    }
  }

  /** Where a record begins and where its fixed part does. */
  datatype RecordPlace = RecordPlace(at: nat, header: nat)

  /** The ten bytes of the fixed part are there, right after the name, or at the record's beginning
      if the name cannot be skipped. */
  predicate IsRecord(m: seq<byte>, p: RecordPlace) {
    p.header + 10 <= |m| && NameEnd(m, p.at, MAX_FETCHES) == if p.header == p.at then None else Some(p.header)
  }

  function Next(m: seq<byte>, p: RecordPlace): (end: nat) {
    if p.header + 10 <= |m| then p.header + 10 + (m[p.header + 8] as int * 0x100 + m[p.header + 9]) else |m|
  }

  /** Records with all their data in the message lie one after another from `at`. */
  predicate RecordsLie(m: seq<byte>, at: nat, ps: seq<RecordPlace>, end: nat)
    decreases |ps|
  {
    if ps == [] then end == at
    else
      ps[0].at == at && IsRecord(m, ps[0]) && Next(m, ps[0]) <= |m| && RecordsLie(m, Next(m, ps[0]), ps[1..], end)
  }

  /** What ends the walk after the records `ps`: there are as many as asked for; there is no room
      for another fixed part; or there is one, but its data does not end inside the message. */
  predicate WalkEnds(m: seq<byte>, ps: seq<RecordPlace>, n: nat, next: nat, end: nat) {
    |ps| <= n
    && if |ps| == n then end == next
       else
         var header := if NameEnd(m, next, MAX_FETCHES).None? then next else NameEnd(m, next, MAX_FETCHES).value;
         if header + 10 > |m| then end == header
         else Next(m, RecordPlace(next, header)) > |m| && end == Next(m, RecordPlace(next, header))
  }

  /** What the callback is told of a record. */
  function Seen(m: seq<byte>, p: RecordPlace, entry: EntryType, id: u16): (d: Delivery)
    requires p.at <= p.header && p.header + 10 <= |m|
  {
    var b := m[p.header..p.header + 10];
    Delivery(entry, id, b[0] as int * 0x100 + b[1], b[2] as int * 0x100 + b[3],
             b[4] as int * 0x100_0000 + b[5] as int * 0x1_0000 + b[6] as int * 0x100 + b[7],
             p.at, p.header - p.at, p.header + 10, b[8] as int * 0x100 + b[9])
  }

  predicate AllSeen(m: seq<byte>, ds: seq<Delivery>, ps: seq<RecordPlace>, entry: EntryType, id: u16) {
    |ds| == |ps| && forall i :: 0 <= i < |ds| ==> ps[i].at <= ps[i].header && ps[i].header + 10 <= |m|
                                                  && ds[i] == Seen(m, ps[i], entry, id)
  }

  lemma OneMoreSeen(m: seq<byte>, p: RecordPlace, ds: seq<Delivery>, ps: seq<RecordPlace>, entry: EntryType, id: u16,
                    n: nat, next: nat, end: nat)
    requires IsRecord(m, p) && p.at <= p.header && Next(m, p) <= |m|
    requires AllSeen(m, ds, ps, entry, id) && RecordsLie(m, Next(m, p), ps, next) && WalkEnds(m, ps, n, next, end)
    ensures AllSeen(m, [Seen(m, p, entry, id)] + ds, [p] + ps, entry, id)
    ensures RecordsLie(m, p.at, [p] + ps, next) && WalkEnds(m, [p] + ps, n + 1, next, end)
  {
    hide NameEnd, Seen, Next;
    assert ([p] + ps)[1..] == ps;
  }

  /** On arbitrary bytes a walk over `n` records delivers exactly the records that lie one after
      another and whole in the message, up to `n`, and stops at the first that does not. */
  lemma {:induction false} WalkExactly(m: seq<byte>, at: nat, entry: EntryType, id: u16, n: nat) returns (ps: seq<RecordPlace>, next: nat)
    ensures RecordsLie(m, at, ps, next) && WalkEnds(m, ps, n, next, ParseRecords(m, at, entry, id, n).1)
    ensures AllSeen(m, ParseRecords(m, at, entry, id, n).0, ps, entry, id)
    decreases n
  {
    hide NameEnd, Seen, Next, RecordAt, ParseRecords, Get16, Get32;
    ps, next := [], at;
    var header := HeaderAt(m, at);
    if n == 0 {
      NothingLeft(m, at, entry, id);
    } else {
      ParseStep(m, at, entry, id, n);
      if header + 10 <= |m| {
        var p := RecordPlace(at, header);
        NameIsNotEmpty(m, at);
        SeenIs(m, p, entry, id);
        var end := Next(m, p);
        if end <= |m| {
          var rest;
          rest, next := WalkExactly(m, end, entry, id, n - 1);
          ps := [p] + rest;
          var r := ParseRecords(m, end, entry, id, n - 1);
          OneMoreSeen(m, p, r.0, rest, entry, id, n - 1, next, r.1);
        } else {
          NothingPastEnd(m, end, entry, id, n - 1);
        }
      }
    }
  }

  lemma NameIsNotEmpty(m: seq<byte>, at: nat)
    ensures NameEnd(m, at, MAX_FETCHES).Some? ==> NameEnd(m, at, MAX_FETCHES).value > at
  {
    if NameEnd(m, at, MAX_FETCHES).Some? {
      NameEndInside(m, at, MAX_FETCHES);
    }
  }

  lemma SeenIs(m: seq<byte>, p: RecordPlace, entry: EntryType, id: u16)
    requires HeaderAt(m, p.at) == p.header && p.header + 10 <= |m|
    ensures Seen(m, p, entry, id) == RecordAt(m, p.at, entry, id)
    ensures var d := RecordAt(m, p.at, entry, id); d.recordOffset + d.recordLength == Next(m, p)
  {
    hide NameEnd;
  }

  lemma NothingPastEnd(m: seq<byte>, at: nat, entry: EntryType, id: u16, n: nat)
    requires at > |m|
    ensures ParseRecords(m, at, entry, id, n) == ([], at)
  {
    if NameEnd(m, at, MAX_FETCHES).Some? {
      NameEndInside(m, at, MAX_FETCHES);
    }
  }

  // ----- The data of records

  /** The text of the name at `offset`, cut to `capacity`; nothing if it cannot be read. */
  function TextAt(m: seq<byte>, offset: nat, capacity: nat): (s: seq<byte>) {
    match ReadName(m, offset, MAX_FETCHES)
    case None => []
    case Some(ls) => Cut(Dotted(ls), capacity)
  }

  function PtrText(m: seq<byte>, offset: nat, length: nat, capacity: nat): (s: seq<byte>) {
    if |m| >= offset + length && length >= 2 then TextAt(m, offset, capacity) else []
  }

  datatype SrvRecord = SrvRecord(priority: u16, weight: u16, port: u16, name: seq<byte>)

  function SrvOf(m: seq<byte>, offset: nat, length: nat, capacity: nat): (r: SrvRecord) {
    if |m| >= offset + length && length >= 8 then
      SrvRecord(Get16(m, offset), Get16(m, offset + 2), Get16(m, offset + 4), TextAt(m, offset + 6, capacity))
    else SrvRecord(0, 0, 0, [])
  }

  function AddressOf(m: seq<byte>, offset: nat, length: nat, size: nat): (s: seq<byte>)
    ensures |s| == size
  {
    if |m| >= offset + length && length == size then m[offset..offset + size] else seq(size, _ => 0)
  }

  /** Data that is not all in the message, too short for its type, or of another length than an
      address has, reads as nothing. */
  lemma WrongDataReadsAsNothing(m: seq<byte>, offset: nat, length: nat, capacity: nat)
    ensures offset + length > |m| || length < 2 ==> PtrText(m, offset, length, capacity) == []
    ensures offset + length > |m| || length < 8 ==> SrvOf(m, offset, length, capacity) == SrvRecord(0, 0, 0, [])
    ensures offset + length > |m| || length != 4 ==> AddressOf(m, offset, length, 4) == [0, 0, 0, 0]
    ensures offset + length > |m| || length != 16 ==> forall i :: 0 <= i < 16 ==> AddressOf(m, offset, length, 16)[i] == 0
  {
  }

  method RecordParsePtr(buffer: seq<byte>, offset: nat, length: nat, strbuffer: array<byte>, capacity: nat) returns (n: nat)
    requires capacity <= strbuffer.Length
    modifies strbuffer
    ensures n <= capacity && strbuffer[..n] == PtrText(buffer, offset, length, capacity)
  {
    hide ReadName, NameEnd, Dotted, Cut;
    if |buffer| >= offset + length && length >= 2 {
      var length', _, _ := Extract(buffer, offset, strbuffer, capacity);
      return length';
    }
    return 0;
  }

  method RecordParseSrv(buffer: seq<byte>, offset: nat, length: nat, strbuffer: array<byte>, capacity: nat)
    returns (priority: u16, weight: u16, port: u16, n: nat)
    requires capacity <= strbuffer.Length
    modifies strbuffer
    ensures n <= capacity && SrvRecord(priority, weight, port, strbuffer[..n]) == SrvOf(buffer, offset, length, capacity)
  {
    hide ReadName, NameEnd, Dotted, Cut;
    priority, weight, port, n := 0, 0, 0, 0;
    if |buffer| >= offset + length && length >= 8 {
      priority, weight, port := Get16(buffer, offset), Get16(buffer, offset + 2), Get16(buffer, offset + 4);
      var length', _, _ := Extract(buffer, offset + 6, strbuffer, capacity);
      n := length';
    }
  }

  /** `mdns_record_parse_a` with `size` 4 and `mdns_record_parse_aaaa` with `size` 16. */
  method RecordParseAddress(buffer: seq<byte>, offset: nat, length: nat, size: nat) returns (addr: seq<byte>)
    ensures addr == AddressOf(buffer, offset, length, size)
  {
    addr := seq(size, _ => 0);
    if |buffer| >= offset + length && length == size {
      addr := buffer[offset..offset + size];
    }
  }

  // ----- Received messages

  /** The records of a message section by section, and where reading stopped; a section that
      falls short ends the reading. */
  datatype Sections = Sections(answers: seq<Delivery>, authority: seq<Delivery>, additional: seq<Delivery>, end: nat)

  const NOTHING: Sections := Sections([], [], [], 0)

  function ParseSections(m: seq<byte>, at: nat, id: u16, an: nat, ns: nat, ar: nat): (r: Sections) {
    var (answers, at1) := ParseRecords(m, at, Answer, id, an);
    if |answers| != an then Sections(answers, [], [], at1)
    else
      var (authority, at2) := ParseRecords(m, at1, Authority, id, ns);
      if |authority| != ns then Sections(answers, authority, [], at2)
      else
        var (additional, at3) := ParseRecords(m, at2, Additional, id, ar);
        Sections(answers, authority, additional, at3)
  }

  /** Reading the answer to a query, or any message with questions to pass over. */
  function SkipQuestions(m: seq<byte>, at: nat, n: nat): (r: Option<nat>)
    decreases n
  {
    if n == 0 then Some(at)
    else
      var end :- NameEnd(m, at, MAX_FETCHES);
      SkipQuestions(m, end + 4, n - 1)
  }

  /** Records delivered for a received answer; with a positive `onlyId` only for that query ID. */
  function ReceivedAnswer(m: seq<byte>, onlyId: int): (r: Sections)
    requires |m| >= 12
  {
    var id := Get16(m, 0);
    if onlyId > 0 && id != onlyId then NOTHING
    else
      match SkipQuestions(m, 12, Get16(m, 4))
      case None => NOTHING
      case Some(at) => ParseSections(m, at, id, Get16(m, 6), Get16(m, 8), Get16(m, 10))
  }

  /** With an ID to wait for, a reply with another one delivers nothing. */
  lemma OtherIdIsRefused(m: seq<byte>, onlyId: int)
    requires |m| >= 12 && onlyId > 0 && m[0] as int * 0x100 + m[1] != onlyId
    ensures var s := ReceivedAnswer(m, onlyId); s.answers == [] && s.authority == [] && s.additional == []
  {
  }

  method ReadSections(buffer: seq<byte>, offset: nat, id: u16, an: nat, ns: nat, ar: nat) returns (r: Sections)
    ensures r == ParseSections(buffer, offset, id, an, ns, ar)
  {
    var records, at, answers := RecordsParse(buffer, offset, Answer, id, an);
    r := Sections(answers, [], [], at);
    if records != an {
      return;
    }
    var authority;
    records, at, authority := RecordsParse(buffer, at, Authority, id, ns);
    r := r.(authority := authority, end := at);
    if records != ns {
      return;
    }
    var additional;
    records, at, additional := RecordsParse(buffer, at, Additional, id, ar);
    r := r.(additional := additional, end := at);
  }

  method QueryRecv(buffer: seq<byte>, onlyId: int) returns (total: nat, delivered: Sections)
    requires |buffer| >= 12
    ensures delivered == ReceivedAnswer(buffer, onlyId)
    ensures total == |delivered.answers| + |delivered.authority| + |delivered.additional|
    ensures onlyId > 0 && buffer[0] as int * 0x100 + buffer[1] != onlyId ==> total == 0
  {
    assert Get16(buffer, 0) == buffer[0] as int * 0x100 + buffer[1];
    hide NameEnd, ParseSections, Get16;
    var id, questions := Get16(buffer, 0), Get16(buffer, 4);
    delivered := NOTHING;
    if onlyId > 0 && id != onlyId {
      return 0, delivered;
    }
    var data: nat, i := 12, 0;
    while i < questions
      invariant 0 <= i <= questions
      invariant SkipQuestions(buffer, 12, questions) == SkipQuestions(buffer, data, questions - i)
    {
      var ok, offset, _ := Skip(buffer, data);
      if !ok {
        return 0, delivered;
      }
      data := offset + 4;
      i := i + 1;
    }
    delivered := ReadSections(buffer, data, id, Get16(buffer, 6), Get16(buffer, 8), Get16(buffer, 10));
    total := |delivered.answers| + |delivered.authority| + |delivered.additional|;
  }

  // ----- The listener

  /** `_services._dns-sd._udp.local.` as labels. */
  const SERVICES: seq<Label> := [
    [0x5F, 0x73, 0x65, 0x72, 0x76, 0x69, 0x63, 0x65, 0x73],
    [0x5F, 0x64, 0x6E, 0x73, 0x2D, 0x73, 0x64],
    [0x5F, 0x75, 0x64, 0x70],
    [0x6C, 0x6F, 0x63, 0x61, 0x6C]]

  /** The services-discovery query the listener compares every question's name with. */
  const SERVICES_QUERY: seq<byte> :=
    [0, 0, 0, 0, 0, 1, 0, 0, 0, 0, 0, 0]
    + [9] + SERVICES[0] + [7] + SERVICES[1] + [4] + SERVICES[2] + [5] + SERVICES[3] + [0]
    + [0, TYPE_PTR, 0x80, CLASS_IN]

  /** Whether the name at `at` is the services-discovery name, ignoring case. */
  predicate IsServicesName(m: seq<byte>, at: nat) {
    SameName(m, at, SERVICES_QUERY, 12, MAX_FETCHES)
  }

  predicate AcceptedClass(rclass: u16) {
    rclass % TOP_BIT == CLASS_IN || rclass % TOP_BIT == CLASS_ANY
  }

  /** Every question that is come to and can be skipped has its type and class after its name. */
  predicate QuestionsComplete(m: seq<byte>, at: nat, n: nat)
    decreases n
  {
    n == 0
    || match NameEnd(m, at, MAX_FETCHES)
       case None => true
       case Some(end) =>
         end + 4 <= |m| && (AcceptedClass(Get16(m, end + 2)) ==> QuestionsComplete(m, end + 4, n - 1))
  }

  /** Delivered questions, and where the records are then looked for. A services-discovery
      question in a message with flags is passed over. */
  function ListenQuestions(m: seq<byte>, at: nat, id: u16, flags: u16, n: nat): (r: (seq<Delivery>, nat))
    requires QuestionsComplete(m, at, n)
    decreases n
  {
    if n == 0 || NameEnd(m, at, MAX_FETCHES).None? then ([], at)
    else
      var end := NameEnd(m, at, MAX_FETCHES).value;
      NameEndInside(m, at, MAX_FETCHES);
      if !AcceptedClass(Get16(m, end + 2)) then ([], end + 4)
      else
        GoOn(if IsServicesName(m, at) && flags != 0 then []
             else [Delivery(Question, id, Get16(m, end), Get16(m, end + 2), 0, at, end - at, at, end - at)],
             ListenQuestions(m, end + 4, id, flags, n - 1))
  }

  predicate Listenable(m: seq<byte>) {
    |m| >= 12 && QuestionsComplete(m, 12, Get16(m, 4))
  }

  function Questions(m: seq<byte>): (r: (seq<Delivery>, nat))
    requires Listenable(m)
  {
    ListenQuestions(m, 12, Get16(m, 0), Get16(m, 2), Get16(m, 4))
  }

  /** Everything the listener is told of a message. */
  function Heard(m: seq<byte>): (r: (seq<Delivery>, Sections))
    requires Listenable(m)
  {
    var (qs, at) := Questions(m);
    (qs, ParseSections(m, at, Get16(m, 0), Get16(m, 6), Get16(m, 8), Get16(m, 10)))
  }

  /** The count it returns leaves out the additional records. */
  method SocketListen(buffer: seq<byte>) returns (total: nat, questions: seq<Delivery>, records: Sections)
    requires Listenable(buffer)
    ensures (questions, records) == Heard(buffer)
    ensures total == |questions| + |records.answers| + |records.authority|
  {
    hide NameEnd, SameName, ParseSections, Get16, GoOn, AcceptedClass;
    var id, flags, count := Get16(buffer, 0), Get16(buffer, 2), Get16(buffer, 4);
    questions := [];
    var data: nat, i := 12, 0;
    GoOnNothing([], Questions(buffer));
    while i < count
      invariant 0 <= i <= count && QuestionsComplete(buffer, data, count - i)
      invariant Questions(buffer) == GoOn(questions, ListenQuestions(buffer, data, id, flags, count - i))
    {
      var questionOffset := data;
      var dnsSd, offset, _, _ := Equal(buffer, questionOffset, SERVICES_QUERY, 12);
      if !dnsSd {
        var ok, next, _ := Skip(buffer, questionOffset);
        offset := next;
        if !ok {
          break;
        }
      }
      NameEndInside(buffer, questionOffset, MAX_FETCHES);
      var length := offset - questionOffset;
      var rtype, rclass := Get16(buffer, offset), Get16(buffer, offset + 2);
      data := offset + 4;
      var d := Delivery(Question, id, rtype, rclass, 0, questionOffset, length, questionOffset, length);
      if !AcceptedClass(rclass) {
        GoOnNothing(questions, ([], data));
        break;
      }
      var rest := ListenQuestions(buffer, data, id, flags, count - i - 1);
      GoOnTwice(questions, if dnsSd && flags != 0 then [] else [d], rest);
      i := i + 1;
      if dnsSd && flags != 0 {
        assert questions + [] == questions;
        continue;
      }
      questions := questions + [d];
    }
    GoOnNothing(questions, ([], data));
    records := ReadSections(buffer, data, id, Get16(buffer, 6), Get16(buffer, 8), Get16(buffer, 10));
    total := |questions| + |records.answers| + |records.authority|;
  }
}
