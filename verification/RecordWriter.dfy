/** The routines that write records into a message buffer. */
module RecordWriter {
  import opened Bytes
  import opened NameReader
  import opened StringTables
  import opened NameWriter
  import opened Records

  /** The state a routine starts from; `None` is the null pointer passed on after a failure. */
  ghost function StateOf(buffer: array<byte>, table: StringTable?, data: Option<nat>): (o: Option<Out>)
    reads buffer, table
    requires table != null ==> table.Valid()
  {
    if data.None? then None else Some(OutOf(buffer, table, data.value))
  }

  ghost predicate Ready(buffer: array<byte>, table: StringTable?, data: Option<nat>)
    reads table
  {
    (table != null ==> table.Valid()) && (data.Some? ==> data.value <= buffer.Length)
  }

  /** Stores fixed bytes and returns the position after them. */
  method Store(buffer: array<byte>, data: nat, s: seq<byte>, table: StringTable?) returns (r: nat)
    requires data + |s| <= buffer.Length && (table != null ==> table.Valid())
    modifies buffer
    ensures OutOf(buffer, table, r) == old(OutOf(buffer, table, data)).Append(s)
    ensures r == data + |s|
  {
    CopyBytes(buffer, data, s);
    r := data + |s|;
  }

  method AnswerAddRecordHeader(buffer: array<byte>, data: nat, record: Record, table: StringTable?) returns (r: Option<nat>)
    requires Ready(buffer, table, Some(data))
    modifies buffer, table
    ensures Wrote(AddHeader(old(OutOf(buffer, table, data)), record), r, buffer, table)
  {
    hide MakeName, Put, HeaderBytes;
    r := StringMake(buffer, data, record.name, table);
    if r.None? {
      return;
    }
    if buffer.Length - r.value < 10 {
      return None;
    }
    var next := Store(buffer, r.value, HeaderBytes(TypeOf(record.data), record.rclass, record.ttl, 0), table);
    return Some(next);
  }

  /** The switch on the record type. */
  method AddRecordData(buffer: array<byte>, data: nat, record: Record, table: StringTable?) returns (r: Option<nat>)
    requires Ready(buffer, table, Some(data))
    modifies buffer, table
    ensures Wrote(AddData(old(OutOf(buffer, table, data)), record.data), r, buffer, table)
  {
    hide MakeName, Put, SrvBytes, Labels;
    var remain := buffer.Length - data;
    match record.data
    case Ptr(name) =>
      r := StringMake(buffer, data, name, table);
    case Srv(priority, weight, port, target) =>
      if remain <= 6 {
        return None;
      }
      var next := Store(buffer, data, SrvBytes(priority, weight, port), table);
      r := StringMake(buffer, next, target, table);
    case A(addr) =>
      if remain < 4 {
        return None;
      }
      var next := Store(buffer, data, addr, table);
      return Some(next);
    case Aaaa(addr) =>
      if remain < 16 {
        return None;
      }
      var next := Store(buffer, data, addr, table);
      return Some(next);
    case Txt(_, _) =>
      return Some(data);
    case Other(_) =>
      return Some(data);
  }

  /** Fills in a record's length once its data is there. */
  method FillLength(buffer: array<byte>, start: nat, end: nat, table: StringTable?)
    requires 2 <= start <= end <= buffer.Length && (table != null ==> table.Valid())
    modifies buffer
    ensures OutOf(buffer, table, end) == PatchLength(old(OutOf(buffer, table, end)), start)
  {
    CopyBytes(buffer, start - 2, Be16((end - start) % 0x1_0000));
  }

  /** Writes one record; a text record is left for later. */
  method AnswerAddRecord(buffer: array<byte>, data: Option<nat>, record: Record, table: StringTable?) returns (r: Option<nat>)
    requires Ready(buffer, table, data)
    modifies buffer, table
    ensures ItemsValid(PlainItems([record]))
    ensures Wrote(AddItems(old(StateOf(buffer, table, data)), PlainItems([record])), r, buffer, table)
  {
    hide AddHeader, AddData, PatchLength;
    PlainItemsValid([record]);
    OneRecord(old(StateOf(buffer, table, data)), record);
    if data.None? || record.data.Txt? {
      return data;
    }
    r := AnswerAddRecordHeader(buffer, data.value, record, table);
    if r.None? {
      return;
    }
    var recordData := r.value;
    r := AddRecordData(buffer, recordData, record, table);
    if r.None? {
      return;
    }
    FillLength(buffer, recordData, r.value, table);
  }

  lemma OneRecord(o: Option<Out>, record: Record)
    requires o.Some? ==> o.value.Valid()
    ensures ItemsValid(PlainItems([record]))
    ensures AddItems(o, PlainItems([record])) ==
            if o.None? || record.data.Txt? then o else AddItem(o.value, Plain(record))
  {
    hide AddItem;
    assert [record][1..] == [];
    assert PlainItems([record]) == if record.data.Txt? then [] else [Plain(record)];
    if o.Some? && !record.data.Txt? {
      var next := AddItem(o.value, Plain(record));
      assert [Plain(record)][1..] == [];
      assert AddItems(next, []) == next;
    }
  }

  /** One text string. */
  method AddTxtString(buffer: array<byte>, data: nat, s: RecordData, table: StringTable?) returns (r: Option<nat>)
    requires Ready(buffer, table, Some(data)) && s.Txt?
    modifies buffer
    ensures Wrote(AddString(old(OutOf(buffer, table, data)), s), r, buffer, table)
  {
    var stringLength := |s.key| + |s.value| + 1;
    var remain := buffer.Length - data;
    if remain <= stringLength || stringLength > 0x3FFF {
      return None;
    }
    var next := Store(buffer, data, [stringLength % 0x100] + s.key + [0], table);
    return Some(next + |s.value|);
  }

  /** Writes the text records of a section as one record. */
  method AnswerAddTxtRecord(buffer: array<byte>, data: Option<nat>, records: seq<Record>, rclass: u16, ttl: u32, table: StringTable?)
    returns (r: Option<nat>)
    requires Ready(buffer, table, data)
    modifies buffer, table
    ensures ItemsValid(TextItems(records, rclass, ttl))
    ensures Wrote(AddItems(old(StateOf(buffer, table, data)), TextItems(records, rclass, ttl)), r, buffer, table)
  {
    hide AddHeader, AddString, PatchLength, UpdateRclassTtl;
    TextItemsValid(records, rclass, ttl);
    if data.None? {
      return None;
    }
    ghost var start := OutOf(buffer, table, data.value);
    ghost var goal := AddItems(Some(start), TextItems(records, rclass, ttl));
    var recordData: Option<nat> := None;
    ghost var headed := start;
    var cur: nat := data.value;
    var i := 0;
    assert records[0..] == records;
    while i < |records|
      invariant 0 <= i <= |records| && Ready(buffer, table, Some(cur))
      invariant TextProgress(goal, start, headed, OutOf(buffer, table, cur), recordData, records[i..], rclass, ttl)
    {
      var record := records[i];
      TextTurn(goal, start, headed, OutOf(buffer, table, cur), recordData, records[i..], rclass, ttl);
      assert records[i..][0] == record && records[i..][1..] == records[i + 1..];
      i := i + 1;
      if !record.data.Txt? {
        continue;
      }
      if recordData.None? {
        var h := AnswerAddRecordHeader(buffer, cur, UpdateRclassTtl(record, rclass, ttl), table);
        if h.None? {
          return None;
        }
        recordData := h;
        cur := h.value;
        headed := OutOf(buffer, table, cur);
      }
      var s := AddTxtString(buffer, cur, record.data, table);
      if s.None? {
        return None;
      }
      cur := s.value;
    }
    TextEnd(goal, start, headed, OutOf(buffer, table, cur), recordData, rclass, ttl);
    if recordData.Some? {
      FillLength(buffer, recordData.value, cur, table);
    }
    return Some(cur);
  }

  /** How far the text loop has come: before the first text record nothing has been written;
      afterwards its header has, and the strings so far. */
  ghost predicate TextProgress(goal: Option<Out>, start: Out, headed: Out, o: Out, recordData: Option<nat>,
                               rest: seq<Record>, rclass: u16, ttl: u32)
  {
    TextItemsValid(rest, rclass, ttl);
    start.Valid() && o.Valid() && headed.Valid()
    && match recordData
       case None => o == start && goal == AddItems(Some(start), TextItems(rest, rclass, ttl))
       case Some(at) =>
         at == headed.pos && 2 <= at <= o.pos && |headed.buf| == |o.buf|
         && goal == match AddStrings(o, Strings(rest)) case None => None case Some(x) => Some(PatchLength(x, at))
  }

  /** What the next record does to the text loop. */
  lemma TextTurn(goal: Option<Out>, start: Out, headed: Out, o: Out, recordData: Option<nat>,
                 rest: seq<Record>, rclass: u16, ttl: u32)
    requires rest != [] && TextProgress(goal, start, headed, o, recordData, rest, rclass, ttl)
    ensures !rest[0].data.Txt? ==> TextProgress(goal, start, headed, o, recordData, rest[1..], rclass, ttl)
    ensures rest[0].data.Txt? ==>
              var h := if recordData.Some? then Some(o) else AddHeader(o, UpdateRclassTtl(rest[0], rclass, ttl));
              var s := if h.Some? then AddString(h.value, rest[0].data) else None;
              if s.None? then goal.None?
              else
                var h' := if recordData.Some? then headed else h.value;
                TextProgress(goal, start, h', s.value, Some(h'.pos), rest[1..], rclass, ttl)
  {
    hide AddHeader, AddString, PatchLength, UpdateRclassTtl;
    TextItemsValid(rest, rclass, ttl);
    TextItemsValid(rest[1..], rclass, ttl);
    if rest[0].data.Txt? {
      assert Strings(rest)[1..] == Strings(rest[1..]);
      if recordData.None? {
        OneText(o, rest, rclass, ttl);
      }
    } else {
      assert TxtRecords(rest) == TxtRecords(rest[1..]);
      assert Strings(rest) == Strings(rest[1..]);
    }
  }

  lemma OneText(o: Out, rest: seq<Record>, rclass: u16, ttl: u32)
    requires o.Valid() && rest != [] && rest[0].data.Txt?
    ensures ItemsValid(TextItems(rest, rclass, ttl))
    ensures AllTxt(Strings(rest))
    ensures AddItems(Some(o), TextItems(rest, rclass, ttl))
         == AddItem(o, Texts(UpdateRclassTtl(rest[0], rclass, ttl), Strings(rest)))
  {
    hide AddItem, UpdateRclassTtl;
    TextItemsValid(rest, rclass, ttl);
    var item := Texts(UpdateRclassTtl(rest[0], rclass, ttl), Strings(rest));
    assert TextItems(rest, rclass, ttl) == [item];
    assert [item][1..] == [];
    var next := AddItem(o, item);
    assert AddItems(next, []) == next;
  }

  lemma TextEnd(goal: Option<Out>, start: Out, headed: Out, o: Out, recordData: Option<nat>, rclass: u16, ttl: u32)
    requires TextProgress(goal, start, headed, o, recordData, [], rclass, ttl)
    ensures goal == match recordData case None => Some(o) case Some(at) => Some(PatchLength(o, at))
  {
  }

  /** How many items a section comes to: its text records count as one. */
  function SectionCount(records: seq<Record>): (n: nat)
    ensures forall rclass, ttl :: n == |PlainItems(records)| + |TextItems(records, rclass, ttl)|
  {
    |PlainItems(records)| + if TxtRecords(records) == [] then 0 else 1
  }

  lemma {:induction false} PlainItemsSnoc(records: seq<Record>, r: Record)
    ensures PlainItems(records + [r]) == PlainItems(records) + if r.data.Txt? then [] else [Plain(r)]
  {
    if records == [] {
      assert [r][1..] == [] && PlainItems([]) == [];
      assert [] + [r] == [r];
    } else {
      var first := if records[0].data.Txt? then [] else [Plain(records[0])];
      var last := if r.data.Txt? then [] else [Plain(r)];
      PlainItemsSnoc(records[1..], r);
      assert (records + [r])[1..] == records[1..] + [r] && (records + [r])[0] == records[0];
      assert PlainItems(records + [r]) == first + PlainItems(records[1..] + [r]);
      assert first + (PlainItems(records[1..]) + last) == (first + PlainItems(records[1..])) + last;
    }
  }

  lemma {:induction false} TxtRecordsSnoc(records: seq<Record>, r: Record)
    ensures TxtRecords(records + [r]) == TxtRecords(records) + if r.data.Txt? then [r] else []
  {
    if records == [] {
      assert [r][1..] == [] && TxtRecords([]) == [];
      assert [] + [r] == [r];
    } else {
      var first := if records[0].data.Txt? then [records[0]] else [];
      var last := if r.data.Txt? then [r] else [];
      TxtRecordsSnoc(records[1..], r);
      assert (records + [r])[1..] == records[1..] + [r] && (records + [r])[0] == records[0];
      assert TxtRecords(records + [r]) == first + TxtRecords(records[1..] + [r]);
      assert first + (TxtRecords(records[1..]) + last) == (first + TxtRecords(records[1..])) + last;
    }
  }

  lemma CountUp(n: nat)
    ensures (n % 0x1_0000 + 1) % 0x1_0000 == (n + 1) % 0x1_0000
  {
  }

  /** The number of records a section will hold, in 16 bits. */
  method AnswerGetRecordCount(records: seq<Record>) returns (count: u16)
    ensures count == SectionCount(records) % 0x1_0000
  {
    hide UpdateRclassTtl, PlainItems, TxtRecords;
    var total: u16, txt: u16 := 0, 0;
    var i := 0;
    NoRecords(records[..0]);
    while i < |records|
      invariant 0 <= i <= |records|
      invariant total == |PlainItems(records[..i])| % 0x1_0000
      invariant txt == if TxtRecords(records[..i]) == [] then 0 else 1
    {
      assert records[..i + 1] == records[..i] + [records[i]];
      PlainItemsSnoc(records[..i], records[i]);
      TxtRecordsSnoc(records[..i], records[i]);
      CountUp(|PlainItems(records[..i])|);
      if records[i].data.Txt? {
        txt := 1;
      } else {
        total := (total + 1) % 0x1_0000;
      }
      i := i + 1;
    }
    assert records[..i] == records;
    CountUp(|PlainItems(records)|);
    return (total + txt) % 0x1_0000;
  }

  lemma NoRecords(records: seq<Record>)
    requires records == []
    ensures PlainItems(records) == [] && TxtRecords(records) == []
  {
  }
}
