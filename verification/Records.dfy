/** Resource records and how they are written: owner name, fixed header, data, and a
    length filled in afterwards; text records are gathered into one. */
module Records {
  import opened Bytes
  import opened NameWriter

  const TYPE_A: u16 := 1
  const TYPE_PTR: u16 := 12
  const TYPE_TXT: u16 := 16
  const TYPE_AAAA: u16 := 28
  const TYPE_SRV: u16 := 33
  const TYPE_ANY: u16 := 255

  const CLASS_IN: u16 := 1
  const CLASS_ANY: u16 := 255
  /** The cache-flush bit of a record's class, and the unicast-response bit of a question's. */
  const TOP_BIT: u16 := 0x8000

  type Ipv4 = s: seq<byte> | |s| == 4 witness [0, 0, 0, 0]
  type Ipv6 = s: seq<byte> | |s| == 16 witness seq(16, _ => 0)
  type OtherType = t: u16 | t !in {TYPE_A, TYPE_PTR, TYPE_TXT, TYPE_AAAA, TYPE_SRV} witness 0

  /** What the record's union holds, together with the type that selects it. */
  datatype RecordData =
    | Ptr(name: NameText)
    | Srv(priority: u16, weight: u16, port: u16, target: NameText)
    | A(addr: Ipv4)
    | Aaaa(addr6: Ipv6)
    | Txt(key: seq<byte>, value: seq<byte>)
    | Other(rtype: OtherType)

  datatype Record = Record(name: NameText, data: RecordData, rclass: u16, ttl: u32)

  function TypeOf(data: RecordData): (t: u16) {
    match data
    case Ptr(_) => TYPE_PTR
    case Srv(_, _, _, _) => TYPE_SRV
    case A(_) => TYPE_A
    case Aaaa(_) => TYPE_AAAA
    case Txt(_, _) => TYPE_TXT
    case Other(t) => t
  }

  /** The record with class and TTL filled in; only the class's lowest and highest bits are
      kept, and the highest never for a pointer record. */
  function UpdateRclassTtl(record: Record, rclass: u16, ttl: u32): (r: Record) {
    var c := if record.rclass == 0 then rclass else record.rclass;
    var kept := c % 2 + (if c >= TOP_BIT && !record.data.Ptr? then TOP_BIT else 0);
    record.(rclass := kept, ttl := if record.ttl == 0 || ttl == 0 then ttl else record.ttl)
  }

  // ----- What is to be written

  /** One record of the message: a record of its own, or the text records of a section
      gathered under the first of them. */
  datatype Item = Plain(rec: Record) | Texts(rec: Record, strings: seq<RecordData>)

  function ItemType(item: Item): (t: u16) {
    if item.Texts? then TYPE_TXT else TypeOf(item.rec.data)
  }

  /** Text records are written later. */
  function PlainItems(records: seq<Record>): (items: seq<Item>)
    ensures |items| <= |records|
  {
    if records == [] then []
    else (if records[0].data.Txt? then [] else [Plain(records[0])]) + PlainItems(records[1..])
  }

  function TxtRecords(records: seq<Record>): (r: seq<Record>)
    ensures r != [] ==> r[0].data.Txt?
  {
    if records == [] then []
    else (if records[0].data.Txt? then [records[0]] else []) + TxtRecords(records[1..])
  }

  function Strings(records: seq<Record>): (r: seq<RecordData>)
  {
    if records == [] then []
    else (if records[0].data.Txt? then [records[0].data] else []) + Strings(records[1..])
  }

  /** The text records of a section as one item, if there are any. */
  function TextItems(records: seq<Record>, rclass: u16, ttl: u32): (items: seq<Item>)
    ensures |items| <= 1
  {
    var txt := TxtRecords(records);
    if txt == [] then [] else [Texts(UpdateRclassTtl(txt[0], rclass, ttl), Strings(records))]
  }

  // ----- Writing

  function HeaderBytes(rtype: u16, rclass: u16, ttl: u32, length: u16): (s: seq<byte>)
    ensures |s| == 10
  {
    Be16(rtype) + Be16(rclass) + Be32(ttl) + Be16(length)
  }

  ghost function AddHeader(o: Out, rec: Record): (r: Option<Out>)
    requires o.Valid()
    ensures r.Some? ==> r.value.Valid() && |r.value.buf| == |o.buf| && o.pos + 10 < r.value.pos
  {
    var named :- MakeName(o, Labels(rec.name));
    if |named.buf| - named.pos < 10 then None
    else Some(named.Append(HeaderBytes(TypeOf(rec.data), rec.rclass, rec.ttl, 0)))
  }

  function SrvBytes(priority: u16, weight: u16, port: u16): (s: seq<byte>)
    ensures |s| == 6
  {
    Be16(priority) + Be16(weight) + Be16(port)
  }

  ghost function AddData(o: Out, data: RecordData): (r: Option<Out>)
    requires o.Valid()
    ensures r.Some? ==> r.value.Valid() && |r.value.buf| == |o.buf| && o.pos <= r.value.pos
  {
    var remain := |o.buf| - o.pos;
    match data
    case Ptr(name) => MakeName(o, Labels(name))
    case Srv(priority, weight, port, target) =>
      if remain <= 6 then None else MakeName(o.Append(SrvBytes(priority, weight, port)), Labels(target))
    case A(addr) => if remain < 4 then None else Some(o.Append(addr))
    case Aaaa(addr) => if remain < 16 then None else Some(o.Append(addr))
    case Txt(_, _) => Some(o)
    case Other(_) => Some(o)
  }

  function TxtLength(s: RecordData): (n: nat)
    requires s.Txt?
  {
    |s.key| + |s.value| + 1
  }

  function TxtStart(s: RecordData): (b: seq<byte>)
    requires s.Txt?
    ensures |b| == |s.key| + 2
  {
    [TxtLength(s) % 0x100] + s.key + [0]
  }

  /** One text string: a length byte, the key and a NUL, and then as many bytes as the value
      has are passed over without being written. */
  ghost function AddString(o: Out, s: RecordData): (r: Option<Out>)
    requires o.Valid() && s.Txt?
    ensures r.Some? ==> r.value.Valid() && |r.value.buf| == |o.buf| && o.pos < r.value.pos
  {
    if |o.buf| - o.pos <= TxtLength(s) || TxtLength(s) > 0x3FFF then None
    else
      var o1 := o.Append(TxtStart(s));
      Some(o1.(pos := o1.pos + |s.value|))
  }

  ghost predicate AllTxt(strings: seq<RecordData>) {
    forall s :: s in strings ==> s.Txt?
  }

  ghost function AddStrings(o: Out, strings: seq<RecordData>): (r: Option<Out>)
    requires o.Valid() && AllTxt(strings)
    ensures r.Some? ==> r.value.Valid() && |r.value.buf| == |o.buf| && o.pos <= r.value.pos
    decreases |strings|
  {
    if strings == [] then Some(o)
    else
      var o1 :- AddString(o, strings[0]);
      AddStrings(o1, strings[1..])
  }

  /** Fills in the length of the data that begins at `start`, cut to 16 bits. */
  ghost function PatchLength(o: Out, start: nat): (r: Out)
    requires o.Valid() && 2 <= start <= o.pos
    ensures r.Valid() && |r.buf| == |o.buf| && r.pos == o.pos
  {
    o.(buf := Put(o.buf, start - 2, Be16((o.pos - start) % 0x1_0000)))
  }

  ghost predicate ItemValid(item: Item) {
    if item.Plain? then !item.rec.data.Txt? else item.rec.data.Txt? && AllTxt(item.strings)
  }

  ghost predicate ItemsValid(items: seq<Item>) {
    forall item :: item in items ==> ItemValid(item)
  }

  ghost function AddItem(o: Out, item: Item): (r: Option<Out>)
    requires o.Valid() && ItemValid(item)
    ensures r.Some? ==> r.value.Valid() && |r.value.buf| == |o.buf| && o.pos < r.value.pos
  {
    var headed :- AddHeader(o, item.rec);
    var filled :- if item.Plain? then AddData(headed, item.rec.data) else AddStrings(headed, item.strings);
    Some(PatchLength(filled, headed.pos))
  }

  ghost function AddItems(o: Option<Out>, items: seq<Item>): (r: Option<Out>)
    requires (o.Some? ==> o.value.Valid()) && ItemsValid(items)
    ensures r.Some? ==> o.Some? && r.value.Valid() && |r.value.buf| == |o.value.buf| && o.value.pos <= r.value.pos
    decreases |items|
  {
    if o.None? || items == [] then o
    else
      AddItems(AddItem(o.value, items[0]), items[1..])
  }

  lemma {:induction false} AddItemsConcat(o: Option<Out>, x: seq<Item>, y: seq<Item>)
    requires (o.Some? ==> o.value.Valid()) && ItemsValid(x) && ItemsValid(y)
    ensures ItemsValid(x + y) && AddItems(o, x + y) == AddItems(AddItems(o, x), y)
    decreases |x|
  {
    hide AddItem;
    if x == [] {
      assert x + y == y;
    } else if o.Some? {
      AddItemsConcat(AddItem(o.value, x[0]), x[1..], y);
      assert (x + y)[1..] == x[1..] + y;
    }
  }

  lemma {:induction false} PlainItemsValid(records: seq<Record>)
    ensures ItemsValid(PlainItems(records))
  {
    if records != [] {
      PlainItemsValid(records[1..]);
    }
  }

  lemma {:induction false} TextItemsValid(records: seq<Record>, rclass: u16, ttl: u32)
    ensures AllTxt(Strings(records)) && ItemsValid(TextItems(records, rclass, ttl))
  {
    if records != [] {
      TextItemsValid(records[1..], rclass, ttl);
      assert AllTxt(Strings(records));
    }
  }
}
