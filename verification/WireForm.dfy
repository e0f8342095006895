/** The announcement of a service, byte for byte. */
module WireForm {
  import opened Bytes
  import opened NameReader
  import opened StringTables
  import opened NameWriter
  import opened NameCodec
  import opened Records
  import opened RecordWriter
  import opened RecordCodec
  import opened Messages
  import opened RoundTrip
  import opened MessageTheorems
  import opened Goodbye
  import opened Advertise
  import opened ReplyTheorems
  import opened Replies
  import opened Discovery

  // ----- The bytes

  /** One label. */
  function L(l: Label): (s: seq<byte>)
    requires |l| < 256
  {
    [|l|] + l
  }

  /** Type, class IN, TTL and length. */
  function Fixed(rtype: byte, ttl: u16, length: byte): (s: seq<byte>) {
    [0, rtype, 0, 1, 0, 0, ttl / 0x100, ttl % 0x100, 0, length]
  }

  function AddressRecords(s: Service): (b: seq<byte>)
    requires |s.hostname| <= 63
  {
    (if s.v4.Some? then [0xC0, 67 + |s.hostname|] + Fixed(1, 120, 4) + s.v4.value else [])
    + (if s.v6.Some? then [0xC0, 67 + |s.hostname|] + Fixed(28, 120, 16) + s.v6.value else [])
  }

  /** The pointer record, its names in full but for the service's in the instance's. */
  function PointerRecord(s: Service): (b: seq<byte>)
    requires |s.hostname| <= 63
  {
    L(Ascii("_wlr-remote")) + L(Ascii("_udp")) + L(Ascii("local")) + [0]
    + Fixed(12, 4500, |s.hostname| + 3) + L(s.hostname) + [0xC0, 12]
  }

  /** The service record: the instance is at 46, `local` at 29. */
  function PlaceRecord(s: Service): (b: seq<byte>)
    requires |s.hostname| <= 63
  {
    [0xC0, 46] + Fixed(33, 120, |s.hostname| + 9)
    + [0, 0, 0, 0, s.port / 0x100, s.port % 0x100] + L(s.hostname) + [0xC0, 29]
  }

  function TextRecord(): (b: seq<byte>) {
    [0xC0, 46] + Fixed(16, 120, 2) + [1, 0]
  }

  /** An authoritative response with one answer and the records that go with it. */
  function AnnouncementOf(s: Service): (b: seq<byte>)
    requires |s.hostname| <= 63
  {
    [0, 0, 0x84, 0, 0, 0, 0, 1, 0, 0, 0, 2 + (if s.v4.Some? then 1 else 0) + if s.v6.Some? then 1 else 0]
    + PointerRecord(s) + PlaceRecord(s) + AddressRecords(s) + TextRecord()
  }

  // ----- A dictionary with room

  function D(es: seq<Entry>): (d: Dict) {
    Some(Ring(es, |es|))
  }

  /** A name that is not in the dictionary begins with its first label. */
  lemma NewName(es: seq<Entry>, pos: nat, ls: seq<Label>)
    requires |es| + 1 < TABLE_CAPACITY && ls != [] && forall en :: en in es ==> en.labels != ls
    ensures DictValid(D(es)) && DictValid(D(es + [Entry(pos, ls)]))
    ensures var rest := EmitName(D(es + [Entry(pos, ls)]), pos + |ls[0]| + 1, ls[1..]);
            EmitName(D(es), pos, ls) == (LabelBytes(ls[0]) + rest.0, rest.1)
  {
    assert AddTo(D(es), Entry(pos, ls)) == D(es + [Entry(pos, ls)]);
  }

  lemma {:induction false} FirstOf(es: seq<Entry>, i: nat)
    requires i < |es| && forall j :: 0 <= j < i ==> es[j].labels != es[i].labels
    ensures FindEntry(es, es[i].labels) == Some(es[i])
  {
    if i > 0 {
      assert es[0].labels != es[i].labels;
      assert es[1..][i - 1] == es[i];
      FirstOf(es[1..], i - 1);
    }
  }

  /** A name that is in the dictionary becomes a back-pointer. */
  lemma KnownName(es: seq<Entry>, pos: nat, i: nat)
    requires |es| < TABLE_CAPACITY && i < |es| && es[i].labels != [] && es[i].at < 0x100
    requires forall j :: 0 <= j < i ==> es[j].labels != es[i].labels
    ensures DictValid(D(es)) && EmitName(D(es), pos, es[i].labels) == ([0xC0, es[i].at], D(es))
  {
    FirstOf(es, i);
    assert RefBytes(es[i].at) == [0xC0, es[i].at];
  }

  // ----- The names of the announcement

  /** What the dictionary holds after the pointer record's name, its data, and the service record's. */
  function Known1(): (es: seq<Entry>) {
    [Entry(12, [WLR_REMOTE, UDP, LOCAL]), Entry(24, [UDP, LOCAL]), Entry(29, [LOCAL])]
  }

  function Known2(host: Label): (es: seq<Entry>) {
    Known1() + [Entry(46, [host, WLR_REMOTE, UDP, LOCAL])]
  }

  function Known3(host: Label): (es: seq<Entry>) {
    Known2(host) + [Entry(67 + |host|, [host, LOCAL])]
  }

  lemma ServiceNameEmits()
    ensures DictValid(D([]))
    ensures EmitName(D([]), 12, [WLR_REMOTE, UDP, LOCAL])
         == (LabelBytes(WLR_REMOTE) + (LabelBytes(UDP) + (LabelBytes(LOCAL) + [0])), D(Known1()))
  {
    hide EmitName, LabelBytes;
    var l3: seq<Label> := [WLR_REMOTE, UDP, LOCAL];
    var l2: seq<Label> := [UDP, LOCAL];
    var l1: seq<Label> := [LOCAL];
    assert l3[1..] == l2 && l2[1..] == l1 && l1[1..] == [];
    assert |WLR_REMOTE| == 11 && |UDP| == 4 && |LOCAL| == 5;
    NewName([], 12, l3);
    assert [] + [Entry(12, l3)] == [Entry(12, l3)];
    NewName([Entry(12, l3)], 24, l2);
    assert [Entry(12, l3)] + [Entry(24, l2)] == [Entry(12, l3), Entry(24, l2)];
    NewName([Entry(12, l3), Entry(24, l2)], 29, l1);
    assert [Entry(12, l3), Entry(24, l2)] + [Entry(29, l1)] == Known1();
    RootEmits(Known1(), 35);
  }

  lemma RootEmits(es: seq<Entry>, pos: nat)
    requires |es| < TABLE_CAPACITY
    ensures DictValid(D(es)) && EmitName(D(es), pos, []) == ([0], D(es))
  {
  }

  lemma InstanceEmits(host: Label)
    ensures DictValid(D(Known1()))
    ensures EmitName(D(Known1()), 46, [host, WLR_REMOTE, UDP, LOCAL]) == (LabelBytes(host) + [0xC0, 12], D(Known2(host)))
  {
    hide EmitName, LabelBytes;
    var ls: seq<Label> := [host, WLR_REMOTE, UDP, LOCAL];
    assert ls[1..] == Known1()[0].labels;
    NewName(Known1(), 46, ls);
    assert Known2(host)[0] == Known1()[0];
    KnownName(Known2(host), 47 + |host|, 0);
  }

  lemma KnownShape(host: Label)
    ensures var es := Known3(host);
            |es| == 5 && |Known2(host)| == 4 && es == Known2(host) + [Entry(67 + |host|, [host, LOCAL])]
            && es[0].labels == [WLR_REMOTE, UDP, LOCAL] && es[1].labels == [UDP, LOCAL] && es[2].labels == [LOCAL]
            && es[3].labels == [host, WLR_REMOTE, UDP, LOCAL] && es[4].labels == [host, LOCAL]
            && es[0].at == 12 && es[2].at == 29 && es[3].at == 46 && es[4].at == 67 + |host|
            && forall i :: 0 <= i < 4 ==> Known2(host)[i] == es[i]
  {
  }

  lemma TwoLabels(host: Label)
    requires host != UDP
    ensures var l: seq<Label> := [host, LOCAL];
            var k: seq<Label> := [UDP, LOCAL];
            l != k
  {
    var l: seq<Label> := [host, LOCAL];
    assert l[0] == host;
  }

  lemma KnownLengths(host: Label)
    ensures var es := Known3(host);
            |es| == 5 && |es[0].labels| == 3 && |es[1].labels| == 2 && |es[2].labels| == 1 && |es[3].labels| == 4
            && es[1].labels[0] == UDP && es[2].labels == [LOCAL] && es[2].at == 29
            && Known2(host) == es[..4] && es == es[..4] + [Entry(67 + |host|, [host, LOCAL])]
  {
  }

  lemma HostIsNew(host: Label, ls: seq<Label>)
    requires host != UDP && |ls| == 2 && ls[0] == host
    ensures forall en :: en in Known2(host) ==> en.labels != ls
  {
    hide UDP, LOCAL, WLR_REMOTE;
    KnownLengths(host);
    hide Known2, Known3;
    var es := Known3(host);
    assert es[1].labels[0] != ls[0];
    assert forall i :: 0 <= i < 4 ==> es[i].labels != ls;
  }

  /** A name whose first label is new and whose rest is known. */
  lemma NewThenKnown(es: seq<Entry>, es1: seq<Entry>, pos: nat, ls: seq<Label>, ref: seq<byte>)
    requires |es| + 1 < TABLE_CAPACITY && ls != [] && es1 == es + [Entry(pos, ls)]
    requires forall en :: en in es ==> en.labels != ls
    requires DictValid(D(es1)) && EmitName(D(es1), pos + |ls[0]| + 1, ls[1..]) == (ref, D(es1))
    ensures DictValid(D(es)) && EmitName(D(es), pos, ls) == (LabelBytes(ls[0]) + ref, D(es1))
  {
    hide EmitName, LabelBytes;
    NewName(es, pos, ls);
  }

  lemma HostEmits(host: Label, ls: seq<Label>)
    requires host != UDP && |ls| == 2 && ls[0] == host && ls[1] == LOCAL
    ensures DictValid(D(Known2(host)))
    ensures EmitName(D(Known2(host)), 67 + |host|, ls) == (LabelBytes(host) + [0xC0, 29], D(Known3(host)))
  {
    hide EmitName, LabelBytes, Known2, Known3, WLR_REMOTE, UDP, LOCAL, DictValid, D;
    HostIsNew(host, ls);
    KnownSizes(host, ls);
    LocalKnown(host, 68 + 2 * |host|);
    assert ls[1..] == [LOCAL];
    NewThenKnown(Known2(host), Known3(host), 67 + |host|, ls, [0xC0, 29]);
  }

  lemma KnownSizes(host: Label, ls: seq<Label>)
    requires |ls| == 2 && ls[0] == host && ls[1] == LOCAL
    ensures |Known2(host)| == 4 && Known3(host) == Known2(host) + [Entry(67 + |host|, ls)]
  {
    assert ls == [host, LOCAL];
  }

  lemma LocalKnown(host: Label, pos: nat)
    ensures DictValid(D(Known3(host))) && EmitName(D(Known3(host)), pos, [LOCAL]) == ([0xC0, 29], D(Known3(host)))
  {
    KnownLengths(host);
    hide EmitName, Known2, Known3, WLR_REMOTE, UDP, LOCAL;
    KnownName(Known3(host), pos, 2);
  }

  lemma KnownOwners(host: Label, pos: nat)
    requires 1 <= |host| <= 63 && host != UDP
    ensures DictValid(D(Known2(host))) && DictValid(D(Known3(host)))
    ensures EmitName(D(Known2(host)), pos, [host, WLR_REMOTE, UDP, LOCAL]) == ([0xC0, 46], D(Known2(host)))
    ensures EmitName(D(Known3(host)), pos, [host, WLR_REMOTE, UDP, LOCAL]) == ([0xC0, 46], D(Known3(host)))
    ensures EmitName(D(Known3(host)), pos, [host, LOCAL]) == ([0xC0, 67 + |host|], D(Known3(host)))
  {
    hide EmitName, Known2, Known3, WLR_REMOTE, UDP, LOCAL;
    KnownShape(host);
    TwoLabels(host);
    KnownName(Known2(host), pos, 3);
    KnownName(Known3(host), pos, 3);
    KnownName(Known3(host), pos, 4);
  }

  // ----- The records

  lemma FixedIs(rtype: byte, ttl: u16, n: byte)
    ensures HeaderBytes(rtype, 1, ttl, n) == Fixed(rtype, ttl, n)
  {
    assert Be32(ttl) == [0, 0, ttl / 0x100, ttl % 0x100];
  }

  /** A record in its wire form, when its name and data are known. */
  lemma WireIs(stale: seq<byte>, d: Dict, pos: nat, rec: Record, owner: seq<byte>, d1: Dict, rdata: seq<byte>, d2: Dict)
    requires DictValid(d) && DictValid(d1) && !rec.data.Txt? && rec.rclass == 1 && rec.ttl < 0x1_0000
    requires EmitName(d, pos, Labels(rec.name)) == (owner, d1) && |rdata| < 0x100
    requires EmitData(d1, pos + |owner| + 10, rec.data) == (rdata, d2)
    ensures ItemValid(Plain(rec))
    ensures EmitItem(stale, d, pos, Plain(rec)).1 == d2
    ensures TypeOf(rec.data) < 0x100 ==>
              WireBytes(EmitItem(stale, d, pos, Plain(rec)).0) == owner + Fixed(TypeOf(rec.data), rec.ttl, |rdata|) + rdata
  {
    hide EmitName, EmitData, HeaderBytes, Fixed;
    if TypeOf(rec.data) < 0x100 {
      FixedIs(TypeOf(rec.data), rec.ttl, |rdata|);
    }
  }

  lemma TextWireIs(stale: seq<byte>, d: Dict, pos: nat, rec: Record, owner: seq<byte>)
    requires DictValid(d) && rec.data == Txt([], []) && rec.rclass == 1 && rec.ttl < 0x1_0000
    requires EmitName(d, pos, Labels(rec.name)) == (owner, d)
    ensures var item := Texts(rec, [Txt([], [])]);
            ItemValid(item) && EmitItem(stale, d, pos, item).1 == d
            && WireBytes(EmitItem(stale, d, pos, item).0) == owner + Fixed(16, rec.ttl, 2) + [1, 0]
  {
    hide EmitName, HeaderBytes, Fixed;
    var strings: seq<RecordData> := [Txt([], [])];
    TextIs(stale, pos + |owner| + 10, strings);
    EmptyText(TextBytes(stale, pos + |owner| + 10, strings));
    FixedIs(16, rec.ttl, 2);
  }

  /** One record after another. */
  lemma ItemsCons(stale: seq<byte>, d: Dict, pos: nat, x: Item, rest: seq<Item>)
    requires DictValid(d) && ItemsValid([x] + rest)
    ensures ItemsValid(rest) && ItemValid(x)
    ensures var (w, d1) := EmitItem(stale, d, pos, x);
            var b := WireBytes(w);
            WiresBytes(EmitItems(stale, d, pos, [x] + rest).0) == b + WiresBytes(EmitItems(stale, d1, pos + |b|, rest).0)
  {
    hide EmitItem, WireBytes, ItemValid;
    var items := [x] + rest;
    assert items[0] == x && items[1..] == rest && x in items;
    RestValid(x, rest);
    hide ItemsValid;
    var (w, d1) := EmitItem(stale, d, pos, x);
    var ws := EmitItems(stale, d1, pos + |WireBytes(w)|, rest).0;
    assert ([w] + ws)[1..] == ws;
  }

  lemma RestValid(x: Item, rest: seq<Item>)
    requires ItemsValid([x] + rest)
    ensures ItemsValid(rest) && ItemValid(x)
  {
    hide ItemValid;
    var items := [x] + rest;
    assert forall y :: y in rest ==> y in items;
    assert x in items;
  }

  lemma ItemsNone(stale: seq<byte>, d: Dict, pos: nat)
    requires DictValid(d)
    ensures ItemsValid([]) && WiresBytes(EmitItems(stale, d, pos, []).0) == []
  {
  }

  // ----- The items

  function Plains(rs: seq<Record>): (items: seq<Item>)
    ensures |items| == |rs| && forall i :: 0 <= i < |rs| ==> items[i] == Plain(rs[i])
  {
    seq(|rs|, i requires 0 <= i < |rs| => Plain(rs[i]))
  }

  lemma {:induction false} NothingToFill(rs: seq<Record>)
    requires forall r :: r in rs ==> r.rclass == 1 && r.ttl != 0 && !r.data.Txt?
    ensures PlainItems(Updated(rs, 0x8001, 60)) == Plains(rs)
  {
    if rs != [] {
      NothingToFill(rs[1..]);
      var us := Updated(rs, 0x8001, 60);
      assert us[0] == rs[0] && us[1..] == Updated(rs[1..], 0x8001, 60) && rs[0] in rs;
      assert Plains(rs) == [Plain(rs[0])] + Plains(rs[1..]);
    }
  }

  lemma {:induction false} PlainSnoc(rs: seq<Record>, t: Record)
    requires t.data.Txt?
    ensures PlainItems(Updated(rs + [t], 0x8001, 60)) == PlainItems(Updated(rs, 0x8001, 60))
  {
    if rs == [] {
      assert rs + [t] == [t] && [t][1..] == [];
      UpdatedOne(t, 0x8001, 60);
      assert PlainItems([UpdateRclassTtl(t, 0x8001, 60)]) == PlainItems([UpdateRclassTtl(t, 0x8001, 60)][1..]);
    } else {
      PlainSnoc(rs[1..], t);
      PlainStepUpdated(rs, 0x8001, 60);
      PlainStepUpdated(rs + [t], 0x8001, 60);
      assert (rs + [t])[1..] == rs[1..] + [t];
    }
  }

  /** The records before the text record. */
  function Before(s: Service): (rs: seq<Record>) {
    [s.SrvRecord()] + s.V4Records() + s.V6Records()
  }

  lemma BeforeIs(s: Service)
    ensures forall r :: r in [s.PtrRecord()] + Before(s) ==> r.rclass == 1 && r.ttl != 0 && !r.data.Txt?
    ensures s.Additional(TYPE_PTR) == Before(s) + [s.TxtRecord()]
    ensures s.TxtRecord().data == Txt([], []) && UpdateRclassTtl(s.TxtRecord(), 0x8001, 60) == s.TxtRecord()
  {
  }

  lemma AnnouncedItems(s: Service)
    ensures MulticastItems(s.PtrRecord(), [], s.Additional(TYPE_PTR), 0x8001, 60)
         == [Plain(s.PtrRecord())] + (Plains(Before(s)) + [Texts(s.TxtRecord(), [Txt([], [])])])
  {
    hide Before, Service.PtrRecord, Service.TxtRecord, Service.Additional, UpdateRclassTtl;
    BeforeIs(s);
    var ptr, before, txt := [s.PtrRecord()], Before(s), s.TxtRecord();
    assert s.PtrRecord() in ptr + before && forall r :: r in before ==> r in ptr + before;
    NothingToFill(ptr);
    NothingToFill(before);
    PlainSnoc(before, txt);
    TextComesLast(before, txt);
    UpdatedOne(s.PtrRecord(), 0x8001, 60);
    SectionOfNone();
    assert Plains(ptr) == [Plain(s.PtrRecord())];
    var rest := Plains(before) + [Texts(txt, [Txt([], [])])];
    assert MulticastSection(s.Additional(TYPE_PTR), 0x8001, 60) == rest;
    assert [] + rest == rest;
  }

  // ----- The message

  /** A hostname of one label that is none of the service's own. */
  predicate PlainHost(s: Service) {
    GoodService(s) && DOT !in s.hostname && |s.hostname| <= 63 && s.hostname != UDP
  }

  lemma PlainNames(s: Service)
    requires PlainHost(s)
    ensures 1 <= |s.hostname| <= 63
    ensures Labels(SERVICE_NAME) == [WLR_REMOTE, UDP, LOCAL]
    ensures Labels(InstanceName(s.hostname)) == [s.hostname, WLR_REMOTE, UDP, LOCAL]
    ensures Labels(QualifiedName(s.hostname)) == [s.hostname, LOCAL]
  {
    hide Labels, HostOk, Dotted, HostLabels, GoodName, InstanceName, QualifiedName;
    GoodLength(s);
    SingleLabelHost(s.hostname);
    ServiceNames(s.hostname);
    assert [s.hostname] + SERVICE_LABELS == [s.hostname, WLR_REMOTE, UDP, LOCAL];
    assert [s.hostname] + [LOCAL] == [s.hostname, LOCAL];
  }

  lemma PtrWire(s: Service)
    requires PlainHost(s)
    ensures DictValid(D([])) && DictValid(D(Known2(s.hostname))) && ItemValid(Plain(s.PtrRecord()))
    ensures EmitItem([], D([]), 12, Plain(s.PtrRecord())).1 == D(Known2(s.hostname))
    ensures WireBytes(EmitItem([], D([]), 12, Plain(s.PtrRecord())).0)
         == (LabelBytes(WLR_REMOTE) + (LabelBytes(UDP) + (LabelBytes(LOCAL) + [0])))
            + Fixed(12, 4500, |s.hostname| + 3) + (LabelBytes(s.hostname) + [0xC0, 12])
  {
    hide EmitName, Labels, Known1, Known2, Fixed, GoodService, DictValid, D, LabelBytes;
    PlainNames(s);
    ServiceNameEmits();
    var host := s.hostname;
    InstanceEmits(host);
    hide InstanceName, SERVICE_NAME;
    WireIs([], D([]), 12, s.PtrRecord(), LabelBytes(WLR_REMOTE) + (LabelBytes(UDP) + (LabelBytes(LOCAL) + [0])), D(Known1()),
           LabelBytes(host) + [0xC0, 12], D(Known2(host)));
  }

  lemma SrvWire(s: Service)
    requires PlainHost(s)
    ensures var host := s.hostname;
            DictValid(D(Known2(host))) && DictValid(D(Known3(host))) && ItemValid(Plain(s.SrvRecord()))
            && EmitItem([], D(Known2(host)), 49 + |host|, Plain(s.SrvRecord())).1 == D(Known3(host))
            && WireBytes(EmitItem([], D(Known2(host)), 49 + |host|, Plain(s.SrvRecord())).0)
               == [0xC0, 46] + Fixed(33, 120, |host| + 9) + (SrvBytes(0, 0, s.port) + (LabelBytes(host) + [0xC0, 29]))
  {
    hide EmitName, Labels, Known1, Known2, Known3, Fixed, GoodService, DictValid, D, LabelBytes, SrvBytes;
    PlainNames(s);
    var host := s.hostname;
    KnownOwners(host, 49 + |host|);
    HostEmits(host, [host, LOCAL]);
    hide InstanceName, QualifiedName;
    WireIs([], D(Known2(host)), 49 + |host|, s.SrvRecord(), [0xC0, 46], D(Known2(host)),
           SrvBytes(0, 0, s.port) + (LabelBytes(host) + [0xC0, 29]), D(Known3(host)));
  }

  lemma TailWires(s: Service, pos: nat)
    requires PlainHost(s)
    ensures var d := D(Known3(s.hostname));
            DictValid(d)
            && (s.v4.Some? ==>
                  ItemValid(Plain(s.ARecord())) && EmitItem([], d, pos, Plain(s.ARecord())).1 == d
                  && WireBytes(EmitItem([], d, pos, Plain(s.ARecord())).0)
                     == [0xC0, 67 + |s.hostname|] + Fixed(1, 120, 4) + s.v4.value)
            && (s.v6.Some? ==>
                  ItemValid(Plain(s.AaaaRecord())) && EmitItem([], d, pos, Plain(s.AaaaRecord())).1 == d
                  && WireBytes(EmitItem([], d, pos, Plain(s.AaaaRecord())).0)
                     == [0xC0, 67 + |s.hostname|] + Fixed(28, 120, 16) + s.v6.value)
            && ItemValid(Texts(s.TxtRecord(), [Txt([], [])]))
            && EmitItem([], d, pos, Texts(s.TxtRecord(), [Txt([], [])])).1 == d
            && WireBytes(EmitItem([], d, pos, Texts(s.TxtRecord(), [Txt([], [])])).0) == [0xC0, 46] + Fixed(16, 120, 2) + [1, 0]
  {
    hide EmitName, EmitItem, Labels, Known3, Fixed, GoodService, DictValid, D, WireBytes;
    PlainNames(s);
    var host, d := s.hostname, D(Known3(s.hostname));
    KnownOwners(host, pos);
    hide InstanceName, QualifiedName;
    if s.v4.Some? {
      WireIs([], d, pos, s.ARecord(), [0xC0, 67 + |host|], d, s.v4.value, d);
    }
    if s.v6.Some? {
      WireIs([], d, pos, s.AaaaRecord(), [0xC0, 67 + |host|], d, s.v6.value, d);
    }
    TextWireIs([], d, pos, s.TxtRecord(), [0xC0, 46]);
  }

  lemma OneMore(d: Dict, pos: nat, x: Item, d1: Dict, b: seq<byte>, rest: seq<Item>, c: seq<byte>)
    requires DictValid(d) && DictValid(d1) && ItemValid(x)
    requires EmitItem([], d, pos, x).1 == d1 && WireBytes(EmitItem([], d, pos, x).0) == b
    requires ItemsValid(rest) && WiresBytes(EmitItems([], d1, pos + |b|, rest).0) == c
    ensures ItemsValid([x] + rest) && WiresBytes(EmitItems([], d, pos, [x] + rest).0) == b + c
  {
    hide EmitItem, EmitItems, WireBytes, WiresBytes, ItemValid;
    assert forall y :: y in [x] + rest ==> y == x || y in rest;
    ItemsCons([], d, pos, x, rest);
  }

  lemma TextEmits(s: Service, pos: nat)
    requires PlainHost(s)
    ensures DictValid(D(Known3(s.hostname)))
    ensures var items := [Texts(s.TxtRecord(), [Txt([], [])])];
            ItemsValid(items) && WiresBytes(EmitItems([], D(Known3(s.hostname)), pos, items).0) == TextRecord()
  {
    hide EmitItem, EmitItems, WireBytes, WiresBytes, ItemValid, PlainHost, D, Known3, Service.TxtRecord;
    TailWires(s, pos);
    var d, x := D(Known3(s.hostname)), Texts(s.TxtRecord(), [Txt([], [])]);
    ItemsNone([], d, pos + |TextRecord()|);
    OneMore(d, pos, x, d, TextRecord(), [], []);
    assert [x] + [] == [x];
  }

  lemma SixEmits(s: Service, pos: nat)
    requires PlainHost(s)
    ensures DictValid(D(Known3(s.hostname)))
    ensures var items := Plains(s.V6Records()) + [Texts(s.TxtRecord(), [Txt([], [])])];
            var b: seq<byte> := if s.v6.Some? then [0xC0, 67 + |s.hostname|] + Fixed(28, 120, 16) + s.v6.value else [];
            ItemsValid(items) && WiresBytes(EmitItems([], D(Known3(s.hostname)), pos, items).0) == b + TextRecord()
  {
    hide EmitItem, EmitItems, WireBytes, WiresBytes, ItemValid, D, Known3, Service.TxtRecord, Service.AaaaRecord, TextRecord, Fixed,
      GoodService;
    TailWires(s, pos);
    var d, text := D(Known3(s.hostname)), [Texts(s.TxtRecord(), [Txt([], [])])];
    if s.v6.Some? {
      var b := [0xC0, 67 + |s.hostname|] + Fixed(28, 120, 16) + s.v6.value;
      TextEmits(s, pos + |b|);
      OneMore(d, pos, Plain(s.AaaaRecord()), d, b, text, TextRecord());
      assert Plains(s.V6Records()) == [Plain(s.AaaaRecord())];
    } else {
      TextEmits(s, pos);
      assert Plains(s.V6Records()) + text == text;
    }
  }

  lemma TailEmits(s: Service, pos: nat)
    requires PlainHost(s)
    ensures DictValid(D(Known3(s.hostname)))
    ensures var items := Plains(s.V4Records()) + (Plains(s.V6Records()) + [Texts(s.TxtRecord(), [Txt([], [])])]);
            ItemsValid(items)
            && WiresBytes(EmitItems([], D(Known3(s.hostname)), pos, items).0) == AddressRecords(s) + TextRecord()
  {
    hide EmitItem, EmitItems, WireBytes, WiresBytes, ItemValid, D, Known3, Service.TxtRecord, Service.AaaaRecord, Service.ARecord,
      Service.V6Records, TextRecord, Fixed, GoodService;
    TailWires(s, pos);
    var d, rest := D(Known3(s.hostname)), Plains(s.V6Records()) + [Texts(s.TxtRecord(), [Txt([], [])])];
    var six: seq<byte> := if s.v6.Some? then [0xC0, 67 + |s.hostname|] + Fixed(28, 120, 16) + s.v6.value else [];
    if s.v4.Some? {
      var b := [0xC0, 67 + |s.hostname|] + Fixed(1, 120, 4) + s.v4.value;
      SixEmits(s, pos + |b|);
      OneMore(d, pos, Plain(s.ARecord()), d, b, rest, six + TextRecord());
      assert Plains(s.V4Records()) == [Plain(s.ARecord())];
      assert AddressRecords(s) + TextRecord() == b + (six + TextRecord());
    } else {
      SixEmits(s, pos);
      assert Plains(s.V4Records()) + rest == rest;
      assert AddressRecords(s) == six;
    }
  }

  lemma LabelsSpelled()
    ensures LabelBytes(WLR_REMOTE) == L(Ascii("_wlr-remote"))
    ensures LabelBytes(UDP) == L(Ascii("_udp")) && LabelBytes(LOCAL) == L(Ascii("local"))
  {
    assert WLR_REMOTE == Ascii("_wlr-remote");
    assert UDP == Ascii("_udp");
    assert LOCAL == Ascii("local");
  }

  lemma PointerIs(s: Service)
    requires |s.hostname| <= 63
    ensures PointerRecord(s)
         == (LabelBytes(WLR_REMOTE) + (LabelBytes(UDP) + (LabelBytes(LOCAL) + [0])))
            + Fixed(12, 4500, |s.hostname| + 3) + (LabelBytes(s.hostname) + [0xC0, 12])
    ensures |PointerRecord(s)| == 37 + |s.hostname|
  {
    LabelsSpelled();
    assert |WLR_REMOTE| == 11 && |UDP| == 4 && |LOCAL| == 5;
    hide WLR_REMOTE, UDP, LOCAL;
    assert LabelBytes(s.hostname) == L(s.hostname);
    hide LabelBytes, L, Fixed;
    var a, b, c, h := LabelBytes(WLR_REMOTE), LabelBytes(UDP), LabelBytes(LOCAL), LabelBytes(s.hostname);
    assert a + (b + (c + [0])) == a + b + c + [0];
  }

  lemma PlaceIs(s: Service)
    requires |s.hostname| <= 63
    ensures PlaceRecord(s)
         == [0xC0, 46] + Fixed(33, 120, |s.hostname| + 9) + (SrvBytes(0, 0, s.port) + (LabelBytes(s.hostname) + [0xC0, 29]))
  {
    assert SrvBytes(0, 0, s.port) == [0, 0, 0, 0, s.port / 0x100, s.port % 0x100];
    assert LabelBytes(s.hostname) == L(s.hostname);
    hide LabelBytes, L, Fixed, SrvBytes;
  }

  lemma ServiceRecordsEmit(s: Service)
    requires PlainHost(s)
    ensures DictValid(D([])) && |s.hostname| <= 63
    ensures var items := [Plain(s.PtrRecord())] + (Plains(Before(s)) + [Texts(s.TxtRecord(), [Txt([], [])])]);
            ItemsValid(items)
            && WiresBytes(EmitItems([], D([]), 12, items).0)
               == PointerRecord(s) + (PlaceRecord(s) + (AddressRecords(s) + TextRecord()))
  {
    hide EmitItem, EmitItems, WireBytes, WiresBytes, ItemValid, D, Known2, Known3, Service.TxtRecord, Service.SrvRecord, Service.PtrRecord,
      Service.V4Records, Service.V6Records, TextRecord, AddressRecords, LabelBytes, SrvBytes, GoodService, PlaceRecord, PointerRecord,
      Fixed, WLR_REMOTE, UDP, LOCAL, Plains;
    var host := s.hostname;
    PtrWire(s);
    SrvWire(s);
    PointerIs(s);
    PlaceIs(s);
    TailEmits(s, 49 + |host| + |PlaceRecord(s)|);
    hide PlainHost;
    var tail := Plains(s.V4Records()) + (Plains(s.V6Records()) + [Texts(s.TxtRecord(), [Txt([], [])])]);
    OneMore(D(Known2(host)), 49 + |host|, Plain(s.SrvRecord()), D(Known3(host)), PlaceRecord(s), tail, AddressRecords(s) + TextRecord());
    OneMore(D([]), 12, Plain(s.PtrRecord()), D(Known2(host)), PointerRecord(s), [Plain(s.SrvRecord())] + tail,
            PlaceRecord(s) + (AddressRecords(s) + TextRecord()));
    BeforePlain(s);
    assert [Plain(s.SrvRecord())] + tail == Plains(Before(s)) + [Texts(s.TxtRecord(), [Txt([], [])])];
  }

  lemma BeforePlain(s: Service)
    ensures Plains(Before(s)) == [Plain(s.SrvRecord())] + Plains(s.V4Records()) + Plains(s.V6Records())
  {
    hide Service.SrvRecord, Service.V4Records, Service.V6Records;
  }

  lemma HeaderBegins(n: nat)
    requires n < 0x100
    ensures MessageHeader(0, RESPONSE_FLAGS, 0, 1, 0, n) == [0, 0, 0x84, 0, 0, 0, 0, 1, 0, 0, 0, n]
  {
  }

  lemma AnnouncedCount(s: Service)
    ensures SectionCount([]) == 0
    ensures SectionCount(s.Additional(TYPE_PTR)) == 2 + (if s.v4.Some? then 1 else 0) + if s.v6.Some? then 1 else 0
  {
    hide SectionCount, MulticastSection, Service.PtrRecord, Service.TxtRecord, Service.SrvRecord, Service.ARecord, Service.AaaaRecord,
      Service.Additional, UpdateRclassTtl;
    AnnouncedItems(s);
    SectionCounts(s.Additional(TYPE_PTR), 0x8001, 60);
    SectionCounts([], 0x8001, 60);
    SectionOfNone();
    UpdatedOne(s.PtrRecord(), 0x8001, 60);
    BeforeIs(s);
    PlainPtr(s);
  }

  lemma PlainPtr(s: Service)
    ensures |PlainItems([UpdateRclassTtl(s.PtrRecord(), 0x8001, 60)])| == 1
  {
    AnswerItemsIs(UpdateRclassTtl(s.PtrRecord(), 0x8001, 60));
  }

  /** For a hostname of one label the announcement is these bytes, whatever the buffer held. */
  lemma AnnouncementExactly(s: Service, a: Option<seq<byte>>)
    requires PlainHost(s) && Announces(s, false, a)
    ensures |s.hostname| <= 63 && a == Some(AnnouncementOf(s))
  {
    hide Announces, Announcement, WiresBytes, GoodService, OnlyTtlZeroed, AnnouncementWires, PointerRecord, PlaceRecord, AddressRecords,
      TextRecord, MulticastHeader;
    var stale: seq<byte> := seq(ANNOUNCE_CAPACITY, _ => 0);
    AnnouncesSome(s, stale);
    AnnouncementAndGoodbye(s, a, MessageBytes(Announcement(s, true, stale)));
    AnnouncedBytes(s);
    AnnouncedHeader(s);
    hide PlainHost;
    var p, v, x, t := PointerRecord(s), PlaceRecord(s), AddressRecords(s), TextRecord();
    var h := MulticastHeader([], s.Additional(TYPE_PTR));
    assert h + (p + (v + (x + t))) == h + p + v + x + t;
  }

  lemma AnnouncedHeader(s: Service)
    ensures MulticastHeader([], s.Additional(TYPE_PTR))
         == [0, 0, 0x84, 0, 0, 0, 0, 1, 0, 0, 0, 2 + (if s.v4.Some? then 1 else 0) + if s.v6.Some? then 1 else 0]
  {
    hide MessageHeader, SectionCount, Service.Additional;
    AnnouncedCount(s);
    HeaderBegins(SectionCount(s.Additional(TYPE_PTR)));
  }

  lemma AnnouncedBytes(s: Service)
    requires PlainHost(s)
    ensures |s.hostname| <= 63
    ensures WiresBytes(AnnouncementWires(s)) == PointerRecord(s) + (PlaceRecord(s) + (AddressRecords(s) + TextRecord()))
  {
    hide WiresBytes, EmitItems, PlainHost, MulticastItems, ItemsValid, AnnouncementWires, Service.Additional, Service.PtrRecord,
      Service.TxtRecord, Before, D, PointerRecord, PlaceRecord, AddressRecords, TextRecord;
    ServiceRecordsEmit(s);
    AnnouncedItems(s);
    WiresAre(s);
  }

  lemma WiresAre(s: Service)
    ensures DictValid(D([])) && ItemsValid(MulticastItems(s.PtrRecord(), [], s.Additional(TYPE_PTR), 0x8001, 60))
    ensures AnnouncementWires(s)
         == EmitItems([], D([]), 12, MulticastItems(s.PtrRecord(), [], s.Additional(TYPE_PTR), 0x8001, 60)).0
  {
    hide EmitItems, MulticastItems, ItemsValid, Service.Additional, Service.PtrRecord;
    MulticastItemsValid(s.PtrRecord(), [], s.Additional(TYPE_PTR), 0x8001, 60);
    assert FRESH == D([]);
  }

  lemma AnnouncesSome(s: Service, stale: seq<byte>)
    requires |stale| == ANNOUNCE_CAPACITY
    ensures Announces(s, true, MessageBytes(Announcement(s, true, stale)))
  {
  }
}
