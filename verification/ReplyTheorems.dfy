/** What the responder promises: its names are good, its messages fit, and a client that
    asks is told. */
module ReplyTheorems {
  import opened Bytes
  import opened NameReader
  import opened StringTables
  import opened NameWriter
  import opened NameCodec
  import opened NameTheorems
  import opened Records
  import opened Messages
  import opened Parser
  import opened RoundTrip
  import opened MessageTheorems
  import opened StaleBytes
  import opened Goodbye
  import opened Advertise

  // ----- Names

  const HOST_NAME_MAX: nat := 64

  /** The hostname's labels. */
  function HostLabels(hostname: seq<byte>): (ls: seq<Label>) {
    SplitFrom(hostname, 0)
  }

  predicate HostLabelsShaped(ls: seq<Label>) {
    forall l :: l in ls ==> 1 <= |l| <= 63
  }

  /** At most 64 bytes, as the system allows, no NUL, labels of 1 to 63 bytes. */
  predicate HostShaped(hostname: seq<byte>) {
    0 < |hostname| <= HOST_NAME_MAX && 0 !in hostname && hostname[|hostname| - 1] != DOT
    && HostLabelsShaped(HostLabels(hostname))
  }

  /** None of the labels is `local`, and no run of them is repeated on the spot, not even
      together with the two that follow them in the instance name. */
  predicate HostLabelsOk(ls: seq<Label>) {
    HostLabelsShaped(ls) && LOCAL !in ls && NoRun(ls + [WLR_REMOTE, UDP])
  }

  /** A hostname whose names the codec can write and read back. The system may well give out
      others, as `pc.local`. */
  predicate HostOk(hostname: seq<byte>) {
    HostShaped(hostname) && HostLabelsOk(HostLabels(hostname))
  }

  /** A hostname without dots is proper unless it is one of two labels of the service. */
  lemma SingleLabelHost(hostname: seq<byte>)
    requires 1 <= |hostname| <= 63 && 0 !in hostname && DOT !in hostname
    ensures HostLabels(hostname) == [hostname]
    ensures HostOk(hostname) <==> hostname != LOCAL && hostname != WLR_REMOTE
  {
    hide SplitFrom, NoRun;
    assert hostname[|hostname| - 1] in hostname;
    LabelEndIs(hostname, 0, |hostname|);
    SplitStep(hostname, 0);
    assert hostname[0..|hostname|] == hostname;
    assert HostLabels(hostname) == [HostLabels(hostname)[0]] + HostLabels(hostname)[1..];
    OneBeforeTwo(hostname);
  }

  lemma OneBeforeTwo(l: Label)
    ensures NoRun([l] + [WLR_REMOTE, UDP]) <==> l != WLR_REMOTE
  {
    var ls: seq<Label> := [l] + [WLR_REMOTE, UDP];
    if l == WLR_REMOTE {
      assert Twice(ls, 0, 1);
    } else {
      assert ls[0] != ls[1] && ls[1] != ls[2];
    }
  }

  lemma {:induction false} DottedConcat(x: seq<Label>, y: seq<Label>)
    ensures Dotted(x + y) == Dotted(x) + Dotted(y)
  {
    if x == [] {
      assert x + y == y;
    } else {
      var first := x[0] + [DOT];
      DottedConcat(x[1..], y);
      assert (x + y)[1..] == x[1..] + y && (x + y)[0] == x[0];
      assert Dotted(x + y) == first + Dotted(x[1..] + y);
      assert first + (Dotted(x[1..]) + Dotted(y)) == (first + Dotted(x[1..])) + Dotted(y);
    }
  }

  lemma {:induction false} SplitHasNoDots(str: seq<byte>, at: nat)
    ensures forall l :: l in SplitFrom(str, at) ==> DOT !in l
    decreases |str| - at
  {
    hide StringFind;
    if at < |str| {
      SplitStep(str, at);
      SplitHasNoDots(str, LabelEnd(str, at) + 1);
    }
  }

  lemma {:induction false} DottedLength(ls: seq<Label>)
    requires forall l :: l in ls ==> l != []
    ensures |Dotted(ls)| >= 2 * |ls|
  {
    if ls != [] {
      assert ls[0] in ls && forall l :: l in ls[1..] ==> l in ls;
      DottedLength(ls[1..]);
    }
  }

  const SERVICE_LABELS: seq<Label> := [WLR_REMOTE, UDP, LOCAL]

  lemma DottedOne(a: Label)
    ensures Dotted([a]) == a + [DOT]
  {
    assert [a][1..] == [] && Dotted([]) == [];
  }

  lemma ThreeLabels(a: Label, b: Label, c: Label)
    ensures Dotted([a, b, c]) == a + [DOT] + b + [DOT] + c + [DOT]
  {
    DottedOne(a);
    DottedOne(b);
    DottedOne(c);
    DottedConcat([a], [b, c]);
    DottedConcat([b], [c]);
    assert [a, b, c] == [a] + [b, c] && [b, c] == [b] + [c];
  }

  lemma FourLabels(a: Label, b: Label, c: Label, d: Label)
    ensures Dotted([a, b, c, d]) == a + [DOT] + b + [DOT] + c + [DOT] + d + [DOT]
  {
    hide Dotted;
    ThreeLabels(a, b, c);
    DottedOne(d);
    DottedConcat([a, b, c], [d]);
    assert [a, b, c, d] == [a, b, c] + [d];
    assert (a + [DOT] + b + [DOT] + c + [DOT]) + (d + [DOT]) == a + [DOT] + b + [DOT] + c + [DOT] + d + [DOT];
  }

  lemma ServiceNameIs()
    ensures Labels(SERVICE_NAME) == SERVICE_LABELS && Dotted(SERVICE_LABELS) == SERVICE_NAME
    ensures GoodName(SERVICE_LABELS, LOCAL)
  {
    hide Labels;
    ThreeLabels(WLR_REMOTE, UDP, LOCAL);
    LabelsOfDotted(SERVICE_LABELS);
    DistinctHasNoRun(SERVICE_LABELS);
  }

  lemma DnsSdNameIs()
    ensures Labels(DNS_SD_SERVICE_INSTANCE) == SERVICES && Dotted(SERVICES) == DNS_SD_SERVICE_INSTANCE
    ensures GoodName(SERVICES, LOCAL)
  {
    hide Labels;
    FourLabels(SERVICES[0], SERVICES[1], SERVICES[2], SERVICES[3]);
    assert SERVICES == [SERVICES[0], SERVICES[1], SERVICES[2], SERVICES[3]];
    LabelsOfDotted(SERVICES);
    DistinctHasNoRun(SERVICES);
  }

  /** A hostname of at most 64 bytes has at most 32 labels, none with a dot. */
  lemma HostShape(hostname: seq<byte>)
    requires HostShaped(hostname)
    ensures |HostLabels(hostname)| <= 32 && Dotted(HostLabels(hostname)) == hostname + [DOT]
    ensures forall l :: l in HostLabels(hostname) ==> l != [] && DOT !in l
  {
    hide Dotted, SplitFrom;
    DottedSplit(hostname, 0);
    SplitHasNoDots(hostname, 0);
    DottedLength(HostLabels(hostname));
  }

  lemma TwiceInPrefix(ls: seq<Label>, x: seq<Label>, i: nat, j: nat)
    requires ls <= x && i < j && 2 * j - i <= |ls|
    ensures Twice(ls, i, j) <==> Twice(x, i, j)
  {
    assert forall k :: 0 <= k < |ls| ==> ls[k] == x[k];
  }

  /** A label that is new repeats no run. */
  lemma NewLabel(ls: seq<Label>, l: Label)
    requires NoRun(ls) && l !in ls
    ensures NoRun(ls + [l]) && LastOnce(ls + [l])
  {
    var x := ls + [l];
    forall i, j | 0 <= i < j < |x| ensures !Twice(x, i, j) {
      if 2 * j - i <= |ls| {
        TwiceInPrefix(ls, x, i, j);
      } else if 2 * j - i == |x| {
        assert x[j - 1] in ls && x[j - 1 + j - i] == l;
      }
    }
  }

  lemma NoRunPrefix(ls: seq<Label>, more: seq<Label>)
    requires NoRun(ls + more)
    ensures NoRun(ls)
  {
    forall i, j | 0 <= i < j < |ls| ensures !Twice(ls, i, j) {
      if 2 * j - i <= |ls| {
        TwiceInPrefix(ls, ls + more, i, j);
      }
    }
  }

  /** What follows a hostname's labels in a name of the service. */
  predicate Suffix(more: seq<Label>) {
    more == [LOCAL] || more == SERVICE_LABELS
  }

  lemma Joined(hl: seq<Label>, more: seq<Label>)
    requires HostLabelsOk(hl) && |hl| <= 32 && Suffix(more)
    ensures NoRun(hl + more) && LastOnce(hl + more)
  {
    hide NoRun, LastOnce;
    if more == [LOCAL] {
      NoRunPrefix(hl, [WLR_REMOTE, UDP]);
      NewLabel(hl, LOCAL);
    } else {
      var x := hl + [WLR_REMOTE, UDP];
      assert LOCAL !in [WLR_REMOTE, UDP];
      NewLabel(x, LOCAL);
      assert x + [LOCAL] == hl + more;
    }
  }

  /** A name of the service that begins with the hostname is the text of the hostname's labels
      and its own. */
  lemma HostName(hostname: seq<byte>, more: seq<Label>)
    requires HostShaped(hostname) && Suffix(more)
    ensures var ls := HostLabels(hostname) + more;
            LabelShape(ls) && ls[|ls| - 1] == LOCAL
            && Dotted(ls) == hostname + [DOT] + Dotted(more) && Labels(Dotted(ls)) == ls
  {
    hide Dotted, SplitFrom, Labels, HostLabels;
    var hl := HostLabels(hostname);
    HostShape(hostname);
    DottedConcat(hl, more);
    var ls := hl + more;
    forall l | l in ls ensures 1 <= |l| <= 63 && DOT !in l {
      assert l in hl || l in more;
    }
    LabelsOfDotted(ls);
  }

  /** The labels of the service's names, for any hostname of the right shape. */
  lemma HostNames(hostname: seq<byte>)
    requires HostShaped(hostname)
    ensures Labels(InstanceName(hostname)) == HostLabels(hostname) + SERVICE_LABELS
    ensures Labels(QualifiedName(hostname)) == HostLabels(hostname) + [LOCAL]
    ensures Dotted(Labels(InstanceName(hostname))) == InstanceName(hostname)
    ensures Dotted(Labels(QualifiedName(hostname))) == QualifiedName(hostname)
    ensures LabelShape(HostLabels(hostname) + SERVICE_LABELS) && LabelShape(HostLabels(hostname) + [LOCAL])
  {
    hide Labels, Dotted, LabelShape, HostShaped, HostLabels;
    ServiceNameIs();
    DottedOne(LOCAL);
    HostName(hostname, SERVICE_LABELS);
    HostName(hostname, [LOCAL]);
    assert hostname + [DOT] + Dotted([LOCAL]) == QualifiedName(hostname);
  }

  /** Every name of the service is good, with `local` as its last label, and is the text of its labels. */
  lemma ServiceNames(hostname: seq<byte>)
    requires HostOk(hostname)
    ensures GoodName(Labels(SERVICE_NAME), LOCAL) && GoodName(Labels(DNS_SD_SERVICE_INSTANCE), LOCAL)
    ensures GoodName(Labels(InstanceName(hostname)), LOCAL) && Dotted(Labels(InstanceName(hostname))) == InstanceName(hostname)
    ensures GoodName(Labels(QualifiedName(hostname)), LOCAL) && Dotted(Labels(QualifiedName(hostname))) == QualifiedName(hostname)
    ensures Dotted(Labels(SERVICE_NAME)) == SERVICE_NAME
    ensures Dotted(Labels(DNS_SD_SERVICE_INSTANCE)) == DNS_SD_SERVICE_INSTANCE
    ensures Labels(SERVICE_NAME) == SERVICE_LABELS && Labels(InstanceName(hostname)) == HostLabels(hostname) + SERVICE_LABELS
    ensures Labels(QualifiedName(hostname)) == HostLabels(hostname) + [LOCAL]
  {
    hide Labels, Dotted, NoRun, LastOnce, LabelShape, HostShaped, HostLabelsOk, HostLabels;
    ServiceNameIs();
    DnsSdNameIs();
    HostNames(hostname);
    HostShape(hostname);
    Joined(HostLabels(hostname), SERVICE_LABELS);
    Joined(HostLabels(hostname), [LOCAL]);
  }

  // ----- How much room records take

  /** At most what a record takes with no back-pointers. */
  function DataBound(data: RecordData): (n: nat) {
    match data
    case Ptr(name) => PlainSize(Labels(name))
    case Srv(_, _, _, target) => 6 + PlainSize(Labels(target))
    case A(_) => 4
    case Aaaa(_) => 16
    case Txt(_, _) => TxtLength(data) + 1
    case Other(_) => 0
  }

  function RecordBound(r: Record): (n: nat) {
    PlainSize(Labels(r.name)) + 10 + DataBound(r.data)
  }

  function Bound(rs: seq<Record>): (n: nat) {
    if rs == [] then 0 else RecordBound(rs[0]) + Bound(rs[1..])
  }

  ghost function StringsBound(strings: seq<RecordData>): (n: nat)
    requires AllTxt(strings)
  {
    if strings == [] then 0 else TxtLength(strings[0]) + 1 + StringsBound(strings[1..])
  }

  ghost function ItemBound(item: Item): (n: nat)
    requires ItemValid(item)
  {
    PlainSize(Labels(item.rec.name)) + 10 + if item.Plain? then DataBound(item.rec.data) else StringsBound(item.strings)
  }

  ghost function ItemsBound(items: seq<Item>): (n: nat)
    requires ItemsValid(items)
  {
    if items == [] then 0 else ItemBound(items[0]) + ItemsBound(items[1..])
  }

  /** Text strings the writer does not refuse for their length. */
  ghost predicate Short(items: seq<Item>) {
    forall item, t :: item in items && item.Texts? && t in item.strings && t.Txt? ==> TxtLength(t) <= 0x3FFF
  }

  lemma DataFits(o: Out, data: RecordData)
    requires o.Valid() && o.pos + DataBound(data) <= |o.buf|
    ensures AddData(o, data).Some? && AddData(o, data).value.pos <= o.pos + DataBound(data)
  {
    hide MakeName, PlainSize, Labels;
    match data
    case Ptr(name) => MakeNameFits(o, Labels(name));
    case Srv(priority, weight, port, target) => MakeNameFits(o.Append(SrvBytes(priority, weight, port)), Labels(target));
    case _ =>
  }

  lemma {:induction false} StringsFit(o: Out, strings: seq<RecordData>)
    requires o.Valid() && AllTxt(strings) && o.pos + StringsBound(strings) <= |o.buf|
    requires forall t :: t in strings ==> TxtLength(t) <= 0x3FFF
    ensures AddStrings(o, strings).Some? && AddStrings(o, strings).value.pos == o.pos + StringsBound(strings)
    decreases |strings|
  {
    if strings != [] {
      StringsFit(AddString(o, strings[0]).value, strings[1..]);
    }
  }

  lemma ItemFits(o: Out, item: Item)
    requires o.Valid() && ItemValid(item) && o.pos + ItemBound(item) <= |o.buf| && Short([item])
    ensures AddItem(o, item).Some? && AddItem(o, item).value.pos <= o.pos + ItemBound(item)
  {
    hide MakeName, AddData, AddStrings, StringsBound, DataBound, PlainSize, Labels, TxtLength;
    MakeNameFits(o, Labels(item.rec.name));
    var headed := AddHeader(o, item.rec).value;
    if item.Plain? {
      DataFits(headed, item.rec.data);
    } else {
      assert item in [item];
      StringsFit(headed, item.strings);
    }
  }

  /** Whatever is in the buffer and in the table, records are written wherever they would have
      room with no back-pointers at all. */
  lemma {:induction false} ItemsFit(o: Out, items: seq<Item>)
    requires o.Valid() && ItemsValid(items) && o.pos + ItemsBound(items) <= |o.buf| && Short(items)
    ensures AddItems(Some(o), items).Some? && AddItems(Some(o), items).value.pos <= o.pos + ItemsBound(items)
    decreases |items|
  {
    hide AddItem, ItemBound, ItemValid;
    if items != [] {
      assert items[0] in items;
      ItemFits(o, items[0]);
      ItemsFit(AddItem(o, items[0]).value, items[1..]);
    }
  }

  lemma QuestionFits(o: Out, rtype: u16, name: NameText, qclass: u16)
    requires o.Valid() && o.pos + PlainSize(Labels(name)) + 4 <= |o.buf|
    ensures AddQuestion(o, rtype, name, qclass).Some?
         && AddQuestion(o, rtype, name, qclass).value.pos <= o.pos + PlainSize(Labels(name)) + 4
  {
    hide MakeName, PlainSize, Labels;
    MakeNameFits(o, Labels(name));
  }

  lemma {:induction false} ItemsBoundConcat(x: seq<Item>, y: seq<Item>)
    requires ItemsValid(x) && ItemsValid(y)
    ensures ItemsValid(x + y) && ItemsBound(x + y) == ItemsBound(x) + ItemsBound(y)
  {
    hide ItemBound, ItemValid;
    if x == [] {
      assert x + y == y;
    } else {
      ItemsBoundConcat(x[1..], y);
      assert (x + y)[1..] == x[1..] + y;
    }
  }

  /** What the text records of a section and its other records take, each counted on its own. */
  function PlainBound(rs: seq<Record>): (n: nat) {
    if rs == [] then 0 else (if rs[0].data.Txt? then 0 else RecordBound(rs[0])) + PlainBound(rs[1..])
  }

  function TxtBound(rs: seq<Record>): (n: nat) {
    if rs == [] then 0 else (if rs[0].data.Txt? then RecordBound(rs[0]) else 0) + TxtBound(rs[1..])
  }

  lemma {:induction false} BoundSplits(rs: seq<Record>)
    ensures Bound(rs) == PlainBound(rs) + TxtBound(rs)
  {
    hide RecordBound;
    if rs != [] {
      BoundSplits(rs[1..]);
    }
  }

  lemma {:induction false} PlainItemsBound(rs: seq<Record>)
    ensures ItemsValid(PlainItems(rs)) && ItemsBound(PlainItems(rs)) == PlainBound(rs)
  {
    hide PlainSize, DataBound, Labels;
    PlainItemsValid(rs);
    if rs != [] {
      PlainItemsBound(rs[1..]);
      if rs[0].data.Txt? {
        assert PlainItems(rs) == PlainItems(rs[1..]);
      } else {
        assert PlainItems(rs)[1..] == PlainItems(rs[1..]);
      }
    }
  }

  lemma {:induction false} StringsBounded(rs: seq<Record>)
    ensures AllTxt(Strings(rs))
    ensures TxtRecords(rs) == [] ==> Strings(rs) == []
    ensures TxtRecords(rs) != [] ==>
              PlainSize(Labels(TxtRecords(rs)[0].name)) + 10 + StringsBound(Strings(rs)) <= TxtBound(rs)
    ensures StringsBound(Strings(rs)) <= TxtBound(rs)
  {
    hide PlainSize, TxtLength, Labels;
    if rs != [] {
      StringsBounded(rs[1..]);
      if rs[0].data.Txt? {
        assert Strings(rs)[1..] == Strings(rs[1..]) && TxtRecords(rs)[0] == rs[0];
      } else {
        assert Strings(rs) == Strings(rs[1..]) && TxtRecords(rs) == TxtRecords(rs[1..]);
      }
    }
  }

  /** Gathering the text records of a section never takes more room than writing each. */
  lemma SectionBound(rs: seq<Record>, filled: seq<Record>, rclass: u16, ttl: u32)
    requires PlainBound(filled) == PlainBound(rs)
    ensures ItemsValid(PlainItems(filled) + TextItems(rs, rclass, ttl))
    ensures ItemsBound(PlainItems(filled) + TextItems(rs, rclass, ttl)) <= Bound(rs)
  {
    hide PlainItems, PlainBound, TxtBound, PlainSize, StringsBound, Labels, Strings, TxtRecords, Bound, UpdateRclassTtl;
    BoundSplits(rs);
    PlainItemsBound(filled);
    TextItemsValid(rs, rclass, ttl);
    StringsBounded(rs);
    ItemsBoundConcat(PlainItems(filled), TextItems(rs, rclass, ttl));
    TextItemsBound(rs, rclass, ttl);
  }

  lemma TextItemsBound(rs: seq<Record>, rclass: u16, ttl: u32)
    ensures ItemsValid(TextItems(rs, rclass, ttl)) && ItemsBound(TextItems(rs, rclass, ttl)) <= TxtBound(rs)
  {
    hide TxtBound, PlainSize, StringsBound, Labels, Strings, TxtRecords;
    TextItemsValid(rs, rclass, ttl);
    StringsBounded(rs);
    var items := TextItems(rs, rclass, ttl);
    if items != [] {
      assert items == [items[0]] && items[1..] == [];
      assert ItemsBound(items) == ItemBound(items[0]) + ItemsBound([]);
    }
  }

  lemma {:induction false} FilledBound(rs: seq<Record>, rclass: u16, ttl: u32)
    ensures PlainBound(Updated(rs, rclass, ttl)) == PlainBound(rs) == PlainBound(AllForUnicast(rs))
  {
    hide PlainSize, DataBound, Labels;
    if rs != [] {
      FilledBound(rs[1..], rclass, ttl);
      assert Updated(rs, rclass, ttl)[1..] == Updated(rs[1..], rclass, ttl);
      assert AllForUnicast(rs)[1..] == AllForUnicast(rs[1..]);
    }
  }

  /** The items of a message with no authority records take at most what its records do one by one. */
  lemma MessageBound(answer: Record, additional: seq<Record>, rclass: u16, ttl: u32)
    ensures ItemsValid(MulticastItems(answer, [], additional, rclass, ttl)) && ItemsValid(UnicastItems(answer, [], additional))
    ensures ItemsBound(MulticastItems(answer, [], additional, rclass, ttl)) <= RecordBound(answer) + Bound(additional)
    ensures ItemsBound(UnicastItems(answer, [], additional)) <= RecordBound(answer) + Bound(additional)
  {
    hide PlainItems, PlainBound, PlainSize, Labels, DataBound, TextItems, ItemsBound;
    MulticastItemsValid(answer, [], additional, rclass, ttl);
    UnicastItemsValid(answer, [], additional);
    OneBound(UpdateRclassTtl(answer, rclass, ttl));
    OneBound(answer.(rclass := CLASS_IN, ttl := LEGACY_TTL));
    FilledBound(additional, rclass, ttl);
    FilledBound([], rclass, ttl);
    SectionBound(additional, Updated(additional, rclass, ttl), rclass, ttl);
    SectionBound(additional, AllForUnicast(additional), CLASS_IN, LEGACY_TTL);
    SectionBound([], Updated([], rclass, ttl), rclass, ttl);
    SectionBound([], AllForUnicast([]), CLASS_IN, LEGACY_TTL);
    ItemsBoundConcat(MulticastSection([], rclass, ttl), MulticastSection(additional, rclass, ttl));
    ItemsBoundConcat(UnicastSection([]), UnicastSection(additional));
    ItemsBoundConcat(PlainItems([UpdateRclassTtl(answer, rclass, ttl)]),
                     MulticastSection([], rclass, ttl) + MulticastSection(additional, rclass, ttl));
    ItemsBoundConcat(PlainItems([answer.(rclass := CLASS_IN, ttl := LEGACY_TTL)]),
                     UnicastSection([]) + UnicastSection(additional));
  }

  lemma OneBound(r: Record)
    ensures ItemsValid(PlainItems([r])) && ItemsBound(PlainItems([r])) <= RecordBound(r)
  {
    hide RecordBound;
    PlainItemsBound([r]);
    assert [r][1..] == [] && PlainBound([]) == 0;
    assert PlainBound([r]) == (if r.data.Txt? then 0 else RecordBound(r)) + PlainBound([]);
  }

  // ----- Replies fit

  lemma NameBound(name: NameText)
    requires name[|name| - 1] == DOT
    ensures PlainSize(Labels(name)) <= |name| + 1
  {
    PlainSizeOfSplit(Stripped(name), 0);
  }

  /** The service's own records, by the length of its hostname. */
  lemma OwnRecordBounds(s: Service)
    ensures var h := |s.hostname|;
            PlainSize(Labels(SERVICE_NAME)) <= 24 && PlainSize(Labels(DNS_SD_SERVICE_INSTANCE)) <= 30
            && PlainSize(Labels(InstanceName(s.hostname))) <= h + 25 && PlainSize(Labels(QualifiedName(s.hostname))) <= h + 8
            && RecordBound(s.PtrRecord()) <= h + 59 && RecordBound(s.SrvRecord()) <= 2 * h + 49
            && RecordBound(s.ARecord()) <= h + 22 && RecordBound(s.AaaaRecord()) <= h + 34 && RecordBound(s.TxtRecord()) <= h + 37
            && RecordBound(Record(DNS_SD_SERVICE_INSTANCE, Ptr(SERVICE_NAME), 0, 0)) <= 64
  {
    hide PlainSize, Labels;
    NameBound(SERVICE_NAME);
    NameBound(DNS_SD_SERVICE_INSTANCE);
    NameBound(InstanceName(s.hostname));
    NameBound(QualifiedName(s.hostname));
  }

  lemma {:induction false} BoundConcat(x: seq<Record>, y: seq<Record>)
    ensures Bound(x + y) == Bound(x) + Bound(y)
  {
    hide RecordBound;
    if x == [] {
      assert x + y == y;
    } else {
      BoundConcat(x[1..], y);
      assert (x + y)[1..] == x[1..] + y;
    }
  }

  lemma BoundOne(r: Record)
    ensures Bound([r]) == RecordBound(r)
  {
    hide RecordBound;
    assert [r][1..] == [] && Bound([]) == 0;
  }

  lemma BoundParts(x: seq<Record>, y: seq<Record>, z: seq<Record>, t: seq<Record>)
    ensures Bound(x + y + z + t) == Bound(x) + Bound(y) + Bound(z) + Bound(t)
    ensures Bound(y + z + t) == Bound(y) + Bound(z) + Bound(t)
    ensures Bound(y + t) == Bound(y) + Bound(t) && Bound(z + t) == Bound(z) + Bound(t)
  {
    hide Bound;
    BoundConcat(x + y + z, t);
    BoundConcat(x + y, z);
    BoundConcat(x, y);
    BoundConcat(y + z, t);
    BoundConcat(y, z);
    BoundConcat(y, t);
    BoundConcat(z, t);
  }

  lemma FamilyBounds(s: Service)
    ensures Bound(s.V4Records()) <= |s.hostname| + 22 && Bound(s.V6Records()) <= |s.hostname| + 34
    ensures Bound([s.SrvRecord()]) <= 2 * |s.hostname| + 49 && Bound([s.TxtRecord()]) <= |s.hostname| + 37
  {
    hide RecordBound, Bound;
    OwnRecordBounds(s);
    BoundOne(s.SrvRecord());
    BoundOne(s.ARecord());
    BoundOne(s.AaaaRecord());
    BoundOne(s.TxtRecord());
    BoundNone();
  }

  lemma AdditionalBound(s: Service, rtype: u16)
    ensures Bound(s.Additional(rtype)) <= 5 * |s.hostname| + 142
    ensures rtype != TYPE_PTR ==> Bound(s.Additional(rtype)) <= 3 * |s.hostname| + 93
  {
    hide RecordBound, Bound;
    FamilyBounds(s);
    BoundNone();
    BoundParts([s.SrvRecord()], s.V4Records(), s.V6Records(), [s.TxtRecord()]);
  }

  lemma BoundNone()
    ensures Bound([]) == 0
  {
  }

  /** What an answer and its additional records take, and its name. */
  lemma ChoiceBound(s: Service, name: seq<byte>, rtype: u16)
    requires s.Choose(name, rtype).Some?
    ensures var (answer, additional) := s.Choose(name, rtype).value;
            PlainSize(Labels(answer.name)) + RecordBound(answer) + Bound(additional) <= 6 * |s.hostname| + 225
  {
    hide RecordBound, Bound, StringEquals, PlainSize, Labels;
    OwnRecordBounds(s);
    AdditionalBound(s, TYPE_PTR);
    AdditionalBound(s, TYPE_SRV);
    AdditionalBound(s, TYPE_A);
    AdditionalBound(s, TYPE_AAAA);
    BoundNone();
  }

  predicate GoodService(s: Service) {
    HostOk(s.hostname)
  }

  lemma GoodLength(s: Service)
    requires GoodService(s)
    ensures 0 !in s.hostname && 0 < |s.hostname| <= HOST_NAME_MAX
  {
    hide HostLabelsOk;
  }

  lemma OwnRecordsGood(s: Service)
    requires GoodService(s)
    ensures GoodRecord(s.PtrRecord(), LOCAL) && GoodRecord(s.SrvRecord(), LOCAL) && GoodRecord(s.ARecord(), LOCAL)
    ensures GoodRecord(s.AaaaRecord(), LOCAL) && GoodRecord(s.TxtRecord(), LOCAL)
    ensures GoodRecord(Record(DNS_SD_SERVICE_INSTANCE, Ptr(SERVICE_NAME), 0, 0), LOCAL)
    ensures forall rtype :: GoodRecords(s.Additional(rtype), LOCAL)
  {
    hide GoodName, Labels, HostOk;
    ServiceNames(s.hostname);
  }

  lemma ChoiceGood(s: Service, name: seq<byte>, rtype: u16)
    requires GoodService(s) && s.Choose(name, rtype).Some?
    ensures var (answer, additional) := s.Choose(name, rtype).value;
            GoodRecord(answer, LOCAL) && GoodName(Labels(answer.name), LOCAL) && GoodRecords(additional, LOCAL)
            && !answer.data.Txt? && answer.name == name
  {
    hide GoodName, Labels, HostOk, StringEquals, GoodRecords, GoodRecord, Service.Additional;
    OwnRecordsGood(s);
    NoneGood();
    GoodLength(s);
    ChoiceNamed(s, name, rtype);
    GoodNamed(s.Choose(name, rtype).value.0);
  }

  lemma GoodNamed(r: Record)
    ensures GoodRecord(r, LOCAL) ==> GoodName(Labels(r.name), LOCAL)
  {
  }

  /** The answer to a question has the name asked for. */
  lemma ChoiceNamed(s: Service, name: seq<byte>, rtype: u16)
    requires 0 !in s.hostname && s.Choose(name, rtype).Some?
    ensures s.Choose(name, rtype).value.0.name == name
  {
    hide StrNEqual, Service.Additional;
    NoNulInNames(s);
    StringEqualsIsEquality(name, DNS_SD_SERVICE_INSTANCE);
    StringEqualsIsEquality(name, SERVICE_NAME);
    StringEqualsIsEquality(name, InstanceName(s.hostname));
    StringEqualsIsEquality(name, QualifiedName(s.hostname));
  }

  lemma NoNulInNames(s: Service)
    requires 0 !in s.hostname
    ensures 0 !in DNS_SD_SERVICE_INSTANCE && 0 !in SERVICE_NAME
    ensures 0 !in InstanceName(s.hostname) && 0 !in QualifiedName(s.hostname)
  {
  }

  /** The service's text strings are short. */
  lemma ChoiceIsShort(s: Service, rtype: u16, answer: Record, rclass: u16, ttl: u32)
    ensures Short(MulticastItems(answer, [], s.Additional(rtype), rclass, ttl))
    ensures Short(UnicastItems(answer, [], s.Additional(rtype)))
    ensures Short(MulticastItems(answer, [], [], rclass, ttl)) && Short(UnicastItems(answer, [], []))
  {
    hide PlainItems, TextItems;
    ShortSection(s.Additional(rtype), Updated(s.Additional(rtype), rclass, ttl), rclass, ttl);
    ShortSection(s.Additional(rtype), AllForUnicast(s.Additional(rtype)), CLASS_IN, LEGACY_TTL);
    ShortSection([], Updated([], rclass, ttl), rclass, ttl);
    ShortSection([], AllForUnicast([]), CLASS_IN, LEGACY_TTL);
    PlainAreNotTexts([UpdateRclassTtl(answer, rclass, ttl)]);
    PlainAreNotTexts([answer.(rclass := CLASS_IN, ttl := LEGACY_TTL)]);
  }

  lemma ShortSection(records: seq<Record>, filled: seq<Record>, rclass: u16, ttl: u32)
    requires forall r :: r in records && r.data.Txt? ==> TxtLength(r.data) <= 0x3FFF
    ensures Short(PlainItems(filled) + TextItems(records, rclass, ttl))
  {
    PlainAreNotTexts(filled);
    StringsOf(records);
  }

  /** Every reply fits: for a hostname of h bytes, whatever they are, it takes at most 6h + 241
      bytes, and is built in every buffer that has these, whatever that holds. */
  lemma RepliesFit(s: Service, name: seq<byte>, id: u16, rtype: u16, stale: seq<byte>)
    requires s.Choose(name, rtype).Some? && 6 * |s.hostname| + 241 <= |stale|
    ensures var (answer, additional) := s.Choose(name, rtype).value;
            var u := UnicastMessage(stale, id, rtype, answer.name, answer, [], additional);
            var m := MulticastMessage(stale, answer, [], additional, CLASS_IN, 60);
            u.Some? && u.value.pos <= 6 * |s.hostname| + 241 && m.Some? && m.value.pos <= 6 * |s.hostname| + 241
  {
    hide Service.Choose, RecordBound, Bound, PlainSize, Labels, ItemsBound, MulticastItems, UnicastItems, ItemsValid, Short, AddItems, AddQuestion;
    var (answer, additional) := s.Choose(name, rtype).value;
    ChoiceBound(s, name, rtype);
    ChoiceAdditional(s, name, rtype);
    ChoiceIsShort(s, TypeOf(answer.data), answer, CLASS_IN, 60);
    MessageBound(answer, additional, CLASS_IN, 60);
    var o := Begin(stale, UnicastHeader(id, [], additional), Some(RingOf([])));
    QuestionFits(o, rtype, answer.name, CLASS_IN + TOP_BIT);
    ItemsFit(AddQuestion(o, rtype, answer.name, CLASS_IN + TOP_BIT).value, UnicastItems(answer, [], additional));
    ItemsFit(Begin(stale, MulticastHeader([], additional), Some(RingOf([]))), MulticastItems(answer, [], additional, CLASS_IN, 60));
  }

  lemma ChoiceAdditional(s: Service, name: seq<byte>, rtype: u16)
    requires s.Choose(name, rtype).Some?
    ensures var (answer, additional) := s.Choose(name, rtype).value;
            additional == [] || additional == s.Additional(TypeOf(answer.data))
  {
    hide StringEquals, Service.Additional;
  }

  lemma NoneGood()
    ensures GoodRecords([], LOCAL)
  {
  }

  lemma AnnouncementFits(s: Service, goodbye: bool, stale: seq<byte>)
    requires 6 * |s.hostname| + 241 <= |stale|
    ensures Announcement(s, goodbye, stale).Some? && Announcement(s, goodbye, stale).value.pos <= 6 * |s.hostname| + 241
  {
    hide RecordBound, Bound, PlainSize, Labels, ItemsBound, MulticastItems, ItemsValid, Short, AddItems, Service.Additional;
    var c, t := if goodbye then CLASS_IN else ANNOUNCE_CLASS, if goodbye then 0 else ANNOUNCE_TTL;
    OwnRecordBounds(s);
    AdditionalBound(s, TYPE_PTR);
    ChoiceIsShort(s, TYPE_PTR, s.PtrRecord(), c, t);
    MessageBound(s.PtrRecord(), s.Additional(TYPE_PTR), c, t);
    ItemsFit(Begin(stale, MulticastHeader([], s.Additional(TYPE_PTR)), Some(RingOf([]))),
             MulticastItems(s.PtrRecord(), [], s.Additional(TYPE_PTR), c, t));
  }

  /** So with a hostname as long as the system allows nothing the responder builds fails for lack
      of room, neither in the reply buffer nor in the one for announcements. */
  lemma BuffersSuffice(s: Service, packet: seq<byte>, d: Delivery, goodbye: bool, reply: seq<byte>, stale: seq<byte>)
    requires |s.hostname| <= 64 && |reply| == 1024 && |stale| == 2048
    ensures ReplyDue(s, packet, d) ==> ReplyMessage(s, packet, d, reply).Some?
    ensures Announcement(s, goodbye, stale).Some?
  {
    hide Service.Choose, UnicastMessage, MulticastMessage, Announcement, TextAt;
    if ReplyDue(s, packet, d) {
      RepliesFit(s, TextAt(packet, d.nameOffset, NAME_CAPACITY), d.id, d.rtype, reply);
    }
    AnnouncementFits(s, goodbye, stale);
  }
}
