/** Which hostnames the service can be found under. */
module Hostnames {
  import opened Bytes
  import opened NameReader
  import opened StringTables
  import opened NameWriter
  import opened NameCodec
  import opened NameTheorems
  import opened Records
  import opened Messages
  import opened Stability
  import opened FreshNames
  import opened Advertise
  import opened ReplyTheorems

  // ----- Exactly the hostnames of the theorems about the responder

  lemma HostLabelsExactly(hl: seq<Label>)
    requires HostLabelsShaped(hl) && |hl| <= 32
    ensures HostLabelsOk(hl)
       <==> NoRun(hl + SERVICE_LABELS) && LastOnce(hl + SERVICE_LABELS) && NoRun(hl + [LOCAL]) && LastOnce(hl + [LOCAL])
  {
    hide NoRun;
    if HostLabelsOk(hl) {
      Joined(hl, SERVICE_LABELS);
      Joined(hl, [LOCAL]);
    }
    if NoRun(hl + SERVICE_LABELS) && LastOnce(hl + [LOCAL]) {
      assert hl + SERVICE_LABELS == hl + [WLR_REMOTE, UDP] + [LOCAL];
      NoRunPrefix(hl + [WLR_REMOTE, UDP], [LOCAL]);
      assert forall k :: 0 <= k < |hl| ==> (hl + [LOCAL])[k] == hl[k];
    }
  }

  /** For hostnames of at most fourteen labels of the right shape, the hypothesis of the theorems
      about the responder is exactly that the instance's and the host's name, written first in a
      reply, are read back whatever the reused buffer holds. */
  lemma HostOkExactly(hostname: seq<byte>)
    requires HostShaped(hostname) && |HostLabels(hostname)| <= 14
    ensures HostOk(hostname)
       <==> (forall buf: seq<byte> :: |buf| == SEND_CAPACITY ==>
               ReadsBack(buf, HEADER_SIZE, Labels(InstanceName(hostname)))
               && ReadsBack(buf, HEADER_SIZE, Labels(QualifiedName(hostname))))
  {
    hide ReadsBack, Labels, NoRun, LastOnce, Unmistakable, HostLabelsShaped, HostLabels, PlainSize, LabelShape;
    var instance, qualified := Labels(InstanceName(hostname)), Labels(QualifiedName(hostname));
    HostNames(hostname);
    HostShape(hostname);
    NameBound(InstanceName(hostname));
    NameBound(QualifiedName(hostname));
    FreshNameReadsExactly(SEND_CAPACITY, HEADER_SIZE, instance);
    FreshNameReadsExactly(SEND_CAPACITY, HEADER_SIZE, qualified);
    HostLabelsExactly(HostLabels(hostname));
  }

  // ----- Where the code fails: `local` in a hostname

  /** The first name of a message stays what it was made. */
  lemma FirstName(o: Out, ls: seq<Label>, x: Out)
    requires o.Valid() && MakeName(o, ls).Some? && Extends(MakeName(o, ls).value, x)
    ensures var n := MakeName(o, ls).value; n.buf[..n.pos] <= x.buf[..x.pos]
  {
    var n := MakeName(o, ls).value;
    assert x.buf[..x.pos][..n.pos] == n.buf[..n.pos];
  }

  lemma QuestionIsFirst(o: Out, rtype: u16, name: NameText, qclass: u16, items: seq<Item>)
    requires o.Valid() && ItemsValid(items) && AddItems(AddQuestion(o, rtype, name, qclass), items).Some?
    ensures MakeName(o, Labels(name)).Some?
         && Extends(MakeName(o, Labels(name)).value, AddItems(AddQuestion(o, rtype, name, qclass), items).value)
  {
    hide MakeName, Labels, AddItems, Be16, Extends;
    AddItemsOfNone(items);
    var n := MakeName(o, Labels(name)).value;
    var q := AddQuestion(o, rtype, name, qclass).value;
    AppendExtends(n, Be16(rtype) + Be16(qclass));
    LaterRecordsChangeNothing(q, items);
    ExtendsStep(n, q, AddItems(Some(q), items).value);
  }

  lemma AddItemsOfNone(items: seq<Item>)
    requires ItemsValid(items)
    ensures AddItems(None, items) == None
  {
  }

  lemma AnswerIsFirst(o: Out, item: Item, items: seq<Item>)
    requires o.Valid() && ItemsValid([item] + items) && AddItems(Some(o), [item] + items).Some?
    ensures MakeName(o, Labels(item.rec.name)).Some?
         && Extends(MakeName(o, Labels(item.rec.name)).value, AddItems(Some(o), [item] + items).value)
  {
    hide MakeName, Labels, HeaderBytes, Extends, AddData, AddStrings, PatchLength, ItemValid, AddItem;
    assert item in [item] + items && ([item] + items)[1..] == items;
    assert forall y :: y in items ==> y in [item] + items;
    var x1 := AddItem(o, item);
    AddItemsOfNone(items);
    assert AddItems(Some(o), [item] + items) == AddItems(x1, items);
    NameOfItem(o, item);
    LaterRecordsChangeNothing(x1.value, items);
    ExtendsStep(MakeName(o, Labels(item.rec.name)).value, x1.value, AddItems(x1, items).value);
  }

  lemma NameOfItem(o: Out, item: Item)
    requires o.Valid() && ItemValid(item) && AddItem(o, item).Some?
    ensures MakeName(o, Labels(item.rec.name)).Some?
         && Extends(MakeName(o, Labels(item.rec.name)).value, AddItem(o, item).value)
  {
    hide MakeName, Labels, HeaderBytes, Extends, AddData, AddStrings, PatchLength;
    var n := MakeName(o, Labels(item.rec.name)).value;
    var h := AddHeader(o, item.rec).value;
    AppendExtends(n, HeaderBytes(TypeOf(item.rec.data), item.rec.rclass, item.rec.ttl, 0));
    var x := (if item.Plain? then AddData(h, item.rec.data) else AddStrings(h, item.strings)).value;
    if item.Plain? {
      DataExtends(h, item.rec.data);
    } else {
      StringsExtend(h, item.strings);
    }
    ExtendsStep(n, h, x);
    PatchExtends(n, x, h.pos);
  }

  /** A reply about a name whose last label is among the sixteen before it begins with a name that
      cannot be read: the question of the unicast reply, the answer's name in the multicast one. */
  lemma ReplyIsLost(stale: seq<byte>, id: u16, rtype: u16, answer: Record, additional: seq<Record>, i: nat)
    requires LabelShape(Labels(answer.name)) && |stale| <= 0x4000
    requires var ls := Labels(answer.name);
             i < |ls| - 1 <= i + TABLE_CAPACITY && ls[i] == ls[|ls| - 1]
    ensures var u := UnicastMessage(stale, id, rtype, answer.name, answer, [], additional);
            u.Some? ==> ReadName(u.value.buf[..u.value.pos], HEADER_SIZE, MAX_FETCHES).None?
    ensures var m := MulticastMessage(stale, answer, [], additional, CLASS_IN, 60);
            m.Some? && !answer.data.Txt? ==> ReadName(m.value.buf[..m.value.pos], HEADER_SIZE, MAX_FETCHES).None?
  {
    hide MakeName, Labels, LabelShape, ReadName, AddItems, AddQuestion, Extends, RingOf, MulticastSection, UnicastItems, UpdateRclassTtl;
    var ls := Labels(answer.name);
    var u := UnicastMessage(stale, id, rtype, answer.name, answer, [], additional);
    if u.Some? {
      var o := Begin(stale, UnicastHeader(id, [], additional), Some(RingOf([])));
      UnicastItemsValid(answer, [], additional);
      QuestionIsFirst(o, rtype, answer.name, CLASS_IN + TOP_BIT, UnicastItems(answer, [], additional));
      FirstName(o, ls, u.value);
      LastLabelAgainIsLost(o.buf, HEADER_SIZE, ls, i, u.value.buf[..u.value.pos]);
    }
    var m := MulticastMessage(stale, answer, [], additional, CLASS_IN, 60);
    if m.Some? && !answer.data.Txt? {
      MulticastNameIsFirst(stale, answer, additional);
      var o := Begin(stale, MulticastHeader([], additional), Some(RingOf([])));
      FirstName(o, ls, m.value);
      LastLabelAgainIsLost(o.buf, HEADER_SIZE, ls, i, m.value.buf[..m.value.pos]);
    }
  }

  lemma MulticastNameIsFirst(stale: seq<byte>, answer: Record, additional: seq<Record>)
    requires MulticastMessage(stale, answer, [], additional, CLASS_IN, 60).Some? && !answer.data.Txt?
    ensures var o := Begin(stale, MulticastHeader([], additional), Some(RingOf([])));
            MakeName(o, Labels(answer.name)).Some?
            && Extends(MakeName(o, Labels(answer.name)).value, MulticastMessage(stale, answer, [], additional, CLASS_IN, 60).value)
  {
    hide MakeName, Labels, AddItems, Extends, RingOf, MulticastSection, PlainItems;
    MulticastItemsValid(answer, [], additional, CLASS_IN, 60);
    MessageTheorems.TypeKept(answer, CLASS_IN, 60);
    MessageTheorems.AnswerItemsIs(UpdateRclassTtl(answer, CLASS_IN, 60));
    var o := Begin(stale, MulticastHeader([], additional), Some(RingOf([])));
    AnswerIsFirst(o, Plain(UpdateRclassTtl(answer, CLASS_IN, 60)),
                  MulticastSection([], CLASS_IN, 60) + MulticastSection(additional, CLASS_IN, 60));
  }

  /** A host called `pc.local`, or with `local` anywhere among the last fourteen labels of its
      name: every reply about the host or the instance is built, and begins with a name that
      cannot be read. */
  lemma LocalHostIsLost(s: Service, k: nat, name: seq<byte>, id: u16, rtype: u16, stale: seq<byte>)
    requires HostShaped(s.hostname) && k < |HostLabels(s.hostname)| <= k + 14 && HostLabels(s.hostname)[k] == LOCAL
    requires (name == InstanceName(s.hostname) || name == QualifiedName(s.hostname)) && s.Choose(name, rtype).Some?
    requires 6 * |s.hostname| + 241 <= |stale| <= 0x4000
    ensures var (answer, additional) := s.Choose(name, rtype).value;
            var u := UnicastMessage(stale, id, rtype, answer.name, answer, [], additional);
            var m := MulticastMessage(stale, answer, [], additional, CLASS_IN, 60);
            u.Some? && ReadName(u.value.buf[..u.value.pos], HEADER_SIZE, MAX_FETCHES).None?
            && m.Some? && ReadName(m.value.buf[..m.value.pos], HEADER_SIZE, MAX_FETCHES).None?
  {
    hide Labels, LabelShape, ReadName, UnicastMessage, MulticastMessage, Service.Choose, HostLabels, HostLabelsShaped;
    var (answer, additional) := s.Choose(name, rtype).value;
    RepliesFit(s, name, id, rtype, stale);
    HostNames(s.hostname);
    ChoiceNamed(s, name, rtype);
    ChoiceIsNoText(s, name, rtype);
    ReplyIsLost(stale, id, rtype, answer, additional, k);
  }

  const PC: Label := [0x70, 0x63]
  const PC_LOCAL: seq<byte> := PC + [DOT] + LOCAL

  /** The host `pc.local` is such a host, and asking for its address brings such a reply. */
  lemma PcLocalIsLost(s: Service, id: u16, stale: seq<byte>)
    requires s.hostname == PC_LOCAL && s.v4.Some? && |stale| == SEND_CAPACITY
    ensures s.Choose(QualifiedName(PC_LOCAL), TYPE_A) == Some((s.ARecord(), s.Additional(TYPE_A)))
    ensures var u := UnicastMessage(stale, id, TYPE_A, QualifiedName(PC_LOCAL), s.ARecord(), [], s.Additional(TYPE_A));
            u.Some? && ReadName(u.value.buf[..u.value.pos], HEADER_SIZE, MAX_FETCHES).None?
  {
    hide SplitFrom, UnicastMessage, MulticastMessage, ReadName, Service.Additional, Dotted, StrNEqual;
    var ls: seq<Label> := [PC, LOCAL];
    DottedOne(PC);
    DottedOne(LOCAL);
    DottedConcat([PC], [LOCAL]);
    assert ls == [PC] + [LOCAL] && Dotted(ls) == PC_LOCAL + [DOT];
    SplitDotted([], ls);
    assert [] + Dotted(ls)[..|Dotted(ls)| - 1] == PC_LOCAL;
    assert HostLabels(PC_LOCAL) == ls;
    NoNulInNames(s);
    StringEqualsIsEquality(QualifiedName(PC_LOCAL), QualifiedName(PC_LOCAL));
    LocalHostIsLost(s, 1, QualifiedName(PC_LOCAL), id, TYPE_A, stale);
  }

  lemma ChoiceIsNoText(s: Service, name: seq<byte>, rtype: u16)
    requires s.Choose(name, rtype).Some?
    ensures !s.Choose(name, rtype).value.0.data.Txt?
  {
    hide StringEquals, Service.Additional;
  }
}
