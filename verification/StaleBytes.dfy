/** Which bytes of a message can come from what the reused buffer held before: exactly
    those in the place of text values. */
module StaleBytes {
  import opened Bytes
  import opened NameReader
  import opened NameWriter
  import opened NameCodec
  import opened Records
  import opened RecordCodec
  import opened Messages
  import opened RoundTrip
  import opened MessageTheorems

  // ----- Text values

  predicate NoValues(strings: seq<RecordData>) {
    forall s :: s in strings && s.Txt? ==> s.value == []
  }

  predicate NoItemValues(items: seq<Item>) {
    forall item :: item in items && item.Texts? ==> NoValues(item.strings)
  }

  /** No text record of the section has a value. */
  predicate NoTxtValues(records: seq<Record>) {
    forall r :: r in records && r.data.Txt? ==> r.data.value == []
  }

  lemma {:induction false} StringsOf(records: seq<Record>)
    ensures forall s :: s in Strings(records) <==> exists r :: r in records && r.data.Txt? && r.data == s
  {
    if records != [] {
      StringsOf(records[1..]);
      forall s ensures s in Strings(records) <==> exists r :: r in records && r.data.Txt? && r.data == s {
        if s in Strings(records[1..]) {
          var r :| r in records[1..] && r.data.Txt? && r.data == s;
          assert r in records;
        }
        if r :| r in records && r.data.Txt? && r.data == s {
          assert r == records[0] || r in records[1..];
        }
        if records[0].data.Txt? && s == records[0].data {
          assert records[0] in records;
        }
      }
    }
  }

  lemma {:induction false} PlainAreNotTexts(records: seq<Record>)
    ensures forall item :: item in PlainItems(records) ==> item.Plain?
  {
    if records != [] {
      PlainAreNotTexts(records[1..]);
    }
  }

  lemma {:induction false} SomeText(records: seq<Record>)
    ensures TxtRecords(records) == [] <==> forall r :: r in records ==> !r.data.Txt?
  {
    if records != [] {
      SomeText(records[1..]);
      assert records[0] in records;
    }
  }

  /** A section's items have no text values exactly when its records have none. */
  lemma TextItemsValues(records: seq<Record>, rclass: u16, ttl: u32)
    ensures NoItemValues(TextItems(records, rclass, ttl)) <==> NoTxtValues(records)
  {
    hide UpdateRclassTtl, TxtRecords, Strings;
    StringsOf(records);
    SomeText(records);
    var items := TextItems(records, rclass, ttl);
    if items != [] {
      assert items[0] in items;
      if NoItemValues(items) {
        forall r | r in records && r.data.Txt? ensures r.data.value == [] {
          assert r.data in Strings(records);
        }
      }
    }
  }

  lemma SectionValues(records: seq<Record>, rclass: u16, ttl: u32)
    ensures NoItemValues(MulticastSection(records, rclass, ttl)) <==> NoTxtValues(records)
  {
    hide NoValues, NoTxtValues, UpdateRclassTtl, PlainItems, TextItems, Updated;
    PlainAreNotTexts(Updated(records, rclass, ttl));
    TextItemsValues(records, rclass, ttl);
    var x, y := PlainItems(Updated(records, rclass, ttl)), TextItems(records, rclass, ttl);
    assert forall item :: item in x + y <==> item in x || item in y;
  }

  lemma MulticastValues(answer: Record, authority: seq<Record>, additional: seq<Record>, rclass: u16, ttl: u32)
    ensures NoItemValues(MulticastItems(answer, authority, additional, rclass, ttl))
       <==> NoTxtValues(authority) && NoTxtValues(additional)
  {
    hide NoValues, NoTxtValues, UpdateRclassTtl, PlainItems, MulticastSection;
    PlainAreNotTexts([UpdateRclassTtl(answer, rclass, ttl)]);
    SectionValues(authority, rclass, ttl);
    SectionValues(additional, rclass, ttl);
    var x := PlainItems([UpdateRclassTtl(answer, rclass, ttl)]);
    var y, z := MulticastSection(authority, rclass, ttl), MulticastSection(additional, rclass, ttl);
    assert forall item :: item in x + (y + z) <==> item in x || item in y || item in z;
  }

  lemma UnicastValues(answer: Record, authority: seq<Record>, additional: seq<Record>)
    ensures NoItemValues(UnicastItems(answer, authority, additional)) <==> NoTxtValues(authority) && NoTxtValues(additional)
  {
    hide NoValues, NoTxtValues, UpdateRclassTtl, PlainItems, TextItems, AllForUnicast;
    var x := PlainItems([answer.(rclass := CLASS_IN, ttl := LEGACY_TTL)]);
    PlainAreNotTexts([answer.(rclass := CLASS_IN, ttl := LEGACY_TTL)]);
    UnicastSectionValues(authority);
    UnicastSectionValues(additional);
    var y, z := UnicastSection(authority), UnicastSection(additional);
    assert forall item :: item in x + (y + z) <==> item in x || item in y || item in z;
  }

  lemma UnicastSectionValues(records: seq<Record>)
    ensures NoItemValues(UnicastSection(records)) <==> NoTxtValues(records)
  {
    hide NoValues, NoTxtValues, UpdateRclassTtl, PlainItems, TextItems, AllForUnicast;
    PlainAreNotTexts(AllForUnicast(records));
    TextItemsValues(records, CLASS_IN, LEGACY_TTL);
    var x, y := PlainItems(AllForUnicast(records)), TextItems(records, CLASS_IN, LEGACY_TTL);
    assert forall item :: item in x + y <==> item in x || item in y;
  }

  // ----- Without values nothing is stale

  lemma {:induction false} TextIndependent(s: seq<byte>, t: seq<byte>, pos: nat, strings: seq<RecordData>)
    requires AllTxt(strings) && NoValues(strings)
    ensures TextBytes(s, pos, strings) == TextBytes(t, pos, strings)
    decreases |strings|
  {
    if strings != [] {
      assert strings[0] in strings;
      assert StaleBytes(s, pos + |strings[0].key| + 2, 0) == [] == StaleBytes(t, pos + |strings[0].key| + 2, 0);
      var first := StringBytes(s, pos, strings[0]);
      TextIndependent(s, t, pos + |first|, strings[1..]);
    }
  }

  lemma {:induction false} EmitIndependent(s: seq<byte>, t: seq<byte>, d: Dict, pos: nat, items: seq<Item>)
    requires DictValid(d) && ItemsValid(items) && NoItemValues(items)
    ensures EmitItems(s, d, pos, items) == EmitItems(t, d, pos, items)
    decreases |items|
  {
    hide EmitName, EmitData, TextBytes, WireBytes, NoValues, Labels;
    if items != [] {
      assert items[0] in items;
      var (owner, d1) := EmitName(d, pos, Labels(items[0].rec.name));
      if items[0].Texts? {
        TextIndependent(s, t, pos + |owner| + 10, items[0].strings);
      }
      assert EmitItem(s, d, pos, items[0]) == EmitItem(t, d, pos, items[0]);
      var (w, d2) := EmitItem(s, d, pos, items[0]);
      EmitIndependent(s, t, d2, pos + |WireBytes(w)|, items[1..]);
    }
  }

  /** Two finished or failed buildings come to the same message. */
  ghost predicate SameMessage(x: Option<Out>, y: Option<Out>)
    requires x.Some? ==> x.value.Valid()
    requires y.Some? ==> y.value.Valid()
  {
    x.Some? == y.Some? && (x.Some? ==> x.value.buf[..x.value.pos] == y.value.buf[..y.value.pos])
  }

  // ----- A value lets stale bytes through

  /** `t` differs from `s` in every byte. */
  ghost predicate DiffersEverywhere(s: seq<byte>, t: seq<byte>) {
    |s| == |t| && forall i :: 0 <= i < |s| ==> s[i] != t[i]
  }

  lemma {:induction false} TextLeaks(s: seq<byte>, t: seq<byte>, pos: nat, strings: seq<RecordData>)
    requires AllTxt(strings) && DiffersEverywhere(s, t) && pos + |TextBytes(s, pos, strings)| <= |s|
    ensures |TextBytes(s, pos, strings)| == |TextBytes(t, pos, strings)|
    ensures !NoValues(strings) ==> TextBytes(s, pos, strings) != TextBytes(t, pos, strings)
    decreases |strings|
  {
    hide StringBytes, TxtLength;
    if strings != [] {
      var x, y := StringBytes(s, pos, strings[0]), StringBytes(t, pos, strings[0]);
      var xs, ys := TextBytes(s, pos + |x|, strings[1..]), TextBytes(t, pos + |y|, strings[1..]);
      assert TextBytes(s, pos, strings) == x + xs && TextBytes(t, pos, strings) == y + ys;
      assert |x| == |y|;
      TextLeaks(s, t, pos + |x|, strings[1..]);
      ValueLeaks(s, t, pos, strings[0]);
      ConcatEqual(x, xs, y, ys);
      if !NoValues(strings) && strings[0].value == [] {
        assert strings == [strings[0]] + strings[1..];
        assert !NoValues(strings[1..]);
      }
    }
  }

  lemma ValueLeaks(s: seq<byte>, t: seq<byte>, pos: nat, x: RecordData)
    requires x.Txt? && DiffersEverywhere(s, t) && pos + |StringBytes(s, pos, x)| <= |s|
    ensures x.value != [] ==> StringBytes(s, pos, x) != StringBytes(t, pos, x)
  {
    hide TxtStart;
    var i := pos + |x.key| + 2;
    if x.value != [] {
      hide TxtLength;
      assert StaleBytes(s, i, |x.value|)[0] == s[i] && StaleBytes(t, i, |x.value|)[0] == t[i];
      ConcatEqual(TxtStart(x), StaleBytes(s, i, |x.value|), TxtStart(x), StaleBytes(t, i, |x.value|));
    }
  }

  lemma ItemLeaks(s: seq<byte>, t: seq<byte>, d: Dict, pos: nat, item: Item)
    requires DictValid(d) && ItemValid(item) && DiffersEverywhere(s, t)
    requires pos + |WireBytes(EmitItem(s, d, pos, item).0)| <= |s|
    ensures |WireBytes(EmitItem(s, d, pos, item).0)| == |WireBytes(EmitItem(t, d, pos, item).0)|
    ensures EmitItem(s, d, pos, item).1 == EmitItem(t, d, pos, item).1
    ensures item.Texts? && !NoValues(item.strings)
       ==> WireBytes(EmitItem(s, d, pos, item).0) != WireBytes(EmitItem(t, d, pos, item).0)
  {
    hide EmitName, EmitData, TextBytes, NoValues, Labels, HeaderBytes;
    var owner := EmitName(d, pos, Labels(item.rec.name)).0;
    if item.Texts? {
      TextLeaks(s, t, pos + |owner| + 10, item.strings);
      var x, y := EmitItem(s, d, pos, item).0, EmitItem(t, d, pos, item).0;
      ConcatEqual(x.owner + HeaderBytes(x.rtype, x.rclass, x.ttl, |x.rdata| % 0x1_0000), x.rdata,
                  y.owner + HeaderBytes(y.rtype, y.rclass, y.ttl, |y.rdata| % 0x1_0000), y.rdata);
    }
  }

  lemma {:induction false} ItemsLeak(s: seq<byte>, t: seq<byte>, d: Dict, pos: nat, items: seq<Item>)
    requires DictValid(d) && ItemsValid(items) && DiffersEverywhere(s, t)
    requires pos + |WiresBytes(EmitItems(s, d, pos, items).0)| <= |s|
    ensures !NoItemValues(items) ==> WiresBytes(EmitItems(s, d, pos, items).0) != WiresBytes(EmitItems(t, d, pos, items).0)
    decreases |items|
  {
    hide EmitItem, WireBytes, NoValues, ItemValid;
    if items != [] {
      assert items[0] in items;
      ItemLeaks(s, t, d, pos, items[0]);
      var (x, d1) := EmitItem(s, d, pos, items[0]);
      var y := EmitItem(t, d, pos, items[0]).0;
      var next := pos + |WireBytes(x)|;
      var xs, ys := EmitItems(s, d1, next, items[1..]).0, EmitItems(t, d1, next, items[1..]).0;
      assert ([x] + xs)[1..] == xs && ([y] + ys)[1..] == ys;
      ItemsLeak(s, t, d1, next, items[1..]);
      ConcatEqual(WireBytes(x), WiresBytes(xs), WireBytes(y), WiresBytes(ys));
      if !NoItemValues(items) && NoItemValues(items[1..]) {
        assert items[0].Texts? && !NoValues(items[0].strings);
      }
    }
  }

  function Flipped(s: seq<byte>): (t: seq<byte>)
    ensures DiffersEverywhere(s, t)
  {
    seq(|s|, i requires 0 <= i < |s| => (s[i] as int + 1) % 0x100)
  }

  // ----- Messages

  /** Over all buffers of one size, a multicast message that can be built is always the same
      message if and only if none of its text records has a value: otherwise the value's
      place is passed over and shows what the buffer held. */
  lemma MessageIgnoresStaleBytesExactly(stale: seq<byte>, answer: Record, authority: seq<Record>, additional: seq<Record>,
                                        rclass: u16, ttl: u32, top: Label)
    requires GoodRecord(answer, top) && GoodRecords(authority, top) && GoodRecords(additional, top) && |stale| <= 0x4000
    requires MulticastMessage(stale, answer, authority, additional, rclass, ttl).Some?
    ensures (forall other: seq<byte> :: |other| == |stale| ==>
               SameMessage(MulticastMessage(stale, answer, authority, additional, rclass, ttl),
                           MulticastMessage(other, answer, authority, additional, rclass, ttl)))
       <==> NoTxtValues(authority) && NoTxtValues(additional)
  {
    hide MulticastMessage, MulticastItems, GoodRecord, NoItemValues, NoTxtValues, EmitItems, WiresBytes, AllCarried, GoodItems, MulticastHeader;
    var items := MulticastItems(answer, authority, additional, rclass, ttl);
    MulticastItemsValid(answer, authority, additional, rclass, ttl);
    MulticastValues(answer, authority, additional, rclass, ttl);
    MulticastBytes(stale, answer, authority, additional, rclass, ttl, top);
    if NoItemValues(items) {
      forall other: seq<byte> | |other| == |stale|
        ensures SameMessage(MulticastMessage(stale, answer, authority, additional, rclass, ttl),
                            MulticastMessage(other, answer, authority, additional, rclass, ttl))
      {
        MulticastBytes(other, answer, authority, additional, rclass, ttl, top);
        EmitIndependent(stale, other, FRESH, HEADER_SIZE, items);
      }
    } else {
      var other := Flipped(stale);
      MulticastBytes(other, answer, authority, additional, rclass, ttl, top);
      ItemsLeak(stale, other, FRESH, HEADER_SIZE, items);
      MessagesDiffer(stale, other, answer, authority, additional, rclass, ttl, top);
    }
  }

  lemma MessagesDiffer(stale: seq<byte>, other: seq<byte>, answer: Record, authority: seq<Record>, additional: seq<Record>,
                       rclass: u16, ttl: u32, top: Label)
    requires GoodRecord(answer, top) && GoodRecords(authority, top) && GoodRecords(additional, top)
    requires |stale| == |other| <= 0x4000
    requires MulticastMessage(stale, answer, authority, additional, rclass, ttl).Some?
    requires WiresBytes(MulticastWires(stale, answer, authority, additional, rclass, ttl))
          != WiresBytes(MulticastWires(other, answer, authority, additional, rclass, ttl))
    ensures !SameMessage(MulticastMessage(stale, answer, authority, additional, rclass, ttl),
                         MulticastMessage(other, answer, authority, additional, rclass, ttl))
  {
    hide MulticastMessage, MulticastItems, GoodRecord, MulticastWires, WiresBytes, AllCarried, GoodItems, MulticastHeader;
    MulticastBytes(stale, answer, authority, additional, rclass, ttl, top);
    MulticastBytes(other, answer, authority, additional, rclass, ttl, top);
    var h := MulticastHeader(authority, additional);
    ConcatEqual(h, WiresBytes(MulticastWires(stale, answer, authority, additional, rclass, ttl)),
                h, WiresBytes(MulticastWires(other, answer, authority, additional, rclass, ttl)));
  }

  /** The same of a unicast reply, with its question before the records. */
  lemma ReplyIgnoresStaleBytesExactly(stale: seq<byte>, id: u16, rtype: u16, name: NameText, answer: Record,
                                      authority: seq<Record>, additional: seq<Record>, top: Label)
    requires GoodName(Labels(name), top) && GoodRecord(answer, top) && GoodRecords(authority, top) && GoodRecords(additional, top)
    requires |stale| <= 0x4000 && UnicastMessage(stale, id, rtype, name, answer, authority, additional).Some?
    ensures (forall other: seq<byte> :: |other| == |stale| ==>
               SameMessage(UnicastMessage(stale, id, rtype, name, answer, authority, additional),
                           UnicastMessage(other, id, rtype, name, answer, authority, additional)))
       <==> NoTxtValues(authority) && NoTxtValues(additional)
  {
    hide UnicastMessage, UnicastItems, GoodRecord, NoItemValues, NoTxtValues, EmitItems, WiresBytes, AllCarried, GoodItems,
      UnicastHeader, QuestionBytes, GoodName, Labels, NameAt, NameEnd;
    var items := UnicastItems(answer, authority, additional);
    UnicastItemsValid(answer, authority, additional);
    UnicastValues(answer, authority, additional);
    UnicastBytes(stale, id, rtype, name, answer, authority, additional, top);
    var (asked, d) := QuestionBytes(rtype, name);
    var at := HEADER_SIZE + |asked|;
    if NoItemValues(items) {
      forall other: seq<byte> | |other| == |stale|
        ensures SameMessage(UnicastMessage(stale, id, rtype, name, answer, authority, additional),
                            UnicastMessage(other, id, rtype, name, answer, authority, additional))
      {
        UnicastBytes(other, id, rtype, name, answer, authority, additional, top);
        EmitIndependent(stale, other, d, at, items);
      }
    } else {
      var other := Flipped(stale);
      UnicastBytes(other, id, rtype, name, answer, authority, additional, top);
      ItemsLeak(stale, other, d, at, items);
      var h := UnicastHeader(id, authority, additional) + asked;
      ConcatEqual(h, WiresBytes(EmitItems(stale, d, at, items).0), h, WiresBytes(EmitItems(other, d, at, items).0));
      assert !SameMessage(UnicastMessage(stale, id, rtype, name, answer, authority, additional),
                          UnicastMessage(other, id, rtype, name, answer, authority, additional));
    }
  }
}
