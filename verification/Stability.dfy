/** What is already written stays as it is, whatever is written after it; and compression
    only ever saves room. */
module Stability {
  import opened Bytes
  import opened NameReader
  import opened StringTables
  import opened NameWriter
  import opened NameCodec
  import opened NameTheorems
  import opened Records
  import opened RecordCodec

  /** Writing from `o` to `x` has changed nothing before where it began, nor past where it ended. */
  ghost predicate Extends(o: Out, x: Out) {
    o.pos <= x.pos <= |x.buf| == |o.buf|
    && x.buf[..o.pos] == o.buf[..o.pos] && x.buf[x.pos..] == o.buf[x.pos..]
  }

  lemma ExtendsStep(o: Out, x: Out, y: Out)
    requires Extends(o, x) && Extends(x, y)
    ensures Extends(o, y)
  {
    assert y.buf[..o.pos] == y.buf[..x.pos][..o.pos];
    assert x.buf[y.pos..] == x.buf[x.pos..][y.pos - x.pos..];
  }

  lemma AppendExtends(o: Out, s: seq<byte>)
    requires o.pos + |s| <= |o.buf|
    ensures Extends(o, o.Append(s))
  {
  }

  lemma {:induction false} NameExtends(o: Out, ls: seq<Label>)
    requires o.Valid() && MakeName(o, ls).Some?
    ensures Extends(o, MakeName(o, ls).value)
    decreases |ls|
  {
    hide Lookup, Put, RefBytes, LabelBytes, Extends;
    if ls == [] {
      AppendExtends(o, [0]);
    } else {
      var ref := Lookup(o.buf, o.table, ls);
      if ref.Some? {
        AppendExtends(o, RefBytes(ref.value));
      } else {
        AppendExtends(o, LabelBytes(ls[0]));
        var o1 := LabelWritten(o, ls[0]);
        NameExtends(o1, ls[1..]);
        SameBytes(o, o.Append(LabelBytes(ls[0])), o1);
        ExtendsStep(o, o1, MakeName(o1, ls[1..]).value);
      }
    }
  }

  lemma SameBytes(o: Out, x: Out, y: Out)
    requires Extends(o, x) && x.buf == y.buf && x.pos == y.pos
    ensures Extends(o, y)
  {
  }

  lemma HeaderExtends(o: Out, rec: Record)
    requires o.Valid() && AddHeader(o, rec).Some?
    ensures Extends(o, AddHeader(o, rec).value)
  {
    hide MakeName, Put, HeaderBytes, Extends;
    NameExtends(o, Labels(rec.name));
    var named := MakeName(o, Labels(rec.name)).value;
    var hb := HeaderBytes(TypeOf(rec.data), rec.rclass, rec.ttl, 0);
    AppendExtends(named, hb);
    ExtendsStep(o, named, named.Append(hb));
  }

  lemma DataExtends(o: Out, data: RecordData)
    requires o.Valid() && AddData(o, data).Some?
    ensures Extends(o, AddData(o, data).value)
  {
    hide MakeName, Put, SrvBytes, Labels;
    match data
    case Ptr(name) =>
      NameExtends(o, Labels(name));
    case Srv(priority, weight, port, target) =>
      var o1 := o.Append(SrvBytes(priority, weight, port));
      NameExtends(o1, Labels(target));
      ExtendsStep(o, o1, MakeName(o1, Labels(target)).value);
    case _ =>
  }

  lemma {:induction false} StringsExtend(o: Out, strings: seq<RecordData>)
    requires o.Valid() && AllTxt(strings) && AddStrings(o, strings).Some?
    ensures Extends(o, AddStrings(o, strings).value)
    decreases |strings|
  {
    hide Put, TxtStart, TxtLength;
    if strings != [] {
      var x := AddString(o, strings[0]).value;
      var x0 := o.Append(TxtStart(strings[0]));
      assert Extends(o, x0);
      assert x.buf[x.pos..] == x0.buf[x0.pos..][|strings[0].value|..] == o.buf[x.pos..];
      StringsExtend(x, strings[1..]);
      ExtendsStep(o, x, AddStrings(x, strings[1..]).value);
    }
  }

  /** Filling in a length touches only the two bytes before the data. */
  lemma PatchExtends(o: Out, x: Out, start: nat)
    requires x.Valid() && Extends(o, x) && o.pos + 2 <= start <= x.pos
    ensures Extends(o, PatchLength(x, start))
  {
    var y := PatchLength(x, start);
    assert y.buf[..start - 2] == x.buf[..start - 2];
    assert y.buf[..o.pos] == y.buf[..start - 2][..o.pos] == x.buf[..start - 2][..o.pos] == x.buf[..o.pos];
    assert y.buf[x.pos..] == y.buf[start..][x.pos - start..] == x.buf[start..][x.pos - start..];
  }

  lemma ItemExtends(o: Out, item: Item)
    requires o.Valid() && ItemValid(item) && AddItem(o, item).Some?
    ensures Extends(o, AddItem(o, item).value)
  {
    hide AddHeader, AddData, AddStrings, PatchLength, Extends;
    var h := AddHeader(o, item.rec).value;
    HeaderExtends(o, item.rec);
    var x := (if item.Plain? then AddData(h, item.rec.data) else AddStrings(h, item.strings)).value;
    if item.Plain? {
      DataExtends(h, item.rec.data);
    } else {
      StringsExtend(h, item.strings);
    }
    ExtendsStep(o, h, x);
    PatchExtends(o, x, h.pos);
  }

  /** No hypothesis on names or table: records written later, their text strings and the
      lengths filled in afterwards included, change nothing written before; so whatever name
      could be read in the message so far, at any offset, is still the same name after. */
  lemma {:induction false} LaterRecordsChangeNothing(o: Out, items: seq<Item>)
    requires o.Valid() && ItemsValid(items) && AddItems(Some(o), items).Some?
    ensures var x := AddItems(Some(o), items).value;
            Extends(o, x) && o.buf[..o.pos] <= x.buf[..x.pos]
    ensures var x := AddItems(Some(o), items).value;
            forall at, ls, jumps :: NameAt(o.buf[..o.pos], at, ls, jumps) ==> NameAt(x.buf[..x.pos], at, ls, jumps)
    decreases |items|
  {
    hide AddItem, NameAt, ItemValid;
    var x := AddItems(Some(o), items).value;
    if items != [] {
      assert items[0] in items;
      ItemExtends(o, items[0]);
      var o1 := AddItem(o, items[0]).value;
      LaterRecordsChangeNothing(o1, items[1..]);
      ExtendsStep(o, o1, x);
    }
    assert x.buf[..x.pos][..o.pos] == x.buf[..o.pos];
    forall at, ls, jumps | NameAt(o.buf[..o.pos], at, ls, jumps)
      ensures NameAt(x.buf[..x.pos], at, ls, jumps)
    {
      NameStable(o.buf[..o.pos], x.buf[..x.pos], at, ls, jumps, jumps);
    }
  }

  /** A sound table is still sound after any good records: every offset in it is a written
      label that begins a good name, read with at most one jump per label. */
  lemma RecordsKeepTable(o: Out, items: seq<Item>, top: Label)
    requires TableOk(o, top) && o.table.Some? && |o.buf| <= 0x4000 && ItemsValid(items) && GoodItems(items, top)
    requires AddItems(Some(o), items).Some?
    ensures TableOk(AddItems(Some(o), items).value, top)
  {
    hide EmitItems, AddItems, DictOk, GoodItem, ItemValid, WiresBytes, Offsets, DictOf, TableOk, EntryOk;
    var m := o.buf[..o.pos];
    var d := DictOf(m, o.table);
    TableValid(o, top);
    TableDict(o, top);
    DictIsValid(m, d, top);
    ItemsEmit(o, o.buf, d, items, top);
    var (ws, d') := EmitItems(o.buf, d, o.pos, items);
    var x := AddItems(Some(o), items).value;
    WrittenPrefix(o, x, WiresBytes(ws), d');
    ItemsCarried(m, o.buf, d, items, top);
    DictTable(x, d', top);
  }

  lemma TableValid(o: Out, top: Label)
    requires TableOk(o, top)
    ensures o.Valid()
  {
  }

  lemma DictIsValid(m: seq<byte>, d: Dict, top: Label)
    requires DictOk(m, d, top)
    ensures DictValid(d)
  {
  }

  // ----- Compression

  lemma {:induction false} PlainExactly(o: Out, ls: seq<Label>)
    requires o.Valid() && o.table.None?
    ensures MakeName(o, ls).Some? <==> o.pos + PlainSize(ls) <= |o.buf|
    ensures MakeName(o, ls).Some? ==> MakeName(o, ls).value.pos == o.pos + PlainSize(ls)
    decreases |ls|
  {
    if ls != [] && o.pos + |ls[0]| + 1 < |o.buf| {
      PlainExactly(LabelWritten(o, ls[0]), ls[1..]);
    }
  }

  /** Against the same room without a table: whenever the plain form can be written so can the
      compressed one, and it is never longer; with a sound table and a good name both read
      back as the same labels. */
  lemma CompressionRefinesPlain(o: Out, name: NameText, top: Label)
    requires o.Valid() && MakeName(o.(table := None), Labels(name)).Some?
    ensures MakeName(o, Labels(name)).Some?
    ensures var plain := MakeName(o.(table := None), Labels(name)).value;
            var short := MakeName(o, Labels(name)).value;
            short.pos <= plain.pos
            && (TableOk(o, top) && |o.buf| <= 0x4000 && GoodName(Labels(name), top) ==>
                  ReadName(short.buf[..short.pos], o.pos, MAX_FETCHES) == Some(Labels(name))
                  && ReadName(plain.buf[..plain.pos], o.pos, MAX_FETCHES) == Some(Labels(name)))
  {
    hide MakeName, Labels, PlainSize, GoodName, ReadName, NameEnd, NameAt;
    PlainExactly(o.(table := None), Labels(name));
    MakeNameFits(o, Labels(name));
    if TableOk(o, top) && |o.buf| <= 0x4000 && GoodName(Labels(name), top) {
      GoodIsShaped(Labels(name), top);
      NameRoundTrip(o, name, top);
      NameRoundTrip(o.(table := None), name, top);
    }
  }

  lemma GoodIsShaped(ls: seq<Label>, top: Label)
    requires GoodName(ls, top)
    ensures LabelShape(ls)
  {
  }
}
