/** What writing a record comes to, said without a buffer: the five parts of the record
    on the wire. The record routines refine this; the length is right from the start
    instead of being filled in afterwards. */
module RecordCodec {
  import opened Bytes
  import opened NameReader
  import opened NameWriter
  import opened NameCodec
  import opened NameTheorems
  import opened Records

  datatype Wire = Wire(owner: seq<byte>, rtype: u16, rclass: u16, ttl: u32, rdata: seq<byte>)

  function WireBytes(w: Wire): (s: seq<byte>)
    ensures |s| == |w.owner| + 10 + |w.rdata|
  {
    w.owner + HeaderBytes(w.rtype, w.rclass, w.ttl, |w.rdata| % 0x1_0000) + w.rdata
  }

  function WiresBytes(ws: seq<Wire>): (s: seq<byte>) {
    if ws == [] then [] else WireBytes(ws[0]) + WiresBytes(ws[1..])
  }

  /** The data of a record whose data begins at `pos`. */
  ghost function EmitData(d: Dict, pos: nat, data: RecordData): (r: (seq<byte>, Dict))
    requires DictValid(d)
    ensures DictValid(r.1) && r.1.Some? == d.Some?
  {
    match data
    case Ptr(name) => EmitName(d, pos, Labels(name))
    case Srv(priority, weight, port, target) =>
      var named := EmitName(d, pos + 6, Labels(target));
      (SrvBytes(priority, weight, port) + named.0, named.1)
    case A(addr) => (addr, d)
    case Aaaa(addr) => (addr, d)
    case Txt(_, _) => ([], d)
    case Other(_) => ([], d)
  }

  /** The bytes a text value is passed over: they are whatever the buffer held. */
  function StaleBytes(stale: seq<byte>, pos: nat, n: nat): (s: seq<byte>)
    ensures |s| == n
  {
    if pos + n <= |stale| then stale[pos..pos + n] else seq(n, _ => 0)
  }

  /** One text string with the bytes it passes over. */
  function StringBytes(stale: seq<byte>, pos: nat, t: RecordData): (s: seq<byte>)
    requires t.Txt?
    ensures |s| == TxtLength(t) + 1
  {
    TxtStart(t) + StaleBytes(stale, pos + |t.key| + 2, |t.value|)
  }

  ghost function TextBytes(stale: seq<byte>, pos: nat, strings: seq<RecordData>): (s: seq<byte>)
    requires AllTxt(strings)
    decreases |strings|
  {
    if strings == [] then []
    else
      var first := StringBytes(stale, pos, strings[0]);
      first + TextBytes(stale, pos + |first|, strings[1..])
  }

  /** Strings one after another: length byte, key and NUL, and as many bytes of anything as the value has. */
  predicate IsText(s: seq<byte>, strings: seq<RecordData>)
    decreases |strings|
  {
    if strings == [] then s == []
    else
      var t := strings[0];
      t.Txt? && |s| > TxtLength(t) && TxtStart(t) <= s && IsText(s[TxtLength(t) + 1..], strings[1..])
  }

  lemma {:induction false} TextIs(stale: seq<byte>, pos: nat, strings: seq<RecordData>)
    requires AllTxt(strings)
    ensures IsText(TextBytes(stale, pos, strings), strings)
    decreases |strings|
  {
    hide TxtStart, TxtLength, StaleBytes;
    if strings != [] {
      var first := StringBytes(stale, pos, strings[0]);
      var rest := TextBytes(stale, pos + |first|, strings[1..]);
      TextIs(stale, pos + |first|, strings[1..]);
      assert (first + rest)[|first|..] == rest;
      assert TxtStart(strings[0]) <= first <= first + rest;
    }
  }

  /** One item written at `pos` in a buffer that held `stale` before. */
  ghost function EmitItem(stale: seq<byte>, d: Dict, pos: nat, item: Item): (r: (Wire, Dict))
    requires DictValid(d) && ItemValid(item)
    ensures DictValid(r.1) && r.1.Some? == d.Some?
  {
    var (owner, d1) := EmitName(d, pos, Labels(item.rec.name));
    var start := pos + |owner| + 10;
    var (rdata, d2) :=
      if item.Plain? then EmitData(d1, start, item.rec.data) else (TextBytes(stale, start, item.strings), d1);
    (Wire(owner, TypeOf(item.rec.data), item.rec.rclass, item.rec.ttl, rdata), d2)
  }

  ghost function EmitItems(stale: seq<byte>, d: Dict, pos: nat, items: seq<Item>): (r: (seq<Wire>, Dict))
    requires DictValid(d) && ItemsValid(items)
    ensures |r.0| == |items| && DictValid(r.1) && r.1.Some? == d.Some?
    decreases |items|
  {
    if items == [] then ([], d)
    else
      var (w, d1) := EmitItem(stale, d, pos, items[0]);
      var (ws, d2) := EmitItems(stale, d1, pos + |WireBytes(w)|, items[1..]);
      ([w] + ws, d2)
  }

  // ----- Hypotheses on the names a record holds

  predicate GoodData(data: RecordData, top: Label) {
    match data
    case Ptr(name) => GoodName(Labels(name), top)
    case Srv(_, _, _, target) => GoodName(Labels(target), top)
    case _ => true
  }

  ghost predicate GoodItem(item: Item, top: Label) {
    ItemValid(item) && GoodName(Labels(item.rec.name), top) && GoodData(item.rec.data, top)
  }

  ghost predicate GoodItems(items: seq<Item>, top: Label) {
    forall item :: item in items ==> GoodItem(item, top)
  }

  // ----- The routines refine the wire form

  lemma DictOkMid(m: seq<byte>, d: Dict, top: Label, ls: seq<Label>)
    requires DictOk(m, d, top)
    ensures MidName(m, d, top, ls)
  {
    hide EntryOk, Pending;
  }

  /** A good name written where the dictionary is sound. */
  lemma NameEmits(o: Out, d: Dict, ls: seq<Label>, top: Label)
    requires o.Valid() && o.table == Offsets(d) && DictOk(o.buf[..o.pos], d, top) && GoodName(ls, top)
    ensures var (bytes, d') := EmitName(d, o.pos, ls);
            match MakeName(o, ls)
            case None => |o.buf| < o.pos + |bytes|
            case Some(o') => Written(o, o', bytes, d')
  {
    hide EntryOk, MidName, EmitName, MakeName, GoodName;
    DictOkMid(o.buf[..o.pos], d, top, ls);
    MakeNameEmits(o, d, ls, top);
  }

  /** Storing more after what was stored. */
  lemma WrittenAppend(o: Out, x: Out, y: Out, s: seq<byte>, t: seq<byte>, d: Dict, d': Dict)
    requires Written(o, x, s, d) && Written(x, y, t, d')
    ensures Written(o, y, s + t, d')
  {
    hide Offsets;
    PutPut(o.buf, o.pos, s, t);
  }

  lemma AppendWritten(o: Out, d: Dict, s: seq<byte>)
    requires o.pos + |s| <= |o.buf| && o.table == Offsets(d)
    ensures Written(o, o.Append(s), s, d)
  {
  }

  lemma WrittenPrefix(o: Out, x: Out, s: seq<byte>, d: Dict)
    requires Written(o, x, s, d)
    ensures x.buf[..x.pos] == o.buf[..o.pos] + s
  {
    PutPrefix(o.buf, o.pos, s);
  }

  lemma HeaderEmits(o: Out, d: Dict, rec: Record, top: Label)
    requires DictValid(d) && o.Valid() && |o.buf| <= 0x4000 && o.table == Offsets(d)
    requires DictOk(o.buf[..o.pos], d, top) && GoodName(Labels(rec.name), top)
    ensures var (owner, d1) := EmitName(d, o.pos, Labels(rec.name));
            match AddHeader(o, rec)
            case None => |o.buf| < o.pos + |owner| + 10
            case Some(h) =>
              Written(o, h, owner + HeaderBytes(TypeOf(rec.data), rec.rclass, rec.ttl, 0), d1)
              && DictOk(o.buf[..o.pos] + owner, d1, top)
  {
    hide EntryOk, EmitName, MakeName, GoodName, Labels, HeaderBytes, Put, Offsets, DictOk, NameAt, NameEnd;
    var ls := Labels(rec.name);
    var (owner, d1) := EmitName(d, o.pos, ls);
    NameEmits(o, d, ls, top);
    var named := MakeName(o, ls);
    if named.Some? {
      EmittedSound(o, d, ls, top);
      if |o.buf| - named.value.pos >= 10 {
        var hb := HeaderBytes(TypeOf(rec.data), rec.rclass, rec.ttl, 0);
        AppendWritten(named.value, d1, hb);
        WrittenAppend(o, named.value, named.value.Append(hb), owner, hb, d1, d1);
      }
    }
  }

  lemma EmittedSound(o: Out, d: Dict, ls: seq<Label>, top: Label)
    requires o.Valid() && DictOk(o.buf[..o.pos], d, top) && GoodName(ls, top)
    requires o.pos + |EmitName(d, o.pos, ls).0| <= 0x4000
    ensures DictOk(o.buf[..o.pos] + EmitName(d, o.pos, ls).0, EmitName(d, o.pos, ls).1, top)
  {
    hide EntryOk, EmitName, NameAt, NameEnd;
    EmitNameRoundTrip(o.buf[..o.pos], d, ls, top);
  }

  lemma DataEmits(o: Out, d: Dict, data: RecordData, top: Label)
    requires DictValid(d) && o.Valid() && o.table == Offsets(d)
    requires DictOk(o.buf[..o.pos], d, top) && GoodData(data, top)
    ensures var (rdata, d') := EmitData(d, o.pos, data);
            match AddData(o, data)
            case None => |o.buf| < o.pos + |rdata|
            case Some(x) => Written(o, x, rdata, d')
  {
    hide EntryOk, EmitName, MakeName, GoodName, Labels, SrvBytes, Put, Offsets, DictOk;
    match data
    case Ptr(name) =>
      NameEmits(o, d, Labels(name), top);
    case Srv(priority, weight, port, target) =>
      var sb := SrvBytes(priority, weight, port);
      if |o.buf| - o.pos > 6 {
        var o1 := o.Append(sb);
        AppendWritten(o, d, sb);
        WrittenPrefix(o, o1, sb, d);
        DictStable(o.buf[..o.pos], o1.buf[..o1.pos], d, top);
        NameEmits(o1, d, Labels(target), top);
        var x := MakeName(o1, Labels(target));
        if x.Some? {
          var (bytes, d') := EmitName(d, o1.pos, Labels(target));
          WrittenAppend(o, o1, x.value, sb, bytes, d, d');
        }
      }
    case A(addr) =>
      if |o.buf| - o.pos >= 4 { AppendWritten(o, d, addr); }
    case Aaaa(addr) =>
      if |o.buf| - o.pos >= 16 { AppendWritten(o, d, addr); }
    case Txt(_, _) =>
      NothingWritten(o, d);
    case Other(_) =>
      NothingWritten(o, d);
  }

  lemma NothingWritten(o: Out, d: Dict)
    requires o.Valid() && o.table == Offsets(d)
    ensures Written(o, o, [], d)
  {
    hide Offsets;
    assert Put(o.buf, o.pos, []) == o.buf;
  }

  lemma {:induction false} StringsEmit(o: Out, stale: seq<byte>, d: Dict, strings: seq<RecordData>)
    requires DictValid(d) && o.Valid() && |o.buf| <= 0x4000 && o.table == Offsets(d) && AllTxt(strings)
    requires |stale| == |o.buf| && stale[o.pos..] == o.buf[o.pos..]
    ensures var text := TextBytes(stale, o.pos, strings);
            match AddStrings(o, strings)
            case None => |o.buf| < o.pos + |text|
            case Some(x) => Written(o, x, text, d)
    decreases |strings|
  {
    hide Offsets, Put, AddString, StringBytes, Written;
    if strings == [] {
      NothingWritten(o, d);
    } else {
      var t := strings[0];
      var first := StringBytes(stale, o.pos, t);
      var rest := TextBytes(stale, o.pos + |first|, strings[1..]);
      StringEmits(o, stale, d, t);
      var x := AddString(o, t);
      if x.Some? {
        StaleLeft(o, x.value, stale, first, d);
        StringsEmit(x.value, stale, d, strings[1..]);
        var y := AddStrings(x.value, strings[1..]);
        if y.Some? {
          WrittenAppend(o, x.value, y.value, first, rest, d, d);
        }
      }
    }
  }

  /** What lies past the current position is still what the buffer held before. */
  lemma StaleLeft(o: Out, x: Out, stale: seq<byte>, s: seq<byte>, d: Dict)
    requires o.Valid() && |stale| == |o.buf| && stale[o.pos..] == o.buf[o.pos..]
    requires Written(o, x, s, d)
    ensures |stale| == |x.buf| && stale[x.pos..] == x.buf[x.pos..]
  {
    hide Offsets;
    assert stale[x.pos..] == stale[o.pos..][|s|..] == o.buf[o.pos..][|s|..] == o.buf[x.pos..];
  }

  /** Storing the start of a string and passing over the rest leaves what was there. */
  lemma PassOver(b: seq<byte>, pos: nat, head: seq<byte>, skipped: seq<byte>)
    requires pos + |head| + |skipped| <= |b| && b[pos + |head|..pos + |head| + |skipped|] == skipped
    ensures Put(b, pos, head) == Put(b, pos, head + skipped)
  {
    assert b[pos + |head|..] == skipped + b[pos + |head| + |skipped|..];
  }

  lemma StringEmits(o: Out, stale: seq<byte>, d: Dict, t: RecordData)
    requires DictValid(d) && o.Valid() && |o.buf| <= 0x4000 && o.table == Offsets(d) && t.Txt?
    requires |stale| == |o.buf| && stale[o.pos..] == o.buf[o.pos..]
    ensures match AddString(o, t)
            case None => |o.buf| < o.pos + |StringBytes(stale, o.pos, t)|
            case Some(x) =>
              Written(o, x, StringBytes(stale, o.pos, t), d)
              && x.pos == o.pos + |StringBytes(stale, o.pos, t)| && x.table == o.table
  {
    hide Offsets, TxtStart, Put;
    if |o.buf| - o.pos > TxtLength(t) {
      var head := TxtStart(t);
      var i, n := |head|, |t.value|;
      var skipped := StaleBytes(stale, o.pos + i, n);
      assert skipped == stale[o.pos..][i..i + n] == o.buf[o.pos..][i..i + n] == o.buf[o.pos + i..o.pos + i + n];
      PassOver(o.buf, o.pos, head, skipped);
    }
  }

  // ----- What a written record carries

  /** The data at `start` reads back as `data`. */
  ghost predicate CarriesData(m: seq<byte>, start: nat, rdata: seq<byte>, data: RecordData) {
    match data
    case Ptr(name) =>
      NameAt(m, start, Labels(name), 1) && NameEnd(m, start, MAX_FETCHES) == Some(start + |rdata|)
    case Srv(priority, weight, port, target) =>
      6 <= |rdata| && rdata[..6] == SrvBytes(priority, weight, port) && NameAt(m, start + 6, Labels(target), 1)
      && NameEnd(m, start + 6, MAX_FETCHES) == Some(start + |rdata|) && (Labels(target) == [] ==> |rdata| == 7)
    case A(addr) => rdata == addr
    case Aaaa(addr) => rdata == addr
    case Txt(_, _) => true
    case Other(_) => rdata == []
  }

  /** The bytes of `w` are at `at`, and read as the item: its owner name at `at`, ending
      where the fixed header begins, and its data. */
  ghost predicate Carries(m: seq<byte>, at: nat, w: Wire, item: Item) {
    at + |WireBytes(w)| <= |m| && m[at..at + |WireBytes(w)|] == WireBytes(w) && |w.rdata| < 0x1_0000
    && w.rtype == ItemType(item) && w.rclass == item.rec.rclass && w.ttl == item.rec.ttl
    && NameAt(m, at, Labels(item.rec.name), 1) && NameEnd(m, at, MAX_FETCHES) == Some(at + |w.owner|)
    && (if item.Plain? then CarriesData(m, at + |w.owner| + 10, w.rdata, item.rec.data) else IsText(w.rdata, item.strings))
  }

  ghost predicate AllCarried(m: seq<byte>, at: nat, ws: seq<Wire>, items: seq<Item>)
    decreases |ws|
  {
    |ws| == |items|
    && (ws == [] ||
        (Carries(m, at, ws[0], items[0]) && AllCarried(m, at + |WireBytes(ws[0])|, ws[1..], items[1..])))
  }

  lemma CarriesDataStable(m: seq<byte>, c: seq<byte>, start: nat, rdata: seq<byte>, data: RecordData)
    requires m <= c && CarriesData(m, start, rdata, data)
    ensures CarriesData(c, start, rdata, data)
  {
    hide NameAt, NameEnd, Labels;
    match data
    case Ptr(name) =>
      NameStable(m, c, start, Labels(name), 1, 1);
      NameEndStable(m, c, start, MAX_FETCHES);
    case Srv(_, _, _, target) =>
      NameStable(m, c, start + 6, Labels(target), 1, 1);
      NameEndStable(m, c, start + 6, MAX_FETCHES);
    case _ =>
  }

  lemma CarriesStable(m: seq<byte>, c: seq<byte>, at: nat, w: Wire, item: Item)
    requires m <= c && Carries(m, at, w, item)
    ensures Carries(c, at, w, item)
  {
    hide NameAt, NameEnd, Labels, CarriesData, WireBytes, IsText;
    assert c[at..at + |WireBytes(w)|] == m[at..at + |WireBytes(w)|];
    NameStable(m, c, at, Labels(item.rec.name), 1, 1);
    NameEndStable(m, c, at, MAX_FETCHES);
    if item.Plain? {
      CarriesDataStable(m, c, at + |w.owner| + 10, w.rdata, item.rec.data);
    }
  }

  lemma {:induction false} AllCarriedStable(m: seq<byte>, c: seq<byte>, at: nat, ws: seq<Wire>, items: seq<Item>)
    requires m <= c && AllCarried(m, at, ws, items)
    ensures AllCarried(c, at, ws, items)
    decreases |ws|
  {
    hide Carries, WireBytes;
    if ws != [] {
      CarriesStable(m, c, at, ws[0], items[0]);
      AllCarriedStable(m, c, at + |WireBytes(ws[0])|, ws[1..], items[1..]);
    }
  }

  lemma EmitRoot(d: Dict, pos: nat)
    requires DictValid(d)
    ensures EmitName(d, pos, []).0 == [0]
  {
  }

  /** The data of a record, written after the record's own length: it reads back, and leaves
      the dictionary sound. Nothing here depends on what the length is, which is why filling
      it in later makes no difference. */
  lemma DataCarried(m: seq<byte>, d: Dict, data: RecordData, top: Label)
    requires DictValid(d) && DictOk(m, d, top) && GoodData(data, top)
    requires |m| + |EmitData(d, |m|, data).0| <= 0x4000
    ensures var (rdata, d') := EmitData(d, |m|, data);
            CarriesData(m + rdata, |m|, rdata, data) && DictOk(m + rdata, d', top)
  {
    hide EntryOk, EmitName, Labels, SrvBytes, NameAt, NameEnd, DictOk;
    match data
    case Ptr(name) =>
      EmitNameRoundTrip(m, d, Labels(name), top);
    case Srv(priority, weight, port, target) =>
      var sb := SrvBytes(priority, weight, port);
      var named := EmitName(d, |m| + 6, Labels(target)).0;
      DictStable(m, m + sb, d, top);
      EmitNameRoundTrip(m + sb, d, Labels(target), top);
      assert m + (sb + named) == (m + sb) + named;
      EmitRoot(d, |m| + 6);
    case _ =>
      DictStable(m, m + EmitData(d, |m|, data).0, d, top);
  }

  /** A good item carries what it was made from, and leaves the dictionary sound. */
  lemma ItemCarried(m: seq<byte>, stale: seq<byte>, d: Dict, item: Item, top: Label)
    requires DictValid(d) && DictOk(m, d, top) && GoodItem(item, top)
    requires |m| + |WireBytes(EmitItem(stale, d, |m|, item).0)| <= 0x4000
    ensures var (w, d') := EmitItem(stale, d, |m|, item);
            Carries(m + WireBytes(w), |m|, w, item) && DictOk(m + WireBytes(w), d', top)
  {
    hide EntryOk, EmitName, EmitData, Labels, NameAt, NameEnd, DictOk, CarriesData, HeaderBytes, TextBytes, IsText;
    var (owner, d1) := EmitName(d, |m|, Labels(item.rec.name));
    var (w, d') := EmitItem(stale, d, |m|, item);
    EmitNameRoundTrip(m, d, Labels(item.rec.name), top);
    var hb := HeaderBytes(w.rtype, w.rclass, w.ttl, |w.rdata| % 0x1_0000);
    var m1 := m + owner + hb;
    var c := m + WireBytes(w);
    assert c == m1 + w.rdata;
    DictStable(m + owner, m1, d1, top);
    NameStable(m + owner, c, |m|, Labels(item.rec.name), 1, 1);
    NameEndStable(m + owner, c, |m|, MAX_FETCHES);
    if item.Plain? {
      DataCarried(m1, d1, item.rec.data, top);
    } else {
      DictStable(m1, c, d1, top);
      TextIs(stale, |m1|, item.strings);
    }
    assert c[|m|..|m| + |WireBytes(w)|] == WireBytes(w);
  }

  lemma {:induction false} ItemsCarried(m: seq<byte>, stale: seq<byte>, d: Dict, items: seq<Item>, top: Label)
    requires DictValid(d) && DictOk(m, d, top) && ItemsValid(items) && GoodItems(items, top)
    requires |m| + |WiresBytes(EmitItems(stale, d, |m|, items).0)| <= 0x4000
    ensures var (ws, d') := EmitItems(stale, d, |m|, items);
            AllCarried(m + WiresBytes(ws), |m|, ws, items) && DictOk(m + WiresBytes(ws), d', top)
    decreases |items|
  {
    hide EmitItem, DictOk, Carries, WireBytes, GoodItem;
    if items == [] {
      assert m + [] == m;
    } else {
      assert GoodItem(items[0], top);
      var (w, d1) := EmitItem(stale, d, |m|, items[0]);
      var (ws, d2) := EmitItems(stale, d1, |m| + |WireBytes(w)|, items[1..]);
      assert ([w] + ws)[1..] == ws;
      ItemCarried(m, stale, d, items[0], top);
      var m1 := m + WireBytes(w);
      var c := m + WiresBytes([w] + ws);
      assert c == m1 + WiresBytes(ws);
      ItemsCarried(m1, stale, d1, items[1..], top);
      CarriesStable(m1, c, |m|, w, items[0]);
    }
  }

  // ----- Items

  /** Filling in the length makes the bytes of the wire form. */
  lemma PatchEmits(o: Out, x: Out, w: Wire, d: Dict)
    requires Written(o, x, w.owner + HeaderBytes(w.rtype, w.rclass, w.ttl, 0) + w.rdata, d) && x.Valid()
    ensures Written(o, PatchLength(x, o.pos + |w.owner| + 10), WireBytes(w), d)
  {
    hide Offsets, Put;
    var fixed := Be16(w.rtype) + Be16(w.rclass) + Be32(w.ttl);
    var s := w.owner + fixed;
    assert w.owner + HeaderBytes(w.rtype, w.rclass, w.ttl, 0) + w.rdata == s + Be16(0) + w.rdata;
    assert WireBytes(w) == s + Be16(|w.rdata| % 0x1_0000) + w.rdata;
    PutPatch(o.buf, o.pos, s, Be16(0), Be16(|w.rdata| % 0x1_0000), w.rdata);
  }

  /** Writing an item writes exactly its wire form, and fails exactly when that does not fit. */
  lemma ItemEmits(o: Out, stale: seq<byte>, d: Dict, item: Item, top: Label)
    requires DictValid(d) && o.Valid() && |o.buf| <= 0x4000 && o.table == Offsets(d)
    requires DictOk(o.buf[..o.pos], d, top) && GoodItem(item, top)
    requires |stale| == |o.buf| && stale[o.pos..] == o.buf[o.pos..]
    ensures var (w, d') := EmitItem(stale, d, o.pos, item);
            match AddItem(o, item)
            case None => |o.buf| < o.pos + |WireBytes(w)|
            case Some(x) => Written(o, x, WireBytes(w), d')
  {
    hide EntryOk, EmitName, EmitData, Labels, DictOk, HeaderBytes, TextBytes, AddHeader, AddData, AddStrings, GoodName,
      GoodData, PatchLength, Put, Offsets, WireBytes;
    var (owner, d1) := EmitName(d, o.pos, Labels(item.rec.name));
    var (w, d') := EmitItem(stale, d, o.pos, item);
    HeaderEmits(o, d, item.rec, top);
    var h := AddHeader(o, item.rec);
    if h.Some? {
      var head := owner + HeaderBytes(w.rtype, w.rclass, w.ttl, 0);
      WrittenPrefix(o, h.value, head, d1);
      DictStable(o.buf[..o.pos] + owner, h.value.buf[..h.value.pos], d1, top);
      if item.Plain? {
        DataEmits(h.value, d1, item.rec.data, top);
      } else {
        StaleLeft(o, h.value, stale, head, d1);
        StringsEmit(h.value, stale, d1, item.strings);
      }
      var x := if item.Plain? then AddData(h.value, item.rec.data) else AddStrings(h.value, item.strings);
      if x.Some? {
        WrittenAppend(o, h.value, x.value, head, w.rdata, d1, d');
        PatchEmits(o, x.value, w, d');
      }
    }
  }

  /** The same for a list of items. */
  lemma {:induction false} ItemsEmit(o: Out, stale: seq<byte>, d: Dict, items: seq<Item>, top: Label)
    requires DictValid(d) && o.Valid() && |o.buf| <= 0x4000 && o.table == Offsets(d)
    requires DictOk(o.buf[..o.pos], d, top) && ItemsValid(items) && GoodItems(items, top)
    requires |stale| == |o.buf| && stale[o.pos..] == o.buf[o.pos..]
    ensures var (ws, d') := EmitItems(stale, d, o.pos, items);
            match AddItems(Some(o), items)
            case None => |o.buf| < o.pos + |WiresBytes(ws)|
            case Some(x) => Written(o, x, WiresBytes(ws), d')
    decreases |items|
  {
    hide EmitItem, AddItem, DictOk, GoodItem, Written, WireBytes;
    if items == [] {
      NothingWritten(o, d);
    } else {
      assert GoodItem(items[0], top);
      var (w, d1) := EmitItem(stale, d, o.pos, items[0]);
      var (ws, d2) := EmitItems(stale, d1, o.pos + |WireBytes(w)|, items[1..]);
      assert ([w] + ws)[1..] == ws;
      ItemEmits(o, stale, d, items[0], top);
      var x := AddItem(o, items[0]);
      if x.Some? {
        ItemsStep(o, x.value, stale, d, items, top);
        ItemsEmit(x.value, stale, d1, items[1..], top);
        var y := AddItems(x, items[1..]);
        if y.Some? {
          WrittenAppend(o, x.value, y.value, WireBytes(w), WiresBytes(ws), d1, d2);
        }
      }
    }
  }

  lemma ItemsStep(o: Out, x: Out, stale: seq<byte>, d: Dict, items: seq<Item>, top: Label)
    requires DictValid(d) && o.Valid() && |o.buf| <= 0x4000 && items != []
    requires DictOk(o.buf[..o.pos], d, top) && ItemsValid(items) && GoodItems(items, top)
    requires |stale| == |o.buf| && stale[o.pos..] == o.buf[o.pos..]
    requires var (w, d1) := EmitItem(stale, d, o.pos, items[0]); Written(o, x, WireBytes(w), d1)
    ensures var (w, d1) := EmitItem(stale, d, o.pos, items[0]);
            x.table == Offsets(d1) && x.pos == o.pos + |WireBytes(w)| && |x.buf| == |o.buf|
            && x.Valid() && DictOk(x.buf[..x.pos], d1, top) && stale[x.pos..] == x.buf[x.pos..]
            && ItemsValid(items[1..]) && GoodItems(items[1..], top)
  {
    hide EmitItem, DictOk, GoodItem, WireBytes, EntryOk;
    var (w, d1) := EmitItem(stale, d, o.pos, items[0]);
    assert GoodItem(items[0], top);
    WrittenPrefix(o, x, WireBytes(w), d1);
    StaleLeft(o, x, stale, WireBytes(w), d1);
    ItemCarried(o.buf[..o.pos], stale, d, items[0], top);
    OffsetsValid(d1);
  }

  lemma OffsetsValid(d: Dict)
    requires DictValid(d)
    ensures Offsets(d).Some? ==> Offsets(d).value.Valid()
  {
  }
}
