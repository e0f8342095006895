/** What the name codec promises: round trip, stability, size, and exactly when a
    name written against a table reads back. */
module NameTheorems {
  import opened Bytes
  import opened NameReader
  import opened StringTables
  import opened NameWriter
  import opened NameCodec

  // ----- Text and labels

  /** A name without a dot at its very end once one dot has been taken off. */
  predicate WellEnded(name: NameText) {
    Stripped(name) != [] && Stripped(name)[|Stripped(name)| - 1] != DOT
  }

  lemma {:induction false} DottedSplit(str: seq<byte>, at: nat)
    requires at < |str| && str[|str| - 1] != DOT
    ensures Dotted(SplitFrom(str, at)) == str[at..] + [DOT]
    decreases |str| - at
  {
    hide StringFind, LabelEnd, SplitFrom;
    var e, ls := LabelEnd(str, at), SplitFrom(str, at);
    SplitStep(str, at);
    assert Dotted(ls) == str[at..e] + [DOT] + Dotted(ls[1..]);
    if e < |str| {
      DottedSplit(str, e + 1);
      assert str[at..e] + [DOT] + (str[e + 1..] + [DOT]) == str[at..] + [DOT];
    } else {
      assert Dotted([]) == [];
    }
  }

  lemma SplitStep(str: seq<byte>, at: nat)
    requires at < |str|
    ensures var ls := SplitFrom(str, at);
            ls != [] && ls[0] == str[at..LabelEnd(str, at)] && ls[1..] == SplitFrom(str, LabelEnd(str, at) + 1)
    ensures LabelEnd(str, at) < |str| ==> str[LabelEnd(str, at)] == DOT
    ensures LabelEnd(str, at) == |str| ==> SplitFrom(str, at)[1..] == []
  {
  }

  /** The text of a name's labels is the name with one dot at its end. */
  lemma DottedLabels(name: NameText)
    requires WellEnded(name)
    ensures Dotted(Labels(name)) == Stripped(name) + [DOT]
  {
    DottedSplit(Stripped(name), 0);
  }

  /** Dotless nonempty labels are recovered from their text. */
  lemma {:induction false} LabelsOfDotted(ls: seq<Label>)
    requires forall l :: l in ls ==> l != [] && DOT !in l
    requires ls != []
    ensures Labels(Dotted(ls)) == ls
  {
    var t := Dotted(ls);
    DottedEnds(ls);
    assert Stripped(t) == t[..|t| - 1];
    SplitDotted([], ls);
    assert [] + t[..|t| - 1] == t[..|t| - 1];
  }

  lemma {:induction false} DottedEnds(ls: seq<Label>)
    requires ls != []
    ensures |Dotted(ls)| > |ls[0]| && Dotted(ls)[|Dotted(ls)| - 1] == DOT
  {
    if |ls| > 1 {
      DottedEnds(ls[1..]);
    } else {
      assert ls[1..] == [];
    }
  }

  /** One label, a dot, and what follows: the text left after `before` begins with that label. */
  lemma SplitFirst(before: seq<byte>, l: Label, after: seq<byte>)
    requires l != [] && DOT !in l && (after != [] ==> after[0] == DOT)
    ensures SplitFrom(before + l + after, |before|)
         == [l] + SplitFrom(before + l + after, |before| + |l| + 1)
  {
    hide StringFind, LabelEnd;
    var s := before + l + after;
    assert s[|before|..|before| + |l|] == l;
    LabelEndIs(s, |before|, |before| + |l|);
    SplitStep(s, |before|);
  }

  lemma {:induction false} SplitDotted(before: seq<byte>, ls: seq<Label>)
    requires forall l :: l in ls ==> l != [] && DOT !in l
    requires ls != []
    ensures SplitFrom(before + Dotted(ls)[..|Dotted(ls)| - 1], |before|) == ls
    decreases |ls|
  {
    hide SplitFrom;
    var t, l := Dotted(ls), ls[0];
    assert l in ls;
    if |ls| > 1 {
      var u := Dotted(ls[1..]);
      DottedEnds(ls[1..]);
      assert before + t[..|t| - 1] == before + l + ([DOT] + u[..|u| - 1])
          == (before + (l + [DOT])) + u[..|u| - 1];
      SplitFirst(before, l, [DOT] + u[..|u| - 1]);
      assert forall k :: k in ls[1..] ==> k in ls;
      SplitDotted(before + (l + [DOT]), ls[1..]);
    } else {
      assert ls[1..] == [] && Dotted([]) == [];
      assert before + t[..|t| - 1] == before + l + [];
      SplitFirst(before, l, []);
      SplitNothing(before + l + [], |before| + |l| + 1);
    }
  }

  lemma LabelEndIs(str: seq<byte>, at: nat, e: nat)
    requires at < e <= |str| && DOT !in str[at..e] && (e < |str| ==> str[e] == DOT)
    ensures LabelEnd(str, at) == e
  {
    hide StringFind, LabelEnd;
    var f := LabelEnd(str, at);
    assert forall i :: at <= i < e ==> str[i] == str[at..e][i - at];
    assert forall i :: at <= i < f ==> str[i] == str[at..f][i - at];
  }

  // ----- Size

  /** How many bytes a name takes with no back-pointers. */
  function PlainSize(ls: seq<Label>): (n: nat)
    ensures n >= 1
  {
    if ls == [] then 1 else |ls[0]| + 1 + PlainSize(ls[1..])
  }

  /** No hypothesis on labels or table: writing never takes more room than the plain form,
      and never fails when that much remains. */
  lemma {:induction false} MakeNameFits(o: Out, ls: seq<Label>)
    requires o.Valid() && o.pos + PlainSize(ls) <= |o.buf|
    ensures MakeName(o, ls).Some? && MakeName(o, ls).value.pos <= o.pos + PlainSize(ls)
    decreases |ls|
  {
    hide Lookup;
    if ls != [] && Lookup(o.buf, o.table, ls).None? {
      MakeNameFits(LabelWritten(o, ls[0]), ls[1..]);
    }
  }

  lemma {:induction false} PlainSizeOfSplit(str: seq<byte>, at: nat)
    ensures PlainSize(SplitFrom(str, at)) <= if at < |str| then |str| - at + 2 else 1
    decreases |str| - at
  {
    hide StringFind;
    if at < |str| {
      SplitStep(str, at);
      PlainSizeOfSplit(str, LabelEnd(str, at) + 1);
    }
  }

  /** A name takes at most two bytes more than its text without the final dot. */
  lemma NameFits(o: Out, name: NameText)
    requires o.Valid() && o.pos + |Stripped(name)| + 2 <= |o.buf|
    ensures MakeName(o, Labels(name)).Some?
            && MakeName(o, Labels(name)).value.pos <= o.pos + |Stripped(name)| + 2
  {
    PlainSizeOfSplit(Stripped(name), 0);
    MakeNameFits(o, Labels(name));
  }

  lemma {:induction false} EmitNameSize(d: Dict, pos: nat, ls: seq<Label>)
    requires DictValid(d)
    ensures |EmitName(d, pos, ls).0| <= PlainSize(ls)
    ensures d.None? ==> |EmitName(d, pos, ls).0| == PlainSize(ls)
    decreases |ls|
  {
    if ls != [] && Find(d, ls).None? {
      EmitNameSize(AddTo(d, Entry(pos, ls)), pos + |ls[0]| + 1, ls[1..]);
    }
  }

  // ----- Where a written name ends

  lemma {:induction false} EmitNameEnds(m: seq<byte>, d: Dict, ls: seq<Label>, top: Label, fetches: nat)
    requires LabelShape(ls) && (d.Some? ==> GoodName(ls, top)) && |ls| < fetches
    requires MidName(m, d, top, ls)
    requires d.Some? ==> |m| + |EmitName(d, |m|, ls).0| <= 0x4000
    ensures NameEnd(m + EmitName(d, |m|, ls).0, |m|, fetches) == Some(|m| + |EmitName(d, |m|, ls).0|)
    decreases |ls|
  {
    hide NameEnd, EntryOk, Pending, GoodName, LabelShape, RefBytes, LabelBytes;
    if ls == [] {
      RootEnds(m, fetches);
    } else if Find(d, ls).Some? {
      EmitRefEnds(m, d, ls, top, fetches);
    } else {
      EmitLabelEnds(m, d, ls, top, fetches);
    }
  }

  lemma RootEnds(m: seq<byte>, fetches: nat)
    requires fetches > 0
    ensures NameEnd(m + [0], |m|, fetches) == Some(|m| + 1)
  {
    assert (m + [0])[|m|] == 0;
  }

  /** Skipping a written label is skipping what follows it. */
  lemma NameEndOverLabel(m: seq<byte>, at: nat, l: Label, fetches: nat)
    requires DirectLabel(m, at, l) && fetches > 0
    ensures NameEnd(m, at, fetches) == NameEnd(m, at + |l| + 1, fetches - 1)
  {
    FetchDirect(m, at, l, MAX_JUMPS);
    hide Fetch, LabelBytes;
  }

  lemma EmitRefEnds(m: seq<byte>, d: Dict, ls: seq<Label>, top: Label, fetches: nat)
    requires GoodName(ls, top) && ls != [] && MidName(m, d, top, ls) && |m| + 2 <= 0x4000 && fetches > 0
    requires Find(d, ls).Some?
    ensures NameEnd(m + RefBytes(Find(d, ls).value.at), |m|, fetches) == Some(|m| + 2)
  {
    var en := Find(d, ls).value;
    var c := m + RefBytes(en.at);
    assert ls[0] in ls;
    assert EntryOk(m, en, top);
    EntryStable(m, c, en, top);
    assert c[|m|..|m| + 2] == RefBytes(en.at);
    FetchRef(c, |m|, en.at, ls[0], MAX_JUMPS);
  }

  lemma EmitLabelEnds(m: seq<byte>, d: Dict, ls: seq<Label>, top: Label, fetches: nat)
    requires DictValid(d) && LabelShape(ls) && (d.Some? ==> GoodName(ls, top)) && ls != [] && |ls| < fetches
    requires MidName(m, d, top, ls)
    requires d.Some? ==> |m| + |ls[0]| + 1 + |EmitName(AddTo(d, Entry(|m|, ls)), |m| + |ls[0]| + 1, ls[1..]).0| <= 0x4000
    ensures var rest := EmitName(AddTo(d, Entry(|m|, ls)), |m| + |ls[0]| + 1, ls[1..]).0;
            NameEnd(m + (LabelBytes(ls[0]) + rest), |m|, fetches) == Some(|m| + |ls[0]| + 1 + |rest|)
    decreases |ls|, 0
  {
    hide NameEnd, MidName, GoodName, LabelBytes, AddTo, EmitName;
    var d1 := AddTo(d, Entry(|m|, ls));
    var m1 := m + LabelBytes(ls[0]);
    var rest := EmitName(d1, |m1|, ls[1..]).0;
    var c := m + (LabelBytes(ls[0]) + rest);
    assert c == m1 + rest;
    MidNameStep(m, d, top, ls);
    if d.Some? {
      GoodTail(ls, top);
    }
    EmitNameEnds(m1, d1, ls[1..], top, fetches - 1);
    assert ls[0] in ls;
    assert c[|m|..|m| + |ls[0]| + 1] == LabelBytes(ls[0]);
    NameEndOverLabel(c, |m|, ls[0], fetches);
  }

  // ----- Round trip against any sound table

  /** The labels an offset of the table stands for. */
  function EntryAt(m: seq<byte>, e: nat): (en: Entry) {
    match ReadName(m, e, MAX_FETCHES)
    case None => Entry(e, [])
    case Some(ls) => Entry(e, ls)
  }

  /** Every offset in the table is a label written in the message so far, with a good name from there on. */
  ghost predicate TableOk(o: Out, top: Label) {
    o.Valid()
    && (o.table.Some? ==>
          forall e :: e in o.table.value.slots ==> EntryOk(o.buf[..o.pos], EntryAt(o.buf[..o.pos], e), top))
  }

  ghost function DictOf(m: seq<byte>, table: Option<Ring<nat>>): (d: Dict)
    ensures d.Some? == table.Some?
  {
    if table.None? then None
    else
      var slots := table.value.slots;
      Some(Ring(seq(|slots|, i requires 0 <= i < |slots| => EntryAt(m, slots[i])), table.value.next))
  }

  lemma TableDict(o: Out, top: Label)
    requires TableOk(o, top)
    ensures Offsets(DictOf(o.buf[..o.pos], o.table)) == o.table
    ensures DictOk(o.buf[..o.pos], DictOf(o.buf[..o.pos], o.table), top)
  {
    var d := DictOf(o.buf[..o.pos], o.table);
    if o.table.Some? {
      assert AtOf(d.value.slots) == o.table.value.slots;
      forall en | en in d.value.slots ensures EntryOk(o.buf[..o.pos], en, top) {
        var i :| 0 <= i < |d.value.slots| && d.value.slots[i] == en;
        assert o.table.value.slots[i] in o.table.value.slots;
      }
    }
  }

  lemma EntryAtIs(m: seq<byte>, en: Entry, top: Label)
    requires EntryOk(m, en, top)
    ensures EntryAt(m, en.at) == en
  {
    NameStable(m, m, en.at, en.labels, 1, MAX_JUMPS);
    ReadNameExact(m, en.at, en.labels, MAX_FETCHES);
  }

  lemma DictTable(o: Out, d: Dict, top: Label)
    requires o.Valid() && o.table == Offsets(d) && DictOk(o.buf[..o.pos], d, top)
    ensures TableOk(o, top)
  {
    if o.table.Some? {
      forall e | e in o.table.value.slots ensures EntryOk(o.buf[..o.pos], EntryAt(o.buf[..o.pos], e), top) {
        var i :| 0 <= i < |o.table.value.slots| && o.table.value.slots[i] == e;
        assert d.value.slots[i] in d.value.slots;
        EntryAtIs(o.buf[..o.pos], d.value.slots[i], top);
      }
    }
  }

  /** The part of a written name that does not mention the table: it reads back, and ends where it ends. */
  lemma EmitNameRoundTrip(m: seq<byte>, d: Dict, ls: seq<Label>, top: Label)
    requires LabelShape(ls) && (d.Some? ==> GoodName(ls, top)) && DictOk(m, d, top)
    requires d.Some? ==> |m| + |EmitName(d, |m|, ls).0| <= 0x4000
    ensures var (bytes, d') := EmitName(d, |m|, ls);
            NameAt(m + bytes, |m|, ls, 1)
            && NameEnd(m + bytes, |m|, MAX_FETCHES) == Some(|m| + |bytes|)
            && DictOk(m + bytes, d', top)
  {
    EmitNameReads(m, d, ls, top);
    EmitNameEnds(m, d, ls, top, MAX_FETCHES);
    var (bytes, d') := EmitName(d, |m|, ls);
    if d'.Some? {
      forall en | en in d'.value.slots ensures EntryOk(m + bytes, en, top) {
        if !EntryOk(m + bytes, en, top) {
          EntryStable(m, m + bytes, en, top);
        }
      }
    }
  }

  /** The round trip of one name written by the writer: reading it in the message so far
      gives back its labels and text, skipping it ends where writing ended, at most one
      jump is needed per label, the table stays sound, and nothing before the name or
      past its end has changed. */
  lemma NameRoundTrip(o: Out, name: NameText, top: Label)
    requires TableOk(o, top) && (o.table.Some? ==> |o.buf| <= 0x4000)
    requires LabelShape(Labels(name)) && (o.table.Some? ==> GoodName(Labels(name), top))
    requires MakeName(o, Labels(name)).Some?
    ensures var o' := MakeName(o, Labels(name)).value;
            var m' := o'.buf[..o'.pos];
            ReadName(m', o.pos, MAX_FETCHES) == Some(Labels(name))
            && (WellEnded(name) ==> Dotted(Labels(name)) == Stripped(name) + [DOT])
            && NameEnd(m', o.pos, MAX_FETCHES) == Some(o'.pos)
            && NameAt(m', o.pos, Labels(name), 1)
            && TableOk(o', top)
            && o.buf[..o.pos] <= m' && o'.buf[o'.pos..] == o.buf[o'.pos..]
  {
    hide Fetch, ReadName, NameAt, NameEnd, EntryOk, EmitName, MakeName, Offsets, DictOf, Dotted, GoodName, Labels;
    var m, ls := o.buf[..o.pos], Labels(name);
    var d := DictOf(m, o.table);
    TableDict(o, top);
    MakeNameEmits(o, d, ls, top);
    var o' := MakeName(o, ls).value;
    var (bytes, d') := EmitName(d, o.pos, ls);
    PutPrefix(o.buf, o.pos, bytes);
    EmitNameRoundTrip(m, d, ls, top);
    NameStable(m + bytes, m + bytes, o.pos, ls, 1, MAX_JUMPS);
    ReadNameExact(m + bytes, o.pos, ls, MAX_FETCHES);
    DictTable(o', d', top);
    if WellEnded(name) {
      DottedLabels(name);
    }
  }

  // ----- Where back-pointers go

  function WireLabels(ls: seq<Label>): (s: seq<byte>) {
    if ls == [] then [] else LabelBytes(ls[0]) + WireLabels(ls[1..])
  }

  /** `bytes` are the first `k` labels in full, then the terminator, or one back-pointer to an
      entry of `d` that stands for the remaining labels. */
  ghost predicate NameShape(d: Dict, bytes: seq<byte>, ls: seq<Label>, k: nat) {
    k <= |ls|
    && ((k == |ls| && bytes == WireLabels(ls) + [0])
        || (k < |ls| && d.Some?
            && exists en :: en in d.value.slots && en.labels == ls[k..] && bytes == WireLabels(ls[..k]) + RefBytes(en.at)))
  }

  lemma ShapeCons(d: Dict, l: Label, rest: seq<byte>, ls: seq<Label>, k: nat)
    requires ls != [] && ls[0] == l && NameShape(d, rest, ls[1..], k)
    ensures NameShape(d, LabelBytes(l) + rest, ls, k + 1)
  {
    assert ls[..k + 1][1..] == ls[1..][..k] && ls[k + 1..] == ls[1..][k..];
    assert WireLabels(ls[..k + 1]) == LabelBytes(l) + WireLabels(ls[1..][..k]);
    if k < |ls| - 1 {
      var en :| en in d.value.slots && en.labels == ls[1..][k..] && rest == WireLabels(ls[1..][..k]) + RefBytes(en.at);
      assert LabelBytes(l) + rest == WireLabels(ls[..k + 1]) + RefBytes(en.at);
    } else {
      assert LabelBytes(l) + (WireLabels(ls[1..]) + [0]) == WireLabels(ls) + [0];
    }
  }

  /** A written name is some of its labels in full, then either its terminator or one
      back-pointer to a name that was in the dictionary before this name was begun. */
  lemma {:induction false} EmitNameShape(d: Dict, pos: nat, ls: seq<Label>)
    requires DictValid(d)
    ensures exists k: nat :: NameShape(d, EmitName(d, pos, ls).0, ls, k)
    decreases |ls|
  {
    hide LabelBytes, RefBytes, NameShape;
    var bytes := EmitName(d, pos, ls).0;
    if ls == [] {
      ShapeNow(d, bytes, ls);
      assert NameShape(d, bytes, ls, 0);
    } else if Find(d, ls).Some? {
      ShapeNow(d, bytes, ls);
      assert NameShape(d, bytes, ls, 0);
    } else {
      var own := Entry(pos, ls);
      var rest := EmitName(AddTo(d, own), pos + |ls[0]| + 1, ls[1..]).0;
      EmitNameShape(AddTo(d, own), pos + |ls[0]| + 1, ls[1..]);
      var k: nat :| NameShape(AddTo(d, own), rest, ls[1..], k);
      ShapeOfOlder(d, own, rest, ls[1..], k);
      ShapeCons(d, ls[0], rest, ls, k);
    }
  }

  /** The shape of what is written once no further label is. */
  lemma ShapeNow(d: Dict, bytes: seq<byte>, ls: seq<Label>)
    requires if ls == [] then bytes == [0] else Find(d, ls).Some? && bytes == RefBytes(Find(d, ls).value.at)
    ensures NameShape(d, bytes, ls, 0)
  {
    assert ls[0..] == ls && WireLabels(ls[..0]) + bytes == bytes;
  }

  /** An entry for a longer name is not what a back-pointer of this name can mean. */
  lemma ShapeOfOlder(d: Dict, own: Entry, bytes: seq<byte>, ls: seq<Label>, k: nat)
    requires DictValid(d) && |own.labels| > |ls| && NameShape(AddTo(d, own), bytes, ls, k)
    ensures NameShape(d, bytes, ls, k)
  {
    if k < |ls| {
      var en :| en in AddTo(d, own).value.slots && en.labels == ls[k..] && bytes == WireLabels(ls[..k]) + RefBytes(en.at);
      assert en in d.value.slots;
    }
  }

  /** `written` is the first `k` labels in full, then the terminator, or one back-pointer to a
      slot whose label is written out, whole, in `m`, and reads there as the remaining labels
      with at most one jump for each. */
  ghost predicate GoesBack(m: seq<byte>, slots: seq<nat>, written: seq<byte>, ls: seq<Label>, k: nat) {
    k <= |ls|
    && ((k == |ls| && written == WireLabels(ls) + [0])
        || (k < |ls|
            && exists e :: e in slots && e + |ls[k]| < |m| && DirectLabel(m, e, ls[k]) && NameAt(m, e, ls[k..], 1)
                           && written == WireLabels(ls[..k]) + RefBytes(e)))
  }

  /** In a message with a sound table, a written name is some of its labels in full and then
      either its terminator or one back-pointer, and the back-pointer goes to an offset the
      table held before the name was begun, to a label written out before this name starts. */
  lemma PointersGoBack(o: Out, ls: seq<Label>, top: Label)
    requires TableOk(o, top) && o.table.Some? && |o.buf| <= 0x4000 && GoodName(ls, top)
    requires MakeName(o, ls).Some?
    ensures var o' := MakeName(o, ls).value;
            exists k: nat :: GoesBack(o.buf[..o.pos], o.table.value.slots, o'.buf[o.pos..o'.pos], ls, k)
  {
    hide EmitName, MakeName, EntryOk, DictOf, GoodName, LabelBytes, RefBytes, WireLabels, NameShape, GoesBack, NameAt, DirectLabel;
    var m := o.buf[..o.pos];
    var d := DictOf(m, o.table);
    TableDict(o, top);
    MakeNameEmits(o, d, ls, top);
    var bytes := EmitName(d, o.pos, ls).0;
    EmitNameShape(d, o.pos, ls);
    var k: nat :| NameShape(d, bytes, ls, k);
    assert MakeName(o, ls).value.buf[o.pos..o.pos + |bytes|] == bytes;
    ShapeGoesBack(m, o.table, top, bytes, ls, k);
  }

  lemma ShapeGoesBack(m: seq<byte>, table: Option<Ring<nat>>, top: Label, bytes: seq<byte>, ls: seq<Label>, k: nat)
    requires table.Some? && DictOk(m, DictOf(m, table), top) && NameShape(DictOf(m, table), bytes, ls, k)
    ensures GoesBack(m, table.value.slots, bytes, ls, k)
  {
    hide DictOf, NameAt, LabelBytes, RefBytes, WireLabels;
    if k < |ls| {
      var en :| en in DictOf(m, table).value.slots && en.labels == ls[k..] && bytes == WireLabels(ls[..k]) + RefBytes(en.at);
      SlotIsEntry(m, table, en);
      EntryIsWritten(m, en, top);
    }
  }

  lemma SlotIsEntry(m: seq<byte>, table: Option<Ring<nat>>, en: Entry)
    requires table.Some? && en in DictOf(m, table).value.slots
    ensures en.at in table.value.slots
  {
    var i :| 0 <= i < |table.value.slots| && DictOf(m, table).value.slots[i] == en;
    assert EntryAt(m, table.value.slots[i]).at == table.value.slots[i];
  }

  lemma EntryIsWritten(m: seq<byte>, en: Entry, top: Label)
    requires EntryOk(m, en, top)
    ensures DirectLabel(m, en.at, en.labels[0]) && NameAt(m, en.at, en.labels, 1)
    ensures en.at + |en.labels[0]| < |m|
  {
  }
}
