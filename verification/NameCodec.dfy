/** What the name writer writes, said without a buffer: a dictionary of the names
    written so far decides which suffix becomes a back-pointer. The writer refines
    this, and the reader inverts it. */
module NameCodec {
  import opened Bytes
  import opened NameReader
  import opened StringTables
  import opened NameWriter

  /** A name written earlier, or a suffix of one, and where its first label is. */
  datatype Entry = Entry(at: nat, labels: seq<Label>)

  type Dict = Option<Ring<Entry>>

  function FindEntry(slots: seq<Entry>, ls: seq<Label>): (r: Option<Entry>)
    ensures r.Some? ==> r.value in slots && r.value.labels == ls
    ensures r.None? ==> forall en :: en in slots ==> en.labels != ls
  {
    if slots == [] then None
    else if slots[0].labels == ls then Some(slots[0])
    else FindEntry(slots[1..], ls)
  }

  function Find(d: Dict, ls: seq<Label>): (r: Option<Entry>)
    ensures r.Some? ==> d.Some? && r.value in d.value.slots && r.value.labels == ls
  {
    if d.None? then None else FindEntry(d.value.slots, ls)
  }

  ghost predicate DictValid(d: Dict) {
    d.Some? ==> d.value.Valid()
  }

  /** The bytes of a name written at `pos`, and the dictionary after it. */
  ghost function EmitName(d: Dict, pos: nat, ls: seq<Label>): (r: (seq<byte>, Dict))
    requires DictValid(d)
    ensures |r.0| > 0 && DictValid(r.1) && r.1.Some? == d.Some?
    decreases |ls|
  {
    if ls == [] then ([0], d)
    else if Find(d, ls).Some? then (RefBytes(Find(d, ls).value.at), d)
    else
      var rest := EmitName(AddTo(d, Entry(pos, ls)), pos + |ls[0]| + 1, ls[1..]);
      (LabelBytes(ls[0]) + rest.0, rest.1)
  }

  // ----- The hypotheses on names

  /** Section 2.3.4 of RFC 1035. */
  predicate LabelShape(ls: seq<Label>) {
    |ls| < MAX_FETCHES && forall l :: l in ls ==> 1 <= |l| <= 63
  }

  /** The labels from `i` to `j` come again right after `j`. */
  predicate Twice(ls: seq<Label>, i: nat, j: nat) {
    i < j && 2 * j - i <= |ls| && forall k :: i <= k < j ==> ls[k] == ls[k + j - i]
  }

  predicate NoRun(ls: seq<Label>) {
    forall i, j :: 0 <= i < j < |ls| ==> !Twice(ls, i, j)
  }

  predicate LastOnce(ls: seq<Label>) {
    forall k :: 0 <= k < |ls| - 1 ==> ls[k] != ls[|ls| - 1]
  }

  /** No run of labels is repeated on the spot, and the last label, `top`, is nowhere else in the name. */
  predicate GoodName(ls: seq<Label>, top: Label) {
    LabelShape(ls) && NoRun(ls) && LastOnce(ls) && (ls != [] ==> ls[|ls| - 1] == top)
  }

  lemma TwiceInTail(ls: seq<Label>, i: nat, j: nat)
    requires ls != []
    ensures Twice(ls[1..], i, j) ==> Twice(ls, i + 1, j + 1)
  {
    assert forall k :: 0 < k < |ls| ==> ls[k] == ls[1..][k - 1];
  }

  lemma GoodTail(ls: seq<Label>, top: Label)
    requires GoodName(ls, top) && ls != []
    ensures GoodName(ls[1..], top)
  {
    forall i, j | 0 <= i < j < |ls| - 1 ensures !Twice(ls[1..], i, j) {
      TwiceInTail(ls, i, j);
    }
    assert forall l :: l in ls[1..] ==> l in ls;
  }

  /** Labels that all differ repeat nothing. */
  lemma DistinctHasNoRun(ls: seq<Label>)
    requires forall i, j :: 0 <= i < j < |ls| ==> ls[i] != ls[j]
    ensures NoRun(ls) && LastOnce(ls)
  {
    forall i, j | 0 <= i < j < |ls| ensures !Twice(ls, i, j) {
      assert ls[i] != ls[i + j - i];
    }
  }

  /** A label written out at `at`, not a back-pointer to one. */
  ghost predicate DirectLabel(m: seq<byte>, at: nat, l: Label) {
    1 <= |l| <= 63 && at + |l| + 1 <= |m| && m[at..at + |l| + 1] == LabelBytes(l)
  }

  /** The entry is a label written out in `m` with the rest of its name after it, readable
      with at most one jump per label. */
  ghost predicate EntryOk(m: seq<byte>, en: Entry, top: Label) {
    GoodName(en.labels, top) && en.labels != []
    && DirectLabel(m, en.at, en.labels[0]) && NameAt(m, en.at, en.labels, 1)
  }

  ghost predicate DictOk(m: seq<byte>, d: Dict, top: Label) {
    DictValid(d) && (d.Some? ==> forall en :: en in d.value.slots ==> EntryOk(m, en, top))
  }

  /** The labels `ws` are written out one after another from `at` to `end`. */
  ghost predicate Run(m: seq<byte>, at: nat, ws: seq<Label>, end: nat)
    decreases |ws|
  {
    if ws == [] then at == end
    else DirectLabel(m, at, ws[0]) && Run(m, at + |ws[0]| + 1, ws[1..], end)
  }

  /** An entry of the name being written, of which `ls` is still to come: the labels before
      that are written out up to the end of `m`. */
  ghost predicate Pending(m: seq<byte>, en: Entry, top: Label, ls: seq<Label>) {
    GoodName(en.labels, top) && |ls| < |en.labels|
    && var k := |en.labels| - |ls|; ls == en.labels[k..] && Run(m, en.at, en.labels[..k], |m|)
  }

  ghost predicate MidName(m: seq<byte>, d: Dict, top: Label, ls: seq<Label>) {
    DictValid(d)
    && (d.Some? ==> forall en :: en in d.value.slots ==> EntryOk(m, en, top) || Pending(m, en, top, ls))
  }

  // ----- Reading what was written

  lemma FetchDirect(m: seq<byte>, at: nat, l: Label, jumps: nat)
    requires DirectLabel(m, at, l)
    ensures Fetch(m, at, jumps) == At(at + 1, |l|, false)
    ensures m[at + 1..at + 1 + |l|] == l
    ensures m[at] == |l| < 0xC0
  {
    assert m[at] == m[at..at + |l| + 1][0];
    assert m[at + 1..at + 1 + |l|] == m[at..at + |l| + 1][1..];
  }

  lemma DirectStable(m: seq<byte>, c: seq<byte>, at: nat, l: Label)
    requires m <= c && DirectLabel(m, at, l)
    ensures DirectLabel(c, at, l)
  {
    assert c[at..at + |l| + 1] == m[at..at + |l| + 1];
  }

  lemma {:induction false} RunStable(m: seq<byte>, c: seq<byte>, at: nat, ws: seq<Label>, end: nat)
    requires m <= c && Run(m, at, ws, end)
    ensures Run(c, at, ws, end)
    decreases |ws|
  {
    if ws != [] {
      DirectStable(m, c, at, ws[0]);
      RunStable(m, c, at + |ws[0]| + 1, ws[1..], end);
    }
  }

  lemma {:induction false} RunSnoc(m: seq<byte>, at: nat, ws: seq<Label>, end: nat, l: Label)
    requires Run(m, at, ws, end) && DirectLabel(m, end, l)
    ensures Run(m, at, ws + [l], end + |l| + 1)
    decreases |ws|
  {
    if ws == [] {
      assert ([l])[1..] == [];
    } else {
      RunSnoc(m, at + |ws[0]| + 1, ws[1..], end, l);
      assert (ws + [l])[1..] == ws[1..] + [l];
    }
  }

  /** What the search makes of a run: it wants the labels sought to be a beginning of the run,
      or to go on after the run as what is read there. */
  lemma {:induction false} PrefixOverRun(m: seq<byte>, at: nat, ws: seq<Label>, end: nat, ls: seq<Label>)
    requires Run(m, at, ws, end)
    ensures PrefixAt(m, at, ls)
       <==> if |ls| <= |ws| then ls <= ws else ws <= ls && PrefixAt(m, end, ls[|ws|..])
    decreases |ws|
  {
    if ws == [] {
      assert ls[0..] == ls;
    } else if ls != [] {
      PrefixOverLabel(m, at, ws[0], ls);
      PrefixOverRun(m, at + |ws[0]| + 1, ws[1..], end, ls[1..]);
      hide Fetch, Run, PrefixAt, DirectLabel;
      BeginsWith(ls, ws);
      BeginsWith(ws, ls);
      if |ws| < |ls| {
        assert ls[1..][|ws| - 1..] == ls[|ws|..];
      }
    }
  }

  lemma BeginsWith(x: seq<Label>, y: seq<Label>)
    requires x != [] && y != []
    ensures x <= y <==> x[0] == y[0] && x[1..] <= y[1..]
  {
    assert x == [x[0]] + x[1..] && y == [y[0]] + y[1..];
  }

  lemma PrefixOverLabel(m: seq<byte>, at: nat, l: Label, ls: seq<Label>)
    requires DirectLabel(m, at, l) && ls != []
    ensures PrefixAt(m, at, ls) <==> ls[0] == l && PrefixAt(m, at + |l| + 1, ls[1..])
  {
    FetchDirect(m, at, l, MAX_JUMPS);
    hide Fetch, LabelBytes;
  }

  lemma EntryStable(m: seq<byte>, c: seq<byte>, en: Entry, top: Label)
    requires m <= c && EntryOk(m, en, top)
    ensures EntryOk(c, en, top)
  {
    DirectStable(m, c, en.at, en.labels[0]);
    NameStable(m, c, en.at, en.labels, 1, 1);
  }

  lemma DictStable(m: seq<byte>, c: seq<byte>, d: Dict, top: Label)
    requires m <= c && DictOk(m, d, top)
    ensures DictOk(c, d, top)
  {
    if d.Some? {
      forall en | en in d.value.slots ensures EntryOk(c, en, top) {
        EntryStable(m, c, en, top);
      }
    }
  }

  /** A back-pointer to a written label reads as that label. */
  lemma FetchRef(m: seq<byte>, o: nat, at: nat, l: Label, jumps: nat)
    requires jumps > 0 && at < 0x4000
    requires o + 2 <= |m| && m[o..o + 2] == RefBytes(at) && DirectLabel(m, at, l)
    ensures Fetch(m, o, jumps) == At(at + 1, |l|, true)
    ensures m[o] >= 0xC0
  {
    FetchDirect(m, at, l, jumps);
    Get16Reads(m, o, 0xC000 + at);
    assert m[o] == m[o..o + 2][0];
    assert FollowRefs(m, at, jumps - 1) == Some(at);
    assert RefTarget(m, o) == at;
  }

  // ----- The writer refines the dictionary form

  ghost function AtOf(slots: seq<Entry>): (r: seq<nat>)
    ensures |r| == |slots| && forall i :: 0 <= i < |r| ==> r[i] == slots[i].at
  {
    seq(|slots|, i requires 0 <= i < |slots| => slots[i].at)
  }

  ghost function Offsets(d: Dict): (r: Option<Ring<nat>>)
    ensures r.Some? == d.Some?
  {
    if d.None? then None else Some(Ring(AtOf(d.value.slots), d.value.next))
  }

  /** Among good names with one last label, beginning with `ls` is being `ls`. */
  lemma PrefixIsEqual(ls: seq<Label>, full: seq<Label>, top: Label)
    requires GoodName(ls, top) && GoodName(full, top) && ls != []
    ensures ls <= full <==> ls == full
  {
    if ls <= full {
      assert full[|ls| - 1] == ls[|ls| - 1];
      assert full[..|full|] == full;
    }
  }

  /** What the search finds out about one entry does not depend on bytes past `m`. */
  lemma EntryDecides(m: seq<byte>, b: seq<byte>, en: Entry, ls: seq<Label>, top: Label)
    requires m <= b && GoodName(ls, top) && ls != []
    requires EntryOk(m, en, top) || Pending(m, en, top, ls)
    ensures PrefixAt(b, en.at, ls) <==> en.labels == ls
  {
    if EntryOk(m, en, top) {
      NameStable(m, b, en.at, en.labels, 1, MAX_JUMPS);
      PrefixOfName(b, en.at, en.labels, ls);
      PrefixIsEqual(ls, en.labels, top);
    } else {
      PendingDecides(m, b, en, ls, top);
    }
  }

  /** The written part of an unfinished name never agrees with the part still to come. */
  lemma PendingDecides(m: seq<byte>, b: seq<byte>, en: Entry, ls: seq<Label>, top: Label)
    requires m <= b && ls != [] && Pending(m, en, top, ls)
    ensures !PrefixAt(b, en.at, ls)
  {
    hide Fetch, Run, LabelShape;
    var k := |en.labels| - |ls|;
    var ws := en.labels[..k];
    RunStable(m, b, en.at, ws, |m|);
    PrefixOverRun(b, en.at, ws, |m|, ls);
    if |ls| <= k {
      assert ls[|ls| - 1] == en.labels[|en.labels| - 1] && ws[|ls| - 1] == en.labels[|ls| - 1];
    } else if ws <= ls {
      assert forall i :: 0 <= i < k ==> en.labels[i] == ws[i] == ls[i] == en.labels[k + i];
      assert Twice(en.labels, 0, k);
    }
  }

  lemma {:induction false} LookupIsFind(m: seq<byte>, b: seq<byte>, slots: seq<Entry>, ls: seq<Label>, top: Label)
    requires m <= b && GoodName(ls, top) && ls != []
    requires forall en :: en in slots ==> EntryOk(m, en, top) || Pending(m, en, top, ls)
    ensures LookupIn(b, AtOf(slots), ls) ==
            match FindEntry(slots, ls) case None => None case Some(en) => Some(en.at)
  {
    if slots != [] {
      EntryDecides(m, b, slots[0], ls, top);
      assert AtOf(slots)[1..] == AtOf(slots[1..]);
      LookupIsFind(m, b, slots[1..], ls, top);
    }
  }

  lemma AddAt(d: Dict, en: Entry)
    requires DictValid(d)
    ensures Offsets(d).Some? ==> Offsets(d).value.Valid()
    ensures Offsets(AddTo(d, en)) == AddTo(Offsets(d), en.at)
  {
    if d.Some? {
      var r := d.value;
      if |r.slots| < TABLE_CAPACITY {
        assert AtOf(r.slots + [en]) == AtOf(r.slots) + [en.at];
      } else {
        assert AtOf(r.slots[r.next := en]) == AtOf(r.slots)[r.next := en.at];
      }
    }
  }

  lemma PendingBegins(m: seq<byte>, ls: seq<Label>, top: Label)
    requires ls != [] && GoodName(ls, top)
    ensures Pending(m + LabelBytes(ls[0]), Entry(|m|, ls), top, ls[1..])
  {
    var c := m + LabelBytes(ls[0]);
    assert c[|m|..|m| + |ls[0]| + 1] == LabelBytes(ls[0]);
    var ws := ls[..1];
    assert ws == [ls[0]] && ws[1..] == [];
    assert ls[0] in ls;
    assert Run(c, |m|, ws, |c|);
  }

  lemma PendingStep(m: seq<byte>, en: Entry, ls: seq<Label>, top: Label)
    requires ls != [] && Pending(m, en, top, ls)
    ensures Pending(m + LabelBytes(ls[0]), en, top, ls[1..])
  {
    hide NoRun, LastOnce, LabelBytes, Run;
    var c := m + LabelBytes(ls[0]);
    var k := |en.labels| - |ls|;
    assert ls[0] == en.labels[k] && ls[0] in en.labels;
    assert 1 <= |ls[0]| <= 63;
    hide LabelShape;
    assert c[|m|..|m| + |ls[0]| + 1] == LabelBytes(ls[0]);
    assert DirectLabel(c, |m|, ls[0]);
    RunStable(m, c, en.at, en.labels[..k], |m|);
    RunSnoc(c, en.at, en.labels[..k], |m|, ls[0]);
    assert en.labels[..k + 1] == en.labels[..k] + [ls[0]];
    assert ls[1..] == en.labels[k + 1..];
  }

  /** After one label of a name has been written, the entry made for it is pending. */
  lemma MidNameStep(m: seq<byte>, d: Dict, top: Label, ls: seq<Label>)
    requires MidName(m, d, top, ls) && ls != []
    requires d.Some? ==> GoodName(ls, top)
    ensures MidName(m + LabelBytes(ls[0]), AddTo(d, Entry(|m|, ls)), top, ls[1..])
  {
    var c := m + LabelBytes(ls[0]);
    var d' := AddTo(d, Entry(|m|, ls));
    if d.Some? {
      GoodTail(ls, top);
      forall en | en in d'.value.slots ensures EntryOk(c, en, top) || Pending(c, en, top, ls[1..]) {
        if en == Entry(|m|, ls) {
          PendingBegins(m, ls, top);
        } else {
          assert en in d.value.slots;
          if EntryOk(m, en, top) {
            EntryStable(m, c, en, top);
          } else {
            PendingStep(m, en, ls, top);
          }
        }
      }
    }
  }

  /** The buffer and table after writing `bytes` at the current position. */
  ghost predicate Written(o: Out, o': Out, bytes: seq<byte>, d': Dict) {
    o.pos + |bytes| <= |o.buf|
    && o' == Out(Put(o.buf, o.pos, bytes), Offsets(d'), o.pos + |bytes|)
  }

  /** The writer writes exactly the bytes of the dictionary form, whatever the buffer held
      past the current position, and fails exactly when they do not fit. */
  lemma {:induction false} MakeNameEmits(o: Out, d: Dict, ls: seq<Label>, top: Label)
    requires o.Valid() && o.table == Offsets(d)
    requires d.Some? ==> GoodName(ls, top)
    requires MidName(o.buf[..o.pos], d, top, ls)
    ensures var (bytes, d') := EmitName(d, o.pos, ls);
            match MakeName(o, ls)
            case None => |o.buf| < o.pos + |bytes|
            case Some(o') => Written(o, o', bytes, d')
    decreases |ls|
  {
    if ls != [] {
      if d.Some? {
        LookupIsFind(o.buf[..o.pos], o.buf, d.value.slots, ls, top);
      }
      if Find(d, ls).None? && |o.buf| - o.pos > |ls[0]| + 1 {
        MakeLabelEmits(o, d, ls, top);
      }
    }
  }

  lemma MakeLabelEmits(o: Out, d: Dict, ls: seq<Label>, top: Label)
    requires DictValid(d) && o.Valid() && o.table == Offsets(d) && ls != []
    requires d.Some? ==> GoodName(ls, top)
    requires MidName(o.buf[..o.pos], d, top, ls)
    requires o.pos + |ls[0]| + 1 < |o.buf|
    ensures var (rest, d') := EmitName(AddTo(d, Entry(o.pos, ls)), o.pos + |ls[0]| + 1, ls[1..]);
            match MakeName(LabelWritten(o, ls[0]), ls[1..])
            case None => |o.buf| < o.pos + |LabelBytes(ls[0]) + rest|
            case Some(o') => Written(o, o', LabelBytes(ls[0]) + rest, d')
    decreases |ls|, 0
  {
    hide Lookup, MakeName, EmitName, MidName, GoodName, AddTo, Offsets, LabelBytes, Put;
    var o1 := LabelWritten(o, ls[0]);
    var d1 := AddTo(d, Entry(o.pos, ls));
    AddAt(d, Entry(o.pos, ls));
    PutPrefix(o.buf, o.pos, LabelBytes(ls[0]));
    MidNameStep(o.buf[..o.pos], d, top, ls);
    if d.Some? {
      GoodTail(ls, top);
    }
    MakeNameEmits(o1, d1, ls[1..], top);
    var (rest, d') := EmitName(d1, o1.pos, ls[1..]);
    if o1.pos + |rest| <= |o.buf| {
      PutPut(o.buf, o.pos, LabelBytes(ls[0]), rest);
    }
  }

  // ----- The reader inverts the dictionary form

  /** A back-pointer to a written label begins the same names as that label. */
  lemma NameThroughRef(m: seq<byte>, o: nat, at: nat, l: Label, ls: seq<Label>, jumps: nat)
    requires jumps > 0 && at < 0x4000 && o + 2 <= |m| && m[o..o + 2] == RefBytes(at) && DirectLabel(m, at, l)
    ensures NameAt(m, o, ls, jumps) <==> NameAt(m, at, ls, jumps)
  {
    FetchRef(m, o, at, l, jumps);
    FetchDirect(m, at, l, jumps);
    hide Fetch, DirectLabel, RefBytes;
  }

  /** A written label begins a name when what follows it is the rest of the name. */
  lemma NameOverLabel(m: seq<byte>, at: nat, ls: seq<Label>, jumps: nat)
    requires ls != [] && DirectLabel(m, at, ls[0])
    ensures NameAt(m, at, ls, jumps) <==> NameAt(m, at + |ls[0]| + 1, ls[1..], jumps)
  {
    FetchDirect(m, at, ls[0], jumps);
    hide Fetch, LabelBytes;
  }

  /** A label written in front of a name begins the longer name. */
  lemma NameAfterLabel(m: seq<byte>, l: Label, rest: seq<byte>, ls: seq<Label>, jumps: nat)
    requires 1 <= |l| <= 63 && ls != [] && ls[0] == l
    requires NameAt(m + LabelBytes(l) + rest, |m| + |l| + 1, ls[1..], jumps)
    ensures DirectLabel(m + LabelBytes(l) + rest, |m|, l) && NameAt(m + LabelBytes(l) + rest, |m|, ls, jumps)
  {
    hide NameAt, LabelBytes;
    var c := m + LabelBytes(l) + rest;
    assert c[|m|..|m| + |l| + 1] == LabelBytes(l);
    NameOverLabel(c, |m|, ls, jumps);
  }

  /** A written name reads back, with at most one jump per label; every entry it adds to
      the dictionary is sound, and every earlier entry still is. */
  lemma {:induction false} EmitNameReads(m: seq<byte>, d: Dict, ls: seq<Label>, top: Label)
    requires LabelShape(ls) && (d.Some? ==> GoodName(ls, top))
    requires MidName(m, d, top, ls)
    requires d.Some? ==> |m| + |EmitName(d, |m|, ls).0| <= 0x4000
    ensures var (bytes, d') := EmitName(d, |m|, ls);
            NameAt(m + bytes, |m|, ls, 1)
            && (d'.Some? ==> forall en :: en in d'.value.slots ==>
                  EntryOk(m + bytes, en, top) || (en in d.value.slots && Pending(m, en, top, ls)))
    decreases |ls|
  {
    var (bytes, d') := EmitName(d, |m|, ls);
    var c := m + bytes;
    if ls == [] {
      assert c[|m|] == 0;
      MidNameGrows(m, c, d, top, ls);
    } else if Find(d, ls).Some? {
      EmitRefReads(m, d, ls, top);
      MidNameGrows(m, c, d, top, ls);
    } else {
      EmitLabelReads(m, d, ls, top);
    }
  }

  lemma MidNameGrows(m: seq<byte>, c: seq<byte>, d: Dict, top: Label, ls: seq<Label>)
    requires m <= c && MidName(m, d, top, ls)
    ensures d.Some? ==> forall en :: en in d.value.slots ==>
              EntryOk(c, en, top) || (en in d.value.slots && Pending(m, en, top, ls))
  {
    if d.Some? {
      forall en | en in d.value.slots && EntryOk(m, en, top) ensures EntryOk(c, en, top) {
        EntryStable(m, c, en, top);
      }
    }
  }

  /** An entry for exactly the labels sought is a finished one. */
  lemma FoundIsFinished(m: seq<byte>, d: Dict, ls: seq<Label>, top: Label)
    requires ls != [] && MidName(m, d, top, ls) && Find(d, ls).Some?
    ensures EntryOk(m, Find(d, ls).value, top)
  {
    hide EntryOk, DirectLabel, Run;
  }

  lemma EmitRefReads(m: seq<byte>, d: Dict, ls: seq<Label>, top: Label)
    requires ls != [] && MidName(m, d, top, ls) && |m| + 2 <= 0x4000
    requires Find(d, ls).Some?
    ensures NameAt(m + RefBytes(Find(d, ls).value.at), |m|, ls, 1)
  {
    hide Fetch, NameAt, MidName, RefBytes, LabelBytes, GoodName;
    var en := Find(d, ls).value;
    var c := m + RefBytes(en.at);
    FoundIsFinished(m, d, ls, top);
    EntryStable(m, c, en, top);
    assert c[|m|..|m| + 2] == RefBytes(en.at);
    NameThroughRef(c, |m|, en.at, ls[0], ls, 1);
  }

  lemma EmitLabelReads(m: seq<byte>, d: Dict, ls: seq<Label>, top: Label)
    requires DictValid(d) && LabelShape(ls) && (d.Some? ==> GoodName(ls, top)) && ls != []
    requires MidName(m, d, top, ls)
    requires d.Some? ==> |m| + |ls[0]| + 1 + |EmitName(AddTo(d, Entry(|m|, ls)), |m| + |ls[0]| + 1, ls[1..]).0| <= 0x4000
    ensures var (rest, d') := EmitName(AddTo(d, Entry(|m|, ls)), |m| + |ls[0]| + 1, ls[1..]);
            var c := m + (LabelBytes(ls[0]) + rest);
            NameAt(c, |m|, ls, 1)
            && (d'.Some? ==> forall en :: en in d'.value.slots ==>
                  EntryOk(c, en, top) || (en in d.value.slots && Pending(m, en, top, ls)))
    decreases |ls|, 0
  {
    hide Fetch, NameAt, EntryOk, EmitName, AddTo, MidName, GoodName, LabelBytes, Pending, DirectLabel;
    var d1 := AddTo(d, Entry(|m|, ls));
    var m1 := m + LabelBytes(ls[0]);
    var (rest, d') := EmitName(d1, |m1|, ls[1..]);
    var c := m + (LabelBytes(ls[0]) + rest);
    assert m1 + rest == c;
    MidNameStep(m, d, top, ls);
    if d.Some? {
      GoodTail(ls, top);
    }
    EmitNameReads(m1, d1, ls[1..], top);
    assert ls[0] in ls;
    NameAfterLabel(m, ls[0], rest, ls, 1);
    if d.Some? {
      EntriesAfterLabel(m, m1, c, d, d', ls, top);
    }
  }

  /** What is known of the entries once the rest of a name has been written after its first label. */
  lemma EntriesAfterLabel(m: seq<byte>, m1: seq<byte>, c: seq<byte>, d: Dict, d': Dict, ls: seq<Label>, top: Label)
    requires m <= m1 <= c && ls != [] && GoodName(ls, top) && MidName(m, d, top, ls) && d.Some? && d'.Some?
    requires DirectLabel(c, |m|, ls[0]) && NameAt(c, |m|, ls, 1)
    requires forall en :: en in d'.value.slots ==>
               EntryOk(c, en, top)
               || (en in AddTo(d, Entry(|m|, ls)).value.slots && Pending(m1, en, top, ls[1..]))
    ensures forall en :: en in d'.value.slots ==>
              EntryOk(c, en, top) || (en in d.value.slots && Pending(m, en, top, ls))
  {
    hide NameAt;
    forall en | en in d'.value.slots && !EntryOk(c, en, top)
      ensures en in d.value.slots && Pending(m, en, top, ls)
    {
      if en != Entry(|m|, ls) {
        assert en in d.value.slots;
        if EntryOk(m, en, top) {
          EntryStable(m, c, en, top);
        }
      }
    }
  }
}