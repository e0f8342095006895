/** Exactly when a name written against a table reads back, for any labels of the
    allowed lengths: the search accepts a stored name that merely begins with the
    labels sought, and it sees the entries of the name being written. */
module NameExactness {
  import opened Bytes
  import opened NameReader
  import opened StringTables
  import opened NameWriter
  import opened NameCodec
  import opened NameTheorems

  /** `e` is a written label that begins a name which can be read. */
  ghost predicate Complete(m: seq<byte>, e: nat) {
    (exists l :: DirectLabel(m, e, l)) && exists full :: full != [] && NameAt(m, e, full, MAX_JUMPS)
  }

  /** An offset in the table: a name finished before `start`, or a label of the name
      being written since `start`, whose labels from there on run up to the end of `m`. */
  ghost predicate Known(m: seq<byte>, start: nat, e: nat)
    requires start <= |m|
  {
    (e < start && Complete(m[..start], e)) || (e >= start && exists ws :: ws != [] && Run(m, e, ws, |m|))
  }

  ghost predicate AllKnown(o: Out, start: nat)
  {
    o.Valid() && start <= o.pos
    && (o.table.Some? ==> forall e :: e in o.table.value.slots ==> Known(o.buf[..o.pos], start, e))
  }

  /** Whatever the search hits first is a name finished before `start`, and that name is
      the labels still to be written, no more. */
  ghost predicate HitsWell(o: Out, ls: seq<Label>, start: nat)
    requires o.Valid() && start <= o.pos
    decreases |ls|
  {
    ls == []
    || match Lookup(o.buf, o.table, ls)
       case Some(e) => e < start && NameAt(o.buf[..start], e, ls, MAX_JUMPS)
       case None => |o.buf| - o.pos > |ls[0]| + 1 ==> HitsWell(LabelWritten(o, ls[0]), ls[1..], start)
  }

  /** A name that begins with a run goes on with whatever is read at the end of the run. */
  lemma {:induction false} NameOverRun(m: seq<byte>, at: nat, ws: seq<Label>, end: nat, ls: seq<Label>)
    requires Run(m, at, ws, end) && NameAt(m, at, ls, MAX_JUMPS)
    ensures |ws| <= |ls| && NameAt(m, end, ls[|ws|..], MAX_JUMPS)
    decreases |ws|
  {
    if ws == [] {
      assert ls[0..] == ls;
    } else {
      FetchDirect(m, at, ws[0], MAX_JUMPS);
      NameOverRun(m, at + |ws[0]| + 1, ws[1..], end, ls[1..]);
      assert ls[1..][|ws| - 1..] == ls[|ws|..];
    }
  }

  /** A back-pointer at the end of a run, to the start of the run, begins no name at all. */
  lemma CycleReadsNothing(m: seq<byte>, at: nat, ws: seq<Label>, end: nat, ls: seq<Label>)
    requires ws != [] && Run(m, at, ws, end)
    requires at < 0x4000 && end + 2 <= |m| && m[end..end + 2] == RefBytes(at)
    ensures !NameAt(m, end, ls, MAX_JUMPS)
  {
    NameThroughRef(m, end, at, ws[0], ls, MAX_JUMPS);
    if NameAt(m, end, ls, MAX_JUMPS) {
      NameOverRun(m, at, ws, end, ls);
      NameUnique(m, end, ls, ls[|ws|..], MAX_JUMPS);
    }
  }

  lemma KnownGrows(m: seq<byte>, c: seq<byte>, start: nat, e: nat, l: Label)
    requires start <= |m| && c == m + LabelBytes(l) && 1 <= |l| <= 63
    requires Known(m, start, e) || e == |m|
    ensures Known(c, start, e)
  {
    assert c[|m|..|m| + |l| + 1] == LabelBytes(l);
    assert c[..start] == m[..start];
    if e == |m| {
      assert Run(c, e, [l], |c|) by {
        assert [l][1..] == [];
      }
    } else if e >= start {
      var ws :| ws != [] && Run(m, e, ws, |m|);
      RunStable(m, c, e, ws, |m|);
      RunSnoc(c, e, ws, |m|, l);
      assert ws + [l] != [];
    }
  }

  lemma AllKnownStep(o: Out, start: nat, l: Label)
    requires AllKnown(o, start) && 1 <= |l| <= 63 && o.pos + |l| + 1 <= |o.buf|
    ensures AllKnown(LabelWritten(o, l), start)
  {
    var o1 := LabelWritten(o, l);
    PutPrefix(o.buf, o.pos, LabelBytes(l));
    if o1.table.Some? {
      forall e | e in o1.table.value.slots ensures Known(o1.buf[..o1.pos], start, e) {
        assert e in o.table.value.slots || e == o.pos;
        KnownGrows(o.buf[..o.pos], o1.buf[..o1.pos], start, e, l);
      }
    }
  }

  lemma {:induction false} LookupHit(b: seq<byte>, slots: seq<nat>, ls: seq<Label>)
    ensures LookupIn(b, slots, ls).Some? ==> LookupIn(b, slots, ls).value in slots
  {
    if slots != [] {
      LookupHit(b, slots[1..], ls);
    }
  }

  /** The case of a back-pointer: it means the name it points at, or nothing at all when it
      points into the name being written. */
  lemma RefExact(o: Out, start: nat, e: nat, ls: seq<Label>)
    requires AllKnown(o, start) && |o.buf| <= 0x4000 && o.pos + 2 <= |o.buf|
    requires Known(o.buf[..o.pos], start, e)
    ensures NameAt(o.buf[..o.pos] + RefBytes(e), o.pos, ls, MAX_JUMPS)
       <==> e < start && NameAt(o.buf[..start], e, ls, MAX_JUMPS)
  {
    var m := o.buf[..o.pos];
    var c := m + RefBytes(e);
    assert c[o.pos..o.pos + 2] == RefBytes(e);
    if e < start {
      var p := m[..start];
      assert p == o.buf[..start] && p <= c;
      var l :| DirectLabel(p, e, l);
      var full :| full != [] && NameAt(p, e, full, MAX_JUMPS);
      DirectStable(p, c, e, l);
      NameThroughRef(c, o.pos, e, l, ls, MAX_JUMPS);
      NameStable(p, c, e, full, MAX_JUMPS, MAX_JUMPS);
      if NameAt(c, e, ls, MAX_JUMPS) {
        NameUnique(c, e, ls, full, MAX_JUMPS);
      }
      if NameAt(p, e, ls, MAX_JUMPS) {
        NameUnique(p, e, ls, full, MAX_JUMPS);
      }
    } else {
      var ws :| ws != [] && Run(m, e, ws, |m|);
      RunStable(m, c, e, ws, |m|);
      CycleReadsNothing(c, e, ws, o.pos, ls);
    }
  }

  /** A name written against a table reads back exactly when whatever the search hit first
      was a finished name equal to the labels that were left. */
  lemma {:induction false} NameReadsBackExactly(o: Out, ls: seq<Label>, start: nat)
    requires LabelShape(ls) && |o.buf| <= 0x4000 && AllKnown(o, start)
    requires MakeName(o, ls).Some?
    ensures var o' := MakeName(o, ls).value;
            o.buf[..o.pos] <= o'.buf[..o'.pos]
            && (NameAt(o'.buf[..o'.pos], o.pos, ls, MAX_JUMPS) <==> HitsWell(o, ls, start))
    decreases |ls|
  {
    var m := o.buf[..o.pos];
    var o' := MakeName(o, ls).value;
    if ls == [] {
      PutPrefix(o.buf, o.pos, [0]);
      assert o'.buf[..o'.pos][o.pos] == 0;
    } else {
      var hit := Lookup(o.buf, o.table, ls);
      if hit.Some? {
        LookupHit(o.buf, o.table.value.slots, ls);
        PutPrefix(o.buf, o.pos, RefBytes(hit.value));
        RefExact(o, start, hit.value, ls);
      } else {
        LabelExact(o, ls, start);
      }
    }
  }

  lemma LabelExact(o: Out, ls: seq<Label>, start: nat)
    requires o.Valid() && start <= o.pos && LabelShape(ls) && |o.buf| <= 0x4000 && AllKnown(o, start)
    requires ls != [] && o.pos + |ls[0]| + 1 < |o.buf| && MakeName(LabelWritten(o, ls[0]), ls[1..]).Some?
    ensures var o1 := LabelWritten(o, ls[0]);
            var o' := MakeName(o1, ls[1..]).value;
            o.buf[..o.pos] <= o'.buf[..o'.pos]
            && (NameAt(o'.buf[..o'.pos], o.pos, ls, MAX_JUMPS) <==> HitsWell(o1, ls[1..], start))
    decreases |ls|, 0
  {
    hide NameAt, MakeName, HitsWell, Lookup, LabelBytes, AllKnown;
    var l := ls[0];
    assert l in ls;
    var o1 := LabelWritten(o, l);
    var o' := MakeName(o1, ls[1..]).value;
    AllKnownStep(o, start, l);
    NameReadsBackExactly(o1, ls[1..], start);
    var m1, c := o1.buf[..o1.pos], o'.buf[..o'.pos];
    PutPrefix(o.buf, o.pos, LabelBytes(l));
    assert m1[o.pos..o.pos + |l| + 1] == LabelBytes(l);
    DirectStable(m1, c, o.pos, l);
    NameOverLabel(c, o.pos, ls, MAX_JUMPS);
  }

  // ----- The hypotheses suffice, and one is needed

  lemma SoundIsKnown(o: Out, top: Label)
    requires TableOk(o, top)
    ensures AllKnown(o, o.pos)
  {
    hide NameAt, ReadName, GoodName;
    var m := o.buf[..o.pos];
    assert m[..o.pos] == m;
    if o.table.Some? {
      forall e | e in o.table.value.slots ensures Known(m, o.pos, e) {
        var en := EntryAt(m, e);
        NameStable(m, m, e, en.labels, 1, MAX_JUMPS);
      }
    }
  }

  /** Under the hypotheses on names every hit is a good one. */
  lemma GoodNamesHitWell(o: Out, name: NameText, top: Label)
    requires TableOk(o, top) && |o.buf| <= 0x4000 && GoodName(Labels(name), top)
    requires MakeName(o, Labels(name)).Some?
    ensures AllKnown(o, o.pos) && HitsWell(o, Labels(name), o.pos)
  {
    SoundIsKnown(o, top);
    hide NameAt, TableOk, AllKnown, MakeName, Labels, HitsWell, ReadName, NameEnd, Dotted;
    NameRoundTrip(o, name, top);
    var o' := MakeName(o, Labels(name)).value;
    NameStable(o'.buf[..o'.pos], o'.buf[..o'.pos], o.pos, Labels(name), 1, MAX_JUMPS);
    NameReadsBackExactly(o, Labels(name), o.pos);
  }

  /** What becomes of a label written twice in a row with an empty table. */
  lemma RepeatedLabelIsWritten(buf: seq<byte>, pos: nat, l: Label)
    requires 1 <= |l| <= 63 && pos + |l| + 3 <= |buf|
    ensures var r := MakeName(Out(buf, Some(Ring([], 0)), pos), [l, l]);
            r.Some? && r.value.pos == pos + |l| + 3
            && r.value.buf[..r.value.pos] == buf[..pos] + LabelBytes(l) + RefBytes(pos)
  {
    hide Fetch, RefBytes, LabelBytes;
    var o := Out(buf, Some(Ring([], 0)), pos);
    var o1 := LabelWritten(o, l);
    assert [l, l][1..] == [l] && [l][1..] == [];
    PutPrefix(buf, pos, LabelBytes(l));
    assert o1.buf[pos..pos + |l| + 1] == LabelBytes(l);
    FetchDirect(o1.buf, pos, l, MAX_JUMPS);
    assert o1.table.value.slots == [pos];
    assert PrefixAt(o1.buf, pos, [l]);
    assert Lookup(o1.buf, o1.table, [l]) == Some(pos);
    PutPrefix(o1.buf, o1.pos, RefBytes(pos));
    assert MakeName(o, [l, l]) == MakeName(o1, [l]) == Some(o1.Append(RefBytes(pos)));
  }

  /** A label and a back-pointer to it are no name. */
  lemma LabelAndCycle(m: seq<byte>, l: Label)
    requires 1 <= |l| <= 63 && |m| < 0x4000
    ensures ReadName(m + LabelBytes(l) + RefBytes(|m|), |m|, MAX_FETCHES).None?
  {
    hide Fetch, RefBytes, LabelBytes, ReadName, NameAt;
    var c, end := m + LabelBytes(l) + RefBytes(|m|), |m| + |l| + 1;
    assert c[|m|..end] == LabelBytes(l) && c[end..end + 2] == RefBytes(|m|);
    assert Run(c, |m|, [l], end) by {
      assert [l][1..] == [];
    }
    var read := ReadName(c, |m|, MAX_FETCHES);
    if read.Some? {
      ReadNameExact(c, |m|, read.value, MAX_FETCHES);
      NameOverRun(c, |m|, [l], end, read.value);
      CycleReadsNothing(c, |m|, [l], end, read.value[1..]);
    }
  }

  /** A label repeated, as in `local.local.`, written with an empty table: the second one
      becomes a back-pointer to the first, and the name cannot be read at all. */
  lemma RepeatedLabelIsLost(buf: seq<byte>, pos: nat, l: Label)
    requires 1 <= |l| <= 63 && DOT !in l && pos + |l| + 3 <= |buf| <= 0x4000
    ensures Labels(Dotted([l, l])) == [l, l]
    ensures var r := MakeName(Out(buf, Some(Ring([], 0)), pos), [l, l]);
            r.Some? && ReadName(r.value.buf[..r.value.pos], pos, MAX_FETCHES).None?
  {
    hide Labels, Dotted, MakeName, ReadName, LabelBytes, RefBytes;
    LabelsOfDotted([l, l]);
    RepeatedLabelIsWritten(buf, pos, l);
    LabelAndCycle(buf[..pos], l);
  }
}
