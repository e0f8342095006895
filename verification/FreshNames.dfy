/** Which names can be written first in a message, with nothing in the table but their own
    labels, and be read back whatever the reused buffer holds. */
module FreshNames {
  import opened Bytes
  import opened NameReader
  import opened StringTables
  import opened NameWriter
  import opened NameCodec
  import opened NameTheorems
  import opened NameExactness
  import opened Stability

  // ----- What the search takes for what

  /** Label for label, those from `i` are those from `j`, as far as they are written by the time
      `j` is sought and as far as the name goes; and the table still has `i` by then. */
  predicate Mistaken(ls: seq<Label>, i: nat, j: nat) {
    i < j < |ls| && j - i <= TABLE_CAPACITY
    && forall k :: i <= k < j && k + j - i < |ls| ==> ls[k] == ls[k + j - i]
  }

  predicate Unmistakable(ls: seq<Label>) {
    forall i, j :: 0 <= i < j < |ls| ==> !Mistaken(ls, i, j)
  }

  lemma GoodIsUnmistakable(ls: seq<Label>)
    requires NoRun(ls) && LastOnce(ls)
    ensures Unmistakable(ls)
  {
    forall i, j | 0 <= i < j < |ls| ensures !Mistaken(ls, i, j) {
      assert !Twice(ls, i, j);
      var k := |ls| - 1 - (j - i);
      assert ls[k] != ls[|ls| - 1] && k + j - i == |ls| - 1;
    }
  }

  /** As long as nothing has been evicted that is the hypothesis of the round trip. */
  lemma UnmistakableExactly(ls: seq<Label>)
    requires |ls| <= TABLE_CAPACITY + 1
    ensures Unmistakable(ls) <==> NoRun(ls) && LastOnce(ls)
  {
    if Unmistakable(ls) {
      forall i, j | 0 <= i < j < |ls| ensures !Twice(ls, i, j) {
        assert !Mistaken(ls, i, j);
      }
      forall k | 0 <= k < |ls| - 1 ensures ls[k] != ls[|ls| - 1] {
        assert !Mistaken(ls, k, |ls| - 1);
      }
    }
    if NoRun(ls) && LastOnce(ls) {
      GoodIsUnmistakable(ls);
    }
  }

  // ----- A name in the making

  /** The first `n` labels of `ls` are written, at `offs`, and the table holds these alone. */
  ghost predicate Fresh(o: Out, ls: seq<Label>, n: nat, offs: seq<nat>) {
    o.Valid() && |offs| == n <= |ls| && o.table == Some(RingOf(offs)) && LabelShape(ls)
    && forall i :: 0 <= i < n ==> Run(o.buf[..o.pos], offs[i], ls[i..n], o.pos)
  }

  lemma RingAgain(offs: seq<nat>, at: nat)
    ensures RingOf(offs + [at]) == RingOf(offs).Add(at)
  {
    assert (offs + [at])[..|offs|] == offs;
  }

  lemma ShapeAt(ls: seq<Label>, n: nat)
    requires LabelShape(ls) && n < |ls|
    ensures 1 <= |ls[n]| <= 63
  {
    assert ls[n] in ls;
  }

  lemma RunOne(m: seq<byte>, at: nat, l: Label)
    requires DirectLabel(m, at, l)
    ensures Run(m, at, [l], at + |l| + 1)
  {
    var ws := [l];
    assert ws[1..] == [];
  }

  lemma FreshStep(o: Out, ls: seq<Label>, n: nat, offs: seq<nat>)
    requires Fresh(o, ls, n, offs) && n < |ls| && o.pos + |ls[n]| + 1 <= |o.buf|
    ensures Fresh(LabelWritten(o, ls[n]), ls, n + 1, offs + [o.pos])
  {
    hide LabelBytes, RingOf, LabelShape;
    var l, o1, offs1 := ls[n], LabelWritten(o, ls[n]), offs + [o.pos];
    RingAgain(offs, o.pos);
    var m, m1 := o.buf[..o.pos], o1.buf[..o1.pos];
    PutPrefix(o.buf, o.pos, LabelBytes(l));
    ShapeAt(ls, n);
    assert m1[o.pos..o1.pos] == LabelBytes(l);
    forall i | 0 <= i < n + 1 ensures Run(m1, offs1[i], ls[i..n + 1], o1.pos) {
      if i < n {
        RunStable(m, m1, offs[i], ls[i..n], o.pos);
        RunSnoc(m1, offs[i], ls[i..n], o.pos, l);
        assert ls[i..n] + [l] == ls[i..n + 1];
      } else {
        assert ls[n..n + 1] == [l];
        RunOne(m1, o.pos, l);
      }
    }
  }

  /** What the search finds in a stretch of labels that ends where the message does so far. */
  ghost predicate Agrees(b: seq<byte>, end: nat, ws: seq<Label>, sought: seq<Label>) {
    if |sought| <= |ws| then sought <= ws else ws <= sought && PrefixAt(b, end, sought[|ws|..])
  }

  lemma Residue(q: nat, t: nat)
    requires t < TABLE_CAPACITY
    ensures (TABLE_CAPACITY * q + t) % TABLE_CAPACITY == t
  {
  }

  lemma LiveSlot(offs: seq<nat>, t: nat)
    requires t < |RingOf(offs).slots|
    ensures exists k :: 0 <= k < |offs| <= k + TABLE_CAPACITY && RingOf(offs).slots[t] == offs[k]
  {
    hide RingOf;
    RingHoldsLast(offs);
    var q, r := |offs| / TABLE_CAPACITY, |offs| % TABLE_CAPACITY;
    if t < r {
      Residue(q, t);
      assert RingOf(offs).slots[t] == offs[TABLE_CAPACITY * q + t];
    } else {
      Residue(q - 1, t);
      assert RingOf(offs).slots[t] == offs[TABLE_CAPACITY * (q - 1) + t];
    }
  }

  /** A hit is one of the last sixteen labels of the name itself, from where the labels written
      agree with those sought. */
  lemma OwnHit(o: Out, ls: seq<Label>, n: nat, offs: seq<nat>)
    requires Fresh(o, ls, n, offs) && n < |ls|
    ensures match Lookup(o.buf, o.table, ls[n..])
            case None =>
              forall i :: 0 <= i < n <= i + TABLE_CAPACITY ==> !Agrees(o.buf, o.pos, ls[i..n], ls[n..])
            case Some(e) =>
              exists i :: 0 <= i < n <= i + TABLE_CAPACITY && offs[i] == e && Agrees(o.buf, o.pos, ls[i..n], ls[n..])
  {
    hide RingOf, PrefixAt, Agrees, LabelShape, Run;
    var sought, slots := ls[n..], RingOf(offs).slots;
    LookupExact(o.buf, slots, sought);
    RingHoldsLast(offs);
    if LookupIn(o.buf, slots, sought).Some? {
      var t :| 0 <= t < |slots| && slots[t] == LookupIn(o.buf, slots, sought).value && PrefixAt(o.buf, slots[t], sought);
      LiveSlot(offs, t);
      var i :| 0 <= i < |offs| <= i + TABLE_CAPACITY && slots[t] == offs[i];
      EntryAgrees(o, ls, n, offs, i);
    } else {
      forall i | 0 <= i < n <= i + TABLE_CAPACITY ensures !Agrees(o.buf, o.pos, ls[i..n], sought) {
        assert slots[i % TABLE_CAPACITY] == offs[i];
        EntryAgrees(o, ls, n, offs, i);
      }
    }
  }

  lemma EntryAgrees(o: Out, ls: seq<Label>, n: nat, offs: seq<nat>, i: nat)
    requires Fresh(o, ls, n, offs) && i < n
    ensures PrefixAt(o.buf, offs[i], ls[n..]) <==> Agrees(o.buf, o.pos, ls[i..n], ls[n..])
  {
    hide RingOf, PrefixAt, LabelShape, Run;
    RunStable(o.buf[..o.pos], o.buf, offs[i], ls[i..n], o.pos);
    PrefixOverRun(o.buf, offs[i], ls[i..n], o.pos, ls[n..]);
  }

  /** Agreement makes a mistake of two places in the name. */
  lemma AgreesIsMistaken(b: seq<byte>, end: nat, ls: seq<Label>, i: nat, n: nat)
    requires i < n < |ls| && n - i <= TABLE_CAPACITY && Agrees(b, end, ls[i..n], ls[n..])
    ensures Mistaken(ls, i, n)
  {
    hide PrefixAt;
    var ws, sought := ls[i..n], ls[n..];
    forall k | i <= k < n && k + n - i < |ls| ensures ls[k] == ls[k + n - i] {
      assert ws[k - i] == ls[k] && sought[k - i] == ls[k + n - i];
    }
  }

  /** Without such places there is never a hit. */
  lemma {:induction false} NeverHits(o: Out, ls: seq<Label>, n: nat, offs: seq<nat>, start: nat)
    requires Fresh(o, ls, n, offs) && Unmistakable(ls) && start <= o.pos
    ensures HitsWell(o, ls[n..], start)
    decreases |ls| - n
  {
    hide Agrees, Mistaken, Fresh, Lookup;
    FreshIs(o, ls, n, offs);
    if n == |ls| {
      assert ls[n..] == [];
    } else {
      OwnHit(o, ls, n, offs);
      if Lookup(o.buf, o.table, ls[n..]).Some? {
        var i :| 0 <= i < n <= i + TABLE_CAPACITY && Agrees(o.buf, o.pos, ls[i..n], ls[n..]);
        AgreesIsMistaken(o.buf, o.pos, ls, i, n);
      } else if |o.buf| - o.pos > |ls[n]| + 1 {
        FreshStep(o, ls, n, offs);
        NeverHits(LabelWritten(o, ls[n]), ls, n + 1, offs + [o.pos], start);
        assert ls[n..][1..] == ls[n + 1..];
      }
    }
  }

  lemma FreshIs(o: Out, ls: seq<Label>, n: nat, offs: seq<nat>)
    requires Fresh(o, ls, n, offs)
    ensures o.Valid() && |offs| == n <= |ls| && LabelShape(ls)
  {
  }

  // ----- A hit in the name itself is the end of it

  lemma RunBegins(m: seq<byte>, at: nat, ws: seq<Label>, end: nat)
    requires ws != [] && Run(m, at, ws, end)
    ensures at < |m|
  {
  }

  lemma HitIsLost(o: Out, ls: seq<Label>, n: nat, offs: seq<nat>, c: seq<byte>, rs: seq<Label>)
    requires Fresh(o, ls, n, offs) && n < |ls| && |o.buf| <= 0x4000
    requires Lookup(o.buf, o.table, ls[n..]).Some? && MakeName(o, ls[n..]).Some?
    requires var x := MakeName(o, ls[n..]).value; x.buf[..x.pos] <= c
    ensures !NameAt(c, o.pos, rs, MAX_JUMPS)
  {
    hide RefBytes, Lookup, Agrees, LabelShape, LabelBytes, Fetch, NameAt, RingOf, Run;
    OwnHit(o, ls, n, offs);
    var e := Lookup(o.buf, o.table, ls[n..]).value;
    var i :| 0 <= i < n <= i + TABLE_CAPACITY && offs[i] == e && Agrees(o.buf, o.pos, ls[i..n], ls[n..]);
    var m := o.buf[..o.pos];
    PutPrefix(o.buf, o.pos, RefBytes(e));
    assert c[o.pos..o.pos + 2] == (m + RefBytes(e))[o.pos..];
    RunBegins(m, e, ls[i..n], o.pos);
    RunStable(m, c, e, ls[i..n], o.pos);
    CycleReadsNothing(c, e, ls[i..n], o.pos, rs);
  }

  /** What the search would have to find past the end of the message to take `i` for `j`. */
  ghost predicate Primed(o: Out, ls: seq<Label>, n: nat, i: nat, j: nat)
    requires n <= j <= |ls| && i < j
  {
    2 * j - i < |ls| ==>
      WiredAt(o.buf, o.pos + |WireLabels(ls[n..j])|, ls[2 * j - i..])
  }

  /** Labels written out at `q`. */
  ghost predicate WiredAt(b: seq<byte>, q: nat, ls: seq<Label>) {
    q + |WireLabels(ls)| <= |b| && b[q..q + |WireLabels(ls)|] == WireLabels(ls)
  }

  lemma WireFirst(b: seq<byte>, q: nat, ls: seq<Label>)
    requires WiredAt(b, q, ls) && ls != [] && 1 <= |ls[0]| <= 63
    ensures DirectLabel(b, q, ls[0]) && WiredAt(b, q + |ls[0]| + 1, ls[1..])
    ensures |WireLabels(ls)| == |ls[0]| + 1 + |WireLabels(ls[1..])|
  {
    hide LabelBytes;
    var first, rest := LabelBytes(ls[0]), WireLabels(ls[1..]);
    Slice(b, q, first + rest, 0, |first|);
    Slice(b, q, first + rest, |first|, |rest|);
  }

  lemma {:induction false} WireRun(b: seq<byte>, q: nat, ls: seq<Label>)
    requires LabelShape(ls) && WiredAt(b, q, ls)
    ensures Run(b, q, ls, q + |WireLabels(ls)|)
    decreases |ls|
  {
    if ls == [] {
      assert WireLabels(ls) == [];
    } else {
      ShapeAt(ls, 0);
      ShapeOfTail(ls);
      hide LabelShape, DirectLabel, WireLabels, WiredAt;
      WireFirst(b, q, ls);
      WireRun(b, q + |ls[0]| + 1, ls[1..]);
    }
  }

  lemma ShapeOfTail(ls: seq<Label>)
    requires LabelShape(ls) && ls != []
    ensures LabelShape(ls[1..])
  {
    assert forall l :: l in ls[1..] ==> l in ls;
  }

  lemma TailFound(b: seq<byte>, q: nat, tail: seq<Label>)
    requires LabelShape(tail) && WiredAt(b, q, tail)
    ensures PrefixAt(b, q, tail)
  {
    hide Run, PrefixAt, LabelShape, WireLabels, WiredAt;
    WireRun(b, q, tail);
    PrefixOverRun(b, q, tail, q + |WireLabels(tail)|, tail);
  }

  lemma Overlap(ls: seq<Label>, i: nat, j: nat)
    requires i < j < |ls| && Mistaken(ls, i, j)
    ensures if |ls| <= 2 * j - i then ls[j..] <= ls[i..j] else ls[i..j] <= ls[j..]
  {
    var ws, sought := ls[i..j], ls[j..];
    forall k | 0 <= k < |ws| && k < |sought| ensures ws[k] == sought[k] {
      assert ls[i + k] == ls[i + k + j - i];
    }
  }

  /** Where a mistake is possible and its continuation is in the buffer, the search makes it. */
  lemma PrimedAgrees(o: Out, ls: seq<Label>, i: nat, j: nat)
    requires LabelShape(ls) && i < j < |ls| && Mistaken(ls, i, j) && Primed(o, ls, j, i, j)
    ensures Agrees(o.buf, o.pos, ls[i..j], ls[j..])
  {
    hide PrefixAt, Mistaken;
    Overlap(ls, i, j);
    if 2 * j - i < |ls| {
      var tail := ls[2 * j - i..];
      assert LabelShape(tail) by {
        assert forall l :: l in tail ==> l in ls;
      }
      hide LabelShape;
      assert ls[j..j] == [] && WireLabels(ls[j..j]) == [];
      hide WireLabels;
      TailFound(o.buf, o.pos, tail);
      assert ls[j..][j - i..] == tail;
    }
  }

  lemma PrimedStep(o: Out, ls: seq<Label>, n: nat, i: nat, j: nat)
    requires o.Valid() && i < j && n < j <= |ls| && o.pos + |ls[n]| + 1 <= |o.buf| && Primed(o, ls, n, i, j)
    ensures Primed(LabelWritten(o, ls[n]), ls, n + 1, i, j)
  {
    hide LabelBytes, RingOf;
    var o1 := LabelWritten(o, ls[n]);
    assert ls[n..j][1..] == ls[n + 1..j] && ls[n..j][0] == ls[n];
    if 2 * j - i < |ls| {
      var q, tail := o.pos + |WireLabels(ls[n..j])|, WireLabels(ls[2 * j - i..]);
      assert o1.buf[o1.pos..] == o.buf[o1.pos..];
      assert o1.buf[q..q + |tail|] == o1.buf[o1.pos..][q - o1.pos..q - o1.pos + |tail|];
      assert o.buf[q..q + |tail|] == o.buf[o1.pos..][q - o1.pos..q - o1.pos + |tail|];
    }
  }

  lemma {:induction false} MistakenIsLost(o: Out, ls: seq<Label>, n: nat, offs: seq<nat>, i: nat, j: nat, c: seq<byte>, rs: seq<Label>)
    requires Fresh(o, ls, n, offs) && |o.buf| <= 0x4000 && i < j < |ls| && j - i <= TABLE_CAPACITY && n <= j
    requires Mistaken(ls, i, j) && Primed(o, ls, n, i, j)
    requires MakeName(o, ls[n..]).Some?
    requires var x := MakeName(o, ls[n..]).value; x.buf[..x.pos] <= c
    ensures !NameAt(c, o.pos, rs, MAX_JUMPS)
    decreases |ls| - n
  {
    hide Fresh, Agrees, Primed, Mistaken, Lookup, NameAt, LabelBytes, RingOf, LabelShape, Extends, RefBytes, Put;
    FreshIs(o, ls, n, offs);
    if Lookup(o.buf, o.table, ls[n..]).Some? {
      HitIsLost(o, ls, n, offs, c, rs);
    } else if n == j {
      OwnHit(o, ls, n, offs);
      PrimedAgrees(o, ls, i, j);
    } else {
      var o1 := LabelWritten(o, ls[n]);
      assert ls[n..][1..] == ls[n + 1..];
      FreshStep(o, ls, n, offs);
      PrimedStep(o, ls, n, i, j);
      MistakenIsLost(o1, ls, n + 1, offs + [o.pos], i, j, c, if rs == [] then [] else rs[1..]);
      NameExtends(o1, ls[n + 1..]);
      ShapeAt(ls, n);
      if NameAt(c, o.pos, rs, MAX_JUMPS) {
        LabelInFront(o, ls[n], MakeName(o1, ls[n + 1..]).value, c, rs);
      }
    }
  }

  /** A name begun with a written label can be read only if what follows the label can. */
  lemma LabelInFront(o: Out, l: Label, x: Out, c: seq<byte>, rs: seq<Label>)
    requires o.Valid() && 1 <= |l| <= 63 && o.pos + |l| + 1 <= |o.buf|
    requires Extends(LabelWritten(o, l), x) && x.buf[..x.pos] <= c
    requires NameAt(c, o.pos, rs, MAX_JUMPS)
    ensures rs != [] && NameAt(c, o.pos + |l| + 1, rs[1..], MAX_JUMPS)
  {
    hide NameAt, LabelBytes, RingOf;
    var o1 := LabelWritten(o, l);
    var m1 := o1.buf[..o1.pos];
    PutPrefix(o.buf, o.pos, LabelBytes(l));
    assert m1[o.pos..o1.pos] == LabelBytes(l);
    assert m1 == x.buf[..x.pos][..o1.pos];
    DirectStable(m1, c, o.pos, l);
    RunOne(c, o.pos, l);
    NameOverRun(c, o.pos, [l], o1.pos, rs);
  }

  // ----- The first name of a message

  /** The name written first over `buf`, at `pos`, reads as its labels. */
  ghost predicate ReadsBack(buf: seq<byte>, pos: nat, ls: seq<Label>)
    requires pos <= |buf|
  {
    var x := MakeName(Out(buf, Some(RingOf([])), pos), ls);
    x.Some? && ReadName(x.value.buf[..x.value.pos], pos, MAX_FETCHES) == Some(ls)
  }

  lemma FreshBegins(buf: seq<byte>, pos: nat, ls: seq<Label>)
    requires pos <= |buf| && LabelShape(ls)
    ensures Fresh(Out(buf, Some(RingOf([])), pos), ls, 0, []) && ls[0..] == ls
  {
  }

  lemma UnmistakableReadsBack(buf: seq<byte>, pos: nat, ls: seq<Label>)
    requires LabelShape(ls) && pos + PlainSize(ls) <= |buf| <= 0x4000 && Unmistakable(ls)
    ensures ReadsBack(buf, pos, ls)
  {
    hide NameAt, MakeName, HitsWell, Fresh, Unmistakable, PlainSize, ReadName;
    var o := Out(buf, Some(RingOf([])), pos);
    MakeNameFits(o, ls);
    FreshBegins(buf, pos, ls);
    NeverHits(o, ls, 0, [], pos);
    NameReadsBackExactly(o, ls, pos);
    var x := MakeName(o, ls).value;
    ReadNameExact(x.buf[..x.pos], pos, ls, MAX_FETCHES);
  }

  /** A suffix that was written just before it within the name is replaced by a pointer into the
      name itself, over any buffer and whatever is written later: the name cannot be read at all. */
  lemma SuffixAgainIsLost(buf: seq<byte>, pos: nat, ls: seq<Label>, i: nat, j: nat, c: seq<byte>)
    requires LabelShape(ls) && pos <= |buf| <= 0x4000 && Mistaken(ls, i, j) && |ls| <= 2 * j - i
    requires var x := MakeName(Out(buf, Some(RingOf([])), pos), ls);
             x.Some? && x.value.buf[..x.value.pos] <= c
    ensures ReadName(c, pos, MAX_FETCHES).None?
  {
    hide NameAt, MakeName, Fresh, ReadName;
    FreshBegins(buf, pos, ls);
    NothingRead(Out(buf, Some(RingOf([])), pos), ls, i, j, c);
  }

  lemma NothingRead(o: Out, ls: seq<Label>, i: nat, j: nat, c: seq<byte>)
    requires Fresh(o, ls, 0, []) && |o.buf| <= 0x4000 && Mistaken(ls, i, j) && Primed(o, ls, 0, i, j)
    requires MakeName(o, ls).Some? && MakeName(o, ls).value.buf[..MakeName(o, ls).value.pos] <= c
    ensures ReadName(c, o.pos, MAX_FETCHES).None?
  {
    hide NameAt, MakeName, Fresh, ReadName, Primed;
    var read := ReadName(c, o.pos, MAX_FETCHES);
    assert ls[0..] == ls;
    if read.Some? {
      ReadNameExact(c, o.pos, read.value, MAX_FETCHES);
      MistakenIsLost(o, ls, 0, [], i, j, c, read.value);
    }
  }

  /** In particular a name whose last label is among the sixteen before it. */
  lemma LastLabelAgainIsLost(buf: seq<byte>, pos: nat, ls: seq<Label>, i: nat, c: seq<byte>)
    requires LabelShape(ls) && pos <= |buf| <= 0x4000
    requires i < |ls| - 1 <= i + TABLE_CAPACITY && ls[i] == ls[|ls| - 1]
    requires var x := MakeName(Out(buf, Some(RingOf([])), pos), ls);
             x.Some? && x.value.buf[..x.value.pos] <= c
    ensures ReadName(c, pos, MAX_FETCHES).None?
  {
    hide MakeName, LabelShape, ReadName;
    assert Mistaken(ls, i, |ls| - 1);
    SuffixAgainIsLost(buf, pos, ls, i, |ls| - 1, c);
  }

  lemma {:induction false} WireSize(ls: seq<Label>)
    ensures PlainSize(ls) == |WireLabels(ls)| + 1
  {
    if ls != [] {
      WireSize(ls[1..]);
    }
  }

  lemma {:induction false} WireConcat(x: seq<Label>, y: seq<Label>)
    ensures |WireLabels(x + y)| == |WireLabels(x)| + |WireLabels(y)|
  {
    if x == [] {
      assert x + y == y;
    } else {
      WireConcat(x[1..], y);
      assert (x + y)[1..] == x[1..] + y;
    }
  }

  /** A buffer that lets the search take `i` for `j`. */
  lemma PrimingBuffer(size: nat, pos: nat, ls: seq<Label>, i: nat, j: nat) returns (buf: seq<byte>)
    requires pos + PlainSize(ls) <= size && i < j < |ls|
    ensures |buf| == size && Primed(Out(buf, Some(RingOf([])), pos), ls, 0, i, j)
  {
    hide WireLabels, PlainSize, RingOf;
    buf := seq(size, _ => 0);
    if 2 * j - i < |ls| {
      var tail := WireLabels(ls[2 * j - i..]);
      WireSize(ls);
      assert ls == ls[0..j] + ls[j..] && ls[j..] == ls[j..2 * j - i] + ls[2 * j - i..];
      WireConcat(ls[0..j], ls[j..]);
      WireConcat(ls[j..2 * j - i], ls[2 * j - i..]);
      buf := Put(buf, pos + |WireLabels(ls[0..j])|, tail);
    }
  }

  /** The first name of a message is read back over every buffer if and only if no place in it can
      be mistaken for another: for names of up to 17 labels, if and only if no run of labels is
      repeated on the spot and the last label is nowhere else in it. */
  lemma FreshNameReadsExactly(size: nat, pos: nat, ls: seq<Label>)
    requires LabelShape(ls) && pos + PlainSize(ls) <= size <= 0x4000
    ensures (forall buf: seq<byte> :: |buf| == size ==> ReadsBack(buf, pos, ls)) <==> Unmistakable(ls)
    ensures |ls| <= TABLE_CAPACITY + 1 ==> (Unmistakable(ls) <==> NoRun(ls) && LastOnce(ls))
  {
    hide MakeName, Primed, Fresh, ReadName, PlainSize, LabelShape, NoRun, LastOnce, Mistaken, RingOf;
    if |ls| <= TABLE_CAPACITY + 1 {
      UnmistakableExactly(ls);
    }
    if Unmistakable(ls) {
      forall buf: seq<byte> | |buf| == size ensures ReadsBack(buf, pos, ls) {
        UnmistakableReadsBack(buf, pos, ls);
      }
    } else {
      var i, j :| 0 <= i < j < |ls| && Mistaken(ls, i, j);
      var buf := PrimingBuffer(size, pos, ls, i, j);
      var o := Out(buf, Some(RingOf([])), pos);
      FreshBegins(buf, pos, ls);
      MakeNameFits(o, ls);
      var x := MakeName(o, ls).value;
      NothingRead(o, ls, i, j, x.buf[..x.pos]);
      assert !ReadsBack(buf, pos, ls);
    }
  }
}
