/** Writing a dotted name into a buffer, replacing a known suffix by a back-pointer. */
module NameWriter {
  import opened Bytes
  import opened NameReader
  import opened StringTables

  /** A name to write: at least one byte, because the writer looks at its last one. */
  type NameText = s: seq<byte> | |s| > 0 witness [DOT]

  /** The name without the dot that may end it. */
  function Stripped(name: NameText): (s: seq<byte>) {
    if name[|name| - 1] == DOT then name[..|name| - 1] else name
  }

  function Labels(name: NameText): (ls: seq<Label>) {
    SplitFrom(Stripped(name), 0)
  }

  /** The state of a message being written: the buffer with whatever it held before,
      the table if there is one, and where the next byte goes. */
  datatype Out = Out(buf: seq<byte>, table: Option<Ring<nat>>, pos: nat) {
    ghost predicate Valid() {
      pos <= |buf| && (table.Some? ==> table.value.Valid())
    }

    /** Stores `s` and advances. */
    function Append(s: seq<byte>): (r: Out)
      requires pos + |s| <= |buf|
    {
      Out(Put(buf, pos, s), table, pos + |s|)
    }
  }

  /** The two bytes of a back-pointer: the offset is cut to 16 bits and its top two bits are set. */
  function RefBytes(offset: nat): (s: seq<byte>)
    ensures |s| == 2
  {
    Be16(0xC000 + offset % 0x4000)
  }

  function LabelBytes(l: Label): (s: seq<byte>)
    ensures |s| == |l| + 1
  {
    [|l| % 0x100] + l
  }

  /** Writing the labels of a name; nothing when there is not enough room. */
  ghost function MakeName(o: Out, ls: seq<Label>): (r: Option<Out>)
    requires o.Valid()
    ensures r.Some? ==> r.value.Valid() && |r.value.buf| == |o.buf| && o.pos < r.value.pos
    ensures r.Some? ==> r.value.table.Some? == o.table.Some?
    decreases |ls|
  {
    var remain := |o.buf| - o.pos;
    if ls == [] then
      if remain == 0 then None else Some(o.Append([0]))
    else
      match Lookup(o.buf, o.table, ls)
      case Some(ref) => if remain < 2 then None else Some(o.Append(RefBytes(ref)))
      case None => if remain <= |ls[0]| + 1 then None else MakeName(LabelWritten(o, ls[0]), ls[1..])
  }

  /** After one label has been written and entered in the table. */
  ghost function LabelWritten(o: Out, l: Label): (r: Out)
    requires o.Valid() && o.pos + |l| + 1 <= |o.buf|
    ensures r.Valid() && |r.buf| == |o.buf|
  {
    o.Append(LabelBytes(l)).(table := AddTo(o.table, o.pos))
  }

  ghost function OutOf(buffer: array<byte>, table: StringTable?, pos: nat): (o: Out)
    reads buffer, table
    requires table != null ==> table.Valid()
  {
    Out(buffer[..], ModelOf(table), pos)
  }

  /** A writing method did what its specification function says. What is in the buffer
      when there was no room is of no use to any caller, and nothing is said of it. */
  ghost predicate Wrote(expected: Option<Out>, r: Option<nat>, buffer: array<byte>, table: StringTable?)
    reads buffer, table
  {
    (table != null ==> table.Valid())
    && match expected
       case None => r.None?
       case Some(o) => r == Some(o.pos) && OutOf(buffer, table, o.pos) == o
  }

  method MakeRef(buffer: array<byte>, data: nat, refOffset: nat) returns (r: Option<nat>)
    requires data <= buffer.Length
    modifies buffer
    ensures r == if buffer.Length - data < 2 then None else Some(data + 2)
    ensures buffer[..] == if r.None? then old(buffer[..]) else Put(old(buffer[..]), data, RefBytes(refOffset))
  {
    if buffer.Length - data < 2 {
      return None;
    }
    CopyBytes(buffer, data, RefBytes(refOffset));
    return Some(data + 2);
  }

  /** One label, its length byte cut to eight bits, and its entry in the table. */
  method WriteLabel(buffer: array<byte>, data: nat, l: Label, table: StringTable?)
    requires data + |l| + 1 <= buffer.Length
    requires table != null ==> table.Valid()
    modifies buffer, table
    ensures table != null ==> table.Valid()
    ensures OutOf(buffer, table, data + |l| + 1) == LabelWritten(old(OutOf(buffer, table, data)), l)
  {
    ghost var before := buffer[..];
    buffer[data] := |l| % 0x100;
    CopyBytes(buffer, data + 1, l);
    TableAdd(table, data);
    PutPut(before, data, [|l| % 0x100], l);
  }

  /** How one turn of the writing loop unfolds. */
  lemma MakeStep(o: Out, str: seq<byte>, at: nat)
    requires o.Valid() && at < |str|
    ensures var l := str[at..LabelEnd(str, at)];
            MakeName(o, SplitFrom(str, at)) ==
            match Lookup(o.buf, o.table, SplitFrom(str, at))
            case Some(ref) => (if |o.buf| - o.pos < 2 then None else Some(o.Append(RefBytes(ref))))
            case None =>
              if |o.buf| - o.pos <= |l| + 1 then None
              else MakeName(LabelWritten(o, l), SplitFrom(str, LabelEnd(str, at) + 1))
  {
    hide Lookup, LabelWritten, LabelEnd;
    assert SplitFrom(str, at)[1..] == SplitFrom(str, LabelEnd(str, at) + 1);
  }

  /** One turn of the writing loop: it ends with a back-pointer or for lack of room, or
      it goes on after one label. */
  method MakeTurn(buffer: array<byte>, data: nat, text: seq<byte>, at: nat, table: StringTable?)
    returns (more: bool, r: Option<nat>, end: nat)
    requires data <= buffer.Length && at < |text|
    requires table != null ==> table.Valid()
    modifies buffer, table
    ensures table != null ==> table.Valid()
    ensures end == LabelEnd(text, at)
    ensures !more ==> Wrote(MakeName(old(OutOf(buffer, table, data)), SplitFrom(text, at)), r, buffer, table)
    ensures more ==> r.Some? && r.value <= buffer.Length
                     && MakeName(old(OutOf(buffer, table, data)), SplitFrom(text, at))
                        == MakeName(OutOf(buffer, table, r.value), SplitFrom(text, end + 1))
  {
    hide Lookup, LabelWritten, SplitFrom, MakeName, StringFind;
    MakeStep(OutOf(buffer, table, data), text, at);
    var pos := StringFind(text, DOT, at);
    end := if pos.Some? then pos.value else |text|;
    var subLength := end - at;
    var ref := TableFind(table, buffer, text, at, subLength);
    if ref.Some? {
      r := MakeRef(buffer, data, ref.value);
      return false, r, end;
    }
    if buffer.Length - data <= subLength + 1 {
      return false, None, end;
    }
    WriteLabel(buffer, data, text[at..end], table);
    return true, Some(data + subLength + 1), end;
  }

  /** Writes a name at `data` and returns the position after it. */
  method StringMake(buffer: array<byte>, data: nat, name: NameText, table: StringTable?) returns (r: Option<nat>)
    requires data <= buffer.Length
    requires table != null ==> table.Valid()
    modifies buffer, table
    ensures table != null ==> table.Valid()
    ensures Wrote(MakeName(old(OutOf(buffer, table, data)), Labels(name)), r, buffer, table)
  {
    hide SplitFrom, MakeName, LabelEnd;
    var cur: nat, lastPos: nat := data, 0;
    var length := |name|;
    if name[length - 1] == DOT {
      length := length - 1;
    }
    var text := name[..length];
    assert text == Stripped(name);
    while lastPos < length
      invariant cur <= buffer.Length
      invariant table != null ==> table.Valid()
      invariant MakeName(old(OutOf(buffer, table, data)), Labels(name))
             == MakeName(OutOf(buffer, table, cur), SplitFrom(text, lastPos))
      decreases length - lastPos
    {
      var more, next, end := MakeTurn(buffer, cur, text, lastPos, table);
      if !more {
        return next;
      }
      cur, lastPos := next.value, end + 1;
    }
    SplitNothing(text, lastPos);
    MakeNothing(OutOf(buffer, table, cur));
    if buffer.Length == cur {
      return None;
    }
    buffer[cur] := 0;
    return Some(cur + 1);
  }

  lemma SplitNothing(str: seq<byte>, at: nat)
    requires at >= |str|
    ensures SplitFrom(str, at) == []
  {
  }

  lemma MakeNothing(o: Out)
    requires o.Valid()
    ensures MakeName(o, []) == if |o.buf| == o.pos then None else Some(o.Append([0]))
  {
  }
}
