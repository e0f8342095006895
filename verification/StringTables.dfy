/** The ring of recently written label offsets, and the search for a written name
    that can be pointed back to. */
module StringTables {
  import opened Bytes
  import opened NameReader

  const TABLE_CAPACITY: nat := 16

  // ----- Splitting a dotted name

  /** The first `c` at or after `offset`. */
  function StringFind(str: seq<byte>, c: byte, offset: nat): (r: Option<nat>)
    ensures r.Some? ==> offset <= r.value < |str| && str[r.value] == c && c !in str[offset..r.value]
    ensures r.None? && offset <= |str| ==> c !in str[offset..]
    decreases |str| - offset
  {
    if offset >= |str| then None
    else if str[offset] == c then Some(offset)
    else StringFind(str, c, offset + 1)
  }

  /** Where the label that starts at `at` ends. */
  function LabelEnd(str: seq<byte>, at: nat): (e: nat)
    requires at < |str|
    ensures at <= e <= |str| && DOT !in str[at..e] && (e < |str| ==> str[e] == DOT)
  {
    match StringFind(str, DOT, at)
    case None => |str|
    case Some(p) => p
  }

  /** The labels of `str` from index `at` on. */
  function SplitFrom(str: seq<byte>, at: nat): (ls: seq<Label>)
    decreases |str| - at
  {
    if at >= |str| then []
    else [str[at..LabelEnd(str, at)]] + SplitFrom(str, LabelEnd(str, at) + 1)
  }

  // ----- The ring

  datatype Ring<T> = Ring(slots: seq<T>, next: nat) {
    ghost predicate Valid() {
      |slots| <= TABLE_CAPACITY && next < TABLE_CAPACITY && (|slots| < TABLE_CAPACITY ==> next == |slots|)
    }

    function Add(x: T): (r: Ring<T>)
      requires Valid()
      ensures r.Valid()
    {
      Ring(if |slots| < TABLE_CAPACITY then slots + [x] else slots[next := x],
           if next + 1 >= TABLE_CAPACITY then 0 else next + 1)
    }
  }

  /** The ring after the additions `xs`, oldest first. */
  function RingOf<T>(xs: seq<T>): (r: Ring<T>)
    ensures r.Valid()
  {
    if xs == [] then Ring([], 0) else RingOf(xs[..|xs| - 1]).Add(xs[|xs| - 1])
  }

  lemma SlotsApart(k: nat, n: nat)
    requires k < n < k + TABLE_CAPACITY
    ensures k % TABLE_CAPACITY != n % TABLE_CAPACITY
    ensures n < TABLE_CAPACITY ==> k % TABLE_CAPACITY == k && n % TABLE_CAPACITY == n
  {
  }

  lemma NextSlot(n: nat)
    ensures (n + 1) % TABLE_CAPACITY
         == if n % TABLE_CAPACITY + 1 >= TABLE_CAPACITY then 0 else n % TABLE_CAPACITY + 1
  {
  }

  /** After n additions the ring holds exactly the last min(n, 16) of them, the k-th in
      slot k mod 16, and the next one goes to slot n mod 16. */
  lemma {:induction false} RingHoldsLast<T>(xs: seq<T>)
    ensures RingOf(xs).next == |xs| % TABLE_CAPACITY
    ensures |RingOf(xs).slots| == if |xs| < TABLE_CAPACITY then |xs| else TABLE_CAPACITY
    ensures forall k :: 0 <= k < |xs| && |xs| <= k + TABLE_CAPACITY
              ==> RingOf(xs).slots[k % TABLE_CAPACITY] == xs[k]
  {
    if xs != [] {
      var n := |xs| - 1;
      var before := RingOf(xs[..n]);
      RingHoldsLast(xs[..n]);
      NextSlot(n);
      forall k | 0 <= k < |xs| && |xs| <= k + TABLE_CAPACITY
        ensures RingOf(xs).slots[k % TABLE_CAPACITY] == xs[k]
      {
        if k < n {
          SlotsApart(k, n);
          assert before.slots[k % TABLE_CAPACITY] == xs[..n][k];
        }
      }
    }
  }

  // ----- The search

  /** The name at `e` begins with the labels `ls`. */
  predicate PrefixAt(b: seq<byte>, e: nat, ls: seq<Label>)
    decreases |ls|
  {
    ls == []
    || (var s := Fetch(b, e, MAX_JUMPS);
        s.At? && s.length > 0 && b[s.offset..s.offset + s.length] == ls[0]
        && PrefixAt(b, s.offset + s.length, ls[1..]))
  }

  /** The first slot whose name begins with `ls`. */
  function LookupIn(b: seq<byte>, slots: seq<nat>, ls: seq<Label>): (r: Option<nat>) {
    if slots == [] then None
    else if PrefixAt(b, slots[0], ls) then Some(slots[0])
    else LookupIn(b, slots[1..], ls)
  }

  function Lookup(b: seq<byte>, table: Option<Ring<nat>>, ls: seq<Label>): (r: Option<nat>) {
    if table.None? then None else LookupIn(b, table.value.slots, ls)
  }

  /** The search is exactly a label-prefix search in slot order. */
  lemma {:induction false} LookupExact(b: seq<byte>, slots: seq<nat>, ls: seq<Label>)
    ensures LookupIn(b, slots, ls).None? <==> forall i :: 0 <= i < |slots| ==> !PrefixAt(b, slots[i], ls)
    ensures LookupIn(b, slots, ls).Some? ==>
              exists i :: 0 <= i < |slots| && slots[i] == LookupIn(b, slots, ls).value && PrefixAt(b, slots[i], ls)
                && forall j :: 0 <= j < i ==> !PrefixAt(b, slots[j], ls)
  {
    if slots != [] && !PrefixAt(b, slots[0], ls) {
      LookupExact(b, slots[1..], ls);
      if LookupIn(b, slots[1..], ls).Some? {
        var i :| 0 <= i < |slots| - 1 && slots[1..][i] == LookupIn(b, slots[1..], ls).value
          && PrefixAt(b, slots[1..][i], ls) && forall j :: 0 <= j < i ==> !PrefixAt(b, slots[1..][j], ls);
        assert slots[i + 1] == slots[1..][i];
        forall j | 0 <= j < i + 1 ensures !PrefixAt(b, slots[j], ls) {
          if j > 0 {
            assert slots[j] == slots[1..][j - 1];
          }
        }
      } else {
        forall j | 0 <= j < |slots| ensures !PrefixAt(b, slots[j], ls) {
          if j > 0 {
            assert slots[j] == slots[1..][j - 1];
          }
        }
      }
    }
  }

  /** On an entry whose name can be read, the prefix test is about that name's labels. */
  lemma {:induction false} PrefixOfName(b: seq<byte>, e: nat, full: seq<Label>, ls: seq<Label>)
    requires NameAt(b, e, full, MAX_JUMPS)
    ensures PrefixAt(b, e, ls) <==> ls <= full
    decreases |ls|
  {
    hide Fetch;
    if ls != [] && full != [] {
      var s := Fetch(b, e, MAX_JUMPS);
      PrefixOfName(b, s.offset + s.length, full[1..], ls[1..]);
      assert full == [full[0]] + full[1..] && ls == [ls[0]] + ls[1..];
      if ls <= full {
        assert ls[1..] == full[..|ls|][1..] == full[1..][..|ls| - 1];
      }
    }
  }

  /** `mdns_string_table_t`: sixteen offsets, how many are in use, and where the next goes. */
  class StringTable {
    var offset: seq<nat>
    var count: nat
    var next: nat

    ghost predicate Valid()
      reads this
    {
      |offset| == TABLE_CAPACITY && count <= TABLE_CAPACITY && Model().Valid()
    }

    ghost function Model(): (r: Ring<nat>)
      reads this
      requires count <= |offset|
    {
      Ring(offset[..count], next)
    }

    constructor ()
      ensures Valid() && Model() == RingOf([])
    {
      offset := seq(TABLE_CAPACITY, _ => 0);
      count, next := 0, 0;
    }
  }

  /** The ring behind a table pointer that may be null. */
  ghost function ModelOf(table: StringTable?): (r: Option<Ring<nat>>)
    reads table
    requires table != null ==> table.Valid()
  {
    if table == null then None else Some(table.Model())
  }

  ghost function AddTo<T>(table: Option<Ring<T>>, x: T): (r: Option<Ring<T>>)
    requires table.Some? ==> table.value.Valid()
    ensures r.Some? == table.Some? && (r.Some? ==> r.value.Valid())
  {
    if table.None? then None else Some(table.value.Add(x))
  }

  method TableAdd(table: StringTable?, offset: nat)
    requires table != null ==> table.Valid()
    modifies table
    ensures table != null ==> table.Valid()
    ensures ModelOf(table) == AddTo(old(ModelOf(table)), offset)
  {
    if table == null {
      return;
    }
    ghost var slots, count := table.offset[..table.count], table.count;
    assert table.offset[table.next := offset][..if count < TABLE_CAPACITY then count + 1 else count]
        == if count < TABLE_CAPACITY then slots + [offset] else slots[table.next := offset];
    table.offset := table.offset[table.next := offset];
    table.count := table.count + 1;
    if table.count > TABLE_CAPACITY {
      table.count := TABLE_CAPACITY;
    }
    table.next := table.next + 1;
    if table.next >= TABLE_CAPACITY {
      table.next := 0;
    }
  }

  /** Searches for the labels of `str` from index `at` on; the first of them has `firstLength` bytes. */
  method TableFind(table: StringTable?, buffer: array<byte>, str: seq<byte>, at: nat, firstLength: nat)
    returns (r: Option<nat>)
    requires table != null ==> table.Valid()
    requires at < |str| && at + firstLength == LabelEnd(str, at)
    ensures r == Lookup(buffer[..], ModelOf(table), SplitFrom(str, at))
  {
    hide Fetch, StringFind, LabelEnd;
    if table == null {
      return None;
    }
    ghost var ls := SplitFrom(str, at);
    var istr := 0;
    while istr < table.count
      invariant istr <= table.count
      invariant LookupIn(buffer[..], table.offset[..table.count], ls)
             == LookupIn(buffer[..], table.offset[istr..table.count], ls)
    {
      var entry := table.offset[istr];
      assert table.offset[istr..table.count][0] == entry;
      assert table.offset[istr..table.count][1..] == table.offset[istr + 1..table.count];
      istr := istr + 1;
      if entry >= buffer.Length {
        continue;
      }
      var hit := EntryMatches(buffer[..], entry, str, at, firstLength);
      if hit {
        return Some(entry);
      }
    }
    return None;
  }

  /** Whether what was fetched is the label between two indices of a string. */
  predicate IsLabel(buffer: seq<byte>, sub: Substring, str: seq<byte>, at: nat, end: nat)
    requires at <= end <= |str|
    requires sub.At? ==> sub.offset + sub.length <= |buffer|
  {
    sub.At? && sub.length > 0 && sub.length == end - at
    && str[at..end] == buffer[sub.offset..sub.offset + sub.length]
  }

  lemma PrefixStep(buffer: seq<byte>, from: nat, str: seq<byte>, at: nat)
    requires at < |str|
    ensures var sub := Fetch(buffer, from, MAX_JUMPS);
            (PrefixAt(buffer, from, SplitFrom(str, at))
        <==> IsLabel(buffer, sub, str, at, LabelEnd(str, at))
             && PrefixAt(buffer, sub.offset + sub.length, SplitFrom(str, LabelEnd(str, at) + 1)))
  {
    hide Fetch, LabelEnd;
    assert SplitFrom(str, at)[0] == str[at..LabelEnd(str, at)];
    assert SplitFrom(str, at)[1..] == SplitFrom(str, LabelEnd(str, at) + 1);
  }

  /** The body of the search loop: does the entry begin with the labels sought? */
  method EntryMatches(buffer: seq<byte>, entry: nat, str: seq<byte>, at: nat, firstLength: nat) returns (hit: bool)
    requires at < |str| && at + firstLength == LabelEnd(str, at)
    ensures hit == PrefixAt(buffer, entry, SplitFrom(str, at))
  {
    hide Fetch, PrefixAt, SplitFrom;
    PrefixStep(buffer, entry, str, at);
    var sub, _ := NextSubstring(buffer, entry);
    if sub.Invalid? || sub.length == 0 || sub.length != firstLength {
      return false;
    }
    if str[at..at + firstLength] != buffer[sub.offset..sub.offset + sub.length] {
      return false;
    }
    var offset := at + firstLength + 1;
    while offset < |str|
      invariant sub.At? && sub.offset + sub.length <= |buffer|
      invariant PrefixAt(buffer, entry, SplitFrom(str, at)) == PrefixAt(buffer, sub.offset + sub.length, SplitFrom(str, offset))
    {
      PrefixStep(buffer, sub.offset + sub.length, str, offset);
      var dotPos := StringFind(str, DOT, offset);
      var labelEnd := if dotPos.None? then |str| else dotPos.value;
      var next, _ := NextSubstring(buffer, sub.offset + sub.length);
      sub := next;
      if sub.Invalid? || sub.length == 0 || sub.length != labelEnd - offset {
        return false;
      }
      if str[offset..labelEnd] != buffer[sub.offset..sub.offset + sub.length] {
        return false;
      }
      offset := labelEnd + 1;
    }
    NothingSought(buffer, sub.offset + sub.length, str, offset);
    return true;
  }

  lemma NothingSought(buffer: seq<byte>, from: nat, str: seq<byte>, at: nat)
    requires at >= |str|
    ensures PrefixAt(buffer, from, SplitFrom(str, at))
  {
  }
}
