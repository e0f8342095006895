/** Reading the strings of a text record as key-value pairs (section 6 of RFC 6763). */
module TxtParser {
  import opened Bytes

  const EQUALS: byte := 0x3D

  /** Where the key and the value of a pair are; no value when the string has no '='. */
  datatype TxtPair = TxtPair(keyAt: nat, keyLength: nat, valueAt: Option<nat>, valueLength: nat)

  predicate Printable(c: byte) {
    0x20 <= c <= 0x7E
  }

  /** The bytes before the first '='; all of them when there is none. */
  function KeyOf(s: seq<byte>): (k: seq<byte>)
    ensures k <= s && EQUALS !in k && (|k| < |s| ==> s[|k|] == EQUALS)
  {
    if s == [] || s[0] == EQUALS then [] else
      var k := [s[0]] + KeyOf(s[1..]);
      assert s == [s[0]] + s[1..];
      k
  }

  predicate AllPrintable(s: seq<byte>) {
    forall c :: c in s ==> Printable(c)
  }

  /** A string that is a pair: its key is not empty and is printable US-ASCII. */
  predicate Conforming(s: seq<byte>) {
    KeyOf(s) != [] && AllPrintable(KeyOf(s))
  }

  function PairAt(s: seq<byte>, at: nat): (p: TxtPair) {
    var n := |KeyOf(s)|;
    if n < |s| then TxtPair(at, n, Some(at + n + 1), |s| - n - 1) else TxtPair(at, n, None, 0)
  }

  /** The pairs of the strings from `at` to `end`, at most `capacity` of them: a string that
      does not conform is passed over, one that would run past the end stops the reading. */
  function PairsFrom(m: seq<byte>, at: nat, end: nat, capacity: nat): (ps: seq<TxtPair>)
    requires end <= |m|
    ensures |ps| <= capacity
    decreases end - at
  {
    if at >= end || capacity == 0 || m[at] >= end - at then []
    else
      var next := at + 1 + m[at];
      var s := m[at + 1..next];
      if Conforming(s) then [PairAt(s, at + 1)] + PairsFrom(m, next, end, capacity - 1)
      else PairsFrom(m, next, end, capacity)
  }

  function TxtEnd(m: seq<byte>, offset: nat, length: nat): (end: nat)
    ensures end <= |m|
  {
    if |m| < offset + length then |m| else offset + length
  }

  /** A pair inside a stretch of the message: a nonempty printable key without '=', then
      nothing, or '=' and the value. */
  predicate PairInside(m: seq<byte>, p: TxtPair, from: nat, to: nat)
    requires to <= |m|
  {
    from <= p.keyAt && p.keyLength > 0 && p.keyAt + p.keyLength <= to
    && (forall i :: p.keyAt <= i < p.keyAt + p.keyLength ==> 0x20 <= m[i] <= 0x7E && m[i] != 0x3D)
    && match p.valueAt
       case None => p.valueLength == 0
       case Some(v) => v == p.keyAt + p.keyLength + 1 && v + p.valueLength <= to && m[v - 1] == 0x3D
  }

  lemma {:induction false} PairsInside(m: seq<byte>, at: nat, end: nat, capacity: nat)
    requires end <= |m|
    ensures forall p :: p in PairsFrom(m, at, end, capacity) ==> PairInside(m, p, at + 1, end)
    decreases end - at
  {
    hide KeyOf, AllPrintable;
    if at >= end || capacity == 0 || m[at] >= end - at {
    } else {
      var next := at + 1 + m[at];
      var s := m[at + 1..next];
      PairsInside(m, next, end, if Conforming(s) then capacity - 1 else capacity);
      if Conforming(s) {
        var n := |KeyOf(s)|;
        assert m[at + 1..at + 1 + n] == s[..n] == KeyOf(s);
        KeyIsPlain(m, at + 1, KeyOf(s));
      }
    }
  }

  lemma KeyIsPlain(m: seq<byte>, at: nat, key: seq<byte>)
    requires at + |key| <= |m| && m[at..at + |key|] == key && AllPrintable(key) && EQUALS !in key
    ensures forall i :: at <= i < at + |key| ==> 0x20 <= m[i] <= 0x7E && m[i] != 0x3D
  {
    forall i | at <= i < at + |key| ensures 0x20 <= m[i] <= 0x7E && m[i] != 0x3D {
      assert m[i] == key[i - at] && key[i - at] in key;
    }
  }

  /** The separator loop: where the key ends, or 0 for a string that does not conform. */
  method FindSeparator(s: seq<byte>) returns (separator: nat)
    ensures separator == if Conforming(s) then |KeyOf(s)| else 0
    ensures Conforming(s) <==> separator > 0
  {
    separator := |s|;
    var c := 0;
    while c < |s|
      invariant 0 <= c <= |s| && separator == |s|
      invariant forall i :: 0 <= i < c ==> Printable(s[i]) && s[i] != EQUALS
    {
      if !Printable(s[c]) {
        separator := 0;
        if c < |KeyOf(s)| {
          assert KeyOf(s)[c] == s[c];
        }
        break;
      }
      if s[c] == EQUALS {
        separator := c;
        break;
      }
      c := c + 1;
    }
    KeyEndsAt(s, c);
  }

  /** A stretch without '=' belongs to the key; the first '=' ends it. */
  lemma KeyEndsAt(s: seq<byte>, c: nat)
    requires c <= |s| && forall i :: 0 <= i < c ==> s[i] != EQUALS
    ensures |KeyOf(s)| >= c && KeyOf(s)[..c] == s[..c]
    ensures c == |s| || s[c] == EQUALS ==> KeyOf(s) == s[..c]
  {
    var k := KeyOf(s);
    assert forall i :: 0 <= i < |k| ==> k[i] in k;
  }

  method RecordParseTxt(buffer: seq<byte>, offset: nat, length: nat, records: array<TxtPair>, capacity: nat) returns (parsed: nat)
    requires capacity <= records.Length
    modifies records
    ensures parsed <= capacity
    ensures records[..parsed] == PairsFrom(buffer, offset, TxtEnd(buffer, offset, length), capacity)
    ensures records[parsed..] == old(records[parsed..])
  {
    hide KeyOf, AllPrintable, Conforming, TxtEnd, PairsFrom, PairAt;
    parsed := 0;
    var at, end := offset, TxtEnd(buffer, offset, length);
    ghost var was, done: seq<TxtPair> := records[..], [];
    assert [] + PairsFrom(buffer, offset, end, capacity) == PairsFrom(buffer, offset, end, capacity);
    while at < end && parsed < capacity
      invariant parsed == |done| <= capacity && end <= |buffer|
      invariant PairsFrom(buffer, offset, end, capacity) == done + PairsFrom(buffer, at, end, capacity - parsed)
      invariant records[..] == done + was[parsed..]
      decreases end - at
    {
      var sublength := buffer[at];
      if sublength >= end - at {
        break;
      }
      PairsTurn(buffer, at, end, capacity - parsed);
      var start := at + 1;
      at := at + sublength + 1;
      var s := buffer[start..at];
      var separator := FindSeparator(s);
      if separator == 0 {
        continue;
      }
      var pair := if separator < sublength
                  then TxtPair(start, separator, Some(start + separator + 1), sublength - (separator + 1))
                  else TxtPair(start, sublength, None, 0);
      PairIs(s, start);
      records[parsed] := pair;
      parsed := parsed + 1;
      StoredNext(was, done, pair, PairsFrom(buffer, at, end, capacity - parsed));
      done := done + [pair];
    }
    PairsOver(buffer, at, end, capacity - parsed);
    assert done + [] == done;
    assert records[..parsed] == records[..][..parsed] && records[parsed..] == records[..][parsed..];
  }

  lemma StoredNext(was: seq<TxtPair>, done: seq<TxtPair>, x: TxtPair, rest: seq<TxtPair>)
    requires |done| < |was|
    ensures (done + was[|done|..])[|done| := x] == done + [x] + was[|done| + 1..]
    ensures done + ([x] + rest) == done + [x] + rest
  {
  }

  lemma PairsTurn(m: seq<byte>, at: nat, end: nat, capacity: nat)
    requires at < end <= |m| && capacity > 0 && m[at] < end - at
    ensures var next := at + 1 + m[at];
            var s := m[at + 1..next];
            PairsFrom(m, at, end, capacity) ==
            if Conforming(s) then [PairAt(s, at + 1)] + PairsFrom(m, next, end, capacity - 1)
            else PairsFrom(m, next, end, capacity)
  {
    hide KeyOf, Conforming, PairAt;
  }

  lemma PairsOver(m: seq<byte>, at: nat, end: nat, capacity: nat)
    requires end <= |m| && (at >= end || capacity == 0 || m[at] >= end - at)
    ensures PairsFrom(m, at, end, capacity) == []
  {
  }

  lemma PairIs(s: seq<byte>, at: nat)
    ensures var n := |KeyOf(s)|;
            n <= |s| && PairAt(s, at) == if n < |s| then TxtPair(at, n, Some(at + n + 1), |s| - n - 1) else TxtPair(at, |s|, None, 0)
  {
  }

  // ----- Round trip with the standard's encoding

  /** A key, and a value or none. */
  datatype KeyValue = KeyValue(key: seq<byte>, value: Option<seq<byte>>)

  /** The string of a pair, without its length byte. */
  function PairText(p: KeyValue): (s: seq<byte>) {
    if p.value.Some? then p.key + [EQUALS] + p.value.value else p.key
  }

  /** A nonempty printable key without '=', in a string of at most 255 bytes. */
  predicate WellFormedPair(p: KeyValue) {
    p.key != [] && (forall c :: c in p.key ==> 0x20 <= c <= 0x7E && c != 0x3D) && |PairText(p)| <= 0xFF
  }

  predicate WellFormedPairs(ps: seq<KeyValue>) {
    forall p :: p in ps ==> WellFormedPair(p)
  }

  function EncodePairs(ps: seq<KeyValue>): (s: seq<byte>)
    requires WellFormedPairs(ps)
  {
    if ps == [] then []
    else
      assert ps[0] in ps && WellFormedPairs(ps[1..]);
      [|PairText(ps[0])|] + PairText(ps[0]) + EncodePairs(ps[1..])
  }

  /** The bytes a parsed pair stands for. */
  function PairMeans(m: seq<byte>, p: TxtPair): (r: Option<KeyValue>) {
    if p.keyAt + p.keyLength > |m| then None
    else
      var key := m[p.keyAt..p.keyAt + p.keyLength];
      match p.valueAt
      case None => Some(KeyValue(key, None))
      case Some(v) => if v + p.valueLength > |m| then None else Some(KeyValue(key, Some(m[v..v + p.valueLength])))
  }

  lemma KeyOfText(p: KeyValue)
    requires WellFormedPair(p)
    ensures KeyOf(PairText(p)) == p.key && Conforming(PairText(p))
  {
    assert forall i :: 0 <= i < |p.key| ==> p.key[i] in p.key;
    KeyEndsAt(PairText(p), |p.key|);
    assert PairText(p)[..|p.key|] == p.key;
  }

  lemma PairReadsBack(m: seq<byte>, at: nat, p: KeyValue)
    requires WellFormedPair(p) && at + |PairText(p)| <= |m| && m[at..at + |PairText(p)|] == PairText(p)
    ensures PairMeans(m, PairAt(PairText(p), at)) == Some(p)
  {
    hide KeyOf, AllPrintable;
    KeyOfText(p);
    var s, n := PairText(p), |p.key|;
    assert m[at..at + n] == m[at..at + |s|][..n] == p.key;
    if p.value.Some? {
      assert m[at + n + 1..at + |s|] == m[at..at + |s|][n + 1..] == p.value.value;
    }
  }

  lemma EncodedIs(ps: seq<KeyValue>)
    requires WellFormedPairs(ps) && ps != []
    ensures WellFormedPair(ps[0]) && WellFormedPairs(ps[1..])
    ensures EncodePairs(ps) == [|PairText(ps[0])|] + PairText(ps[0]) + EncodePairs(ps[1..])
  {
    hide PairText;
    assert ps[0] in ps;
  }

  lemma PartsOf(m: seq<byte>, at: nat, n: byte, s: seq<byte>, rest: seq<byte>)
    requires at + 1 + |s| + |rest| <= |m| && m[at..at + 1 + |s| + |rest|] == [n] + s + rest
    ensures m[at] == n && m[at + 1..at + 1 + |s|] == s && m[at + 1 + |s|..at + 1 + |s| + |rest|] == rest
  {
    var w := [n] + s + rest;
    Slice(m, at, w, 0, 1);
    Slice(m, at, w, 1, |s|);
    Slice(m, at, w, 1 + |s|, |rest|);
    assert m[at] == m[at..at + 1][0];
  }

  /** Encoding well-formed pairs anywhere in a message and parsing them gives them back in
      order, as many as there is room for. */
  lemma {:induction false} PairsRoundTrip(m: seq<byte>, at: nat, ps: seq<KeyValue>, capacity: nat)
    requires WellFormedPairs(ps)
    requires at + |EncodePairs(ps)| <= |m| && m[at..at + |EncodePairs(ps)|] == EncodePairs(ps)
    ensures var read := PairsFrom(m, at, at + |EncodePairs(ps)|, capacity);
            |read| == (if |ps| <= capacity then |ps| else capacity)
            && forall i :: 0 <= i < |read| ==> PairMeans(m, read[i]) == Some(ps[i])
    decreases |ps|
  {
    hide KeyOf, AllPrintable, PairMeans, PairText, Conforming, PairAt, EncodePairs, WellFormedPair;
    if ps == [] {
      EncodedNone();
    } else if capacity > 0 {
      EncodedIs(ps);
      TextFits(ps[0]);
      var s := PairText(ps[0]);
      var end, next := at + |EncodePairs(ps)|, at + 1 + |s|;
      PartsOf(m, at, |s|, s, EncodePairs(ps[1..]));
      KeyOfText(ps[0]);
      PairReadsBack(m, at + 1, ps[0]);
      PairsRoundTrip(m, next, ps[1..], capacity - 1);
      assert PairsFrom(m, at, end, capacity) == [PairAt(s, at + 1)] + PairsFrom(m, next, end, capacity - 1);
    }
  }

  lemma TextFits(p: KeyValue)
    requires WellFormedPair(p)
    ensures |PairText(p)| <= 0xFF
  {
  }

  lemma EncodedNone()
    ensures EncodePairs([]) == []
  {
  }
}
