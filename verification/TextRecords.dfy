/** What the repository's own text strings say to its own parser. The writer stores a NUL where
    the parser looks for '=', passes over the value, and cuts the length to one byte. */
module TextRecords {
  import opened Bytes
  import opened Records
  import opened RecordCodec
  import opened Parser
  import opened RoundTrip
  import opened TxtParser

  /** A text string with the parser's separator already in its key, after a nonempty printable part. */
  predicate SaysPair(t: RecordData)
    requires t.Txt?
  {
    EQUALS in t.key && Conforming(t.key)
  }

  /** The strings that say a pair. */
  function Said(strings: seq<RecordData>): (said: seq<RecordData>)
    ensures |said| <= |strings| && forall t :: t in said ==> t.Txt? && SaysPair(t)
  {
    if strings == [] then []
    else (if strings[0].Txt? && SaysPair(strings[0]) then [strings[0]] else []) + Said(strings[1..])
  }

  /** The pair read for a string: its key is the string's up to the '='; what is read as its value
      is the rest of the key, the NUL and the place of the value. */
  predicate Found(m: seq<byte>, p: TxtPair, t: RecordData)
    requires t.Txt?
  {
    var k := KeyOf(t.key);
    |k| < |t.key| && p.keyAt + |t.key| + 1 + |t.value| <= |m| && p.keyLength == |k|
    && m[p.keyAt..p.keyAt + |t.key| + 1] == t.key + [0]
    && p.valueAt == Some(p.keyAt + |k| + 1) && p.valueLength == |t.key| - |k| + |t.value|
  }

  /** The pairs read are those of the first strings, as many as there is room for. */
  predicate Reads(m: seq<byte>, ps: seq<TxtPair>, said: seq<RecordData>, capacity: nat) {
    |ps| == (if |said| <= capacity then |said| else capacity)
    && forall i :: 0 <= i < |ps| ==> said[i].Txt? && Found(m, ps[i], said[i])
  }

  lemma ReadsCons(m: seq<byte>, p: TxtPair, ps: seq<TxtPair>, t: RecordData, said: seq<RecordData>, capacity: nat)
    requires capacity > 0 && Reads(m, ps, said, capacity - 1) && t.Txt? && Found(m, p, t)
    ensures Reads(m, [p] + ps, [t] + said, capacity)
  {
    hide Found;
  }

  /** A string is a pair to the parser only through an '=' of its key: without one the NUL is
      taken for part of the key, and is not printable. */
  lemma KeyBeforeNul(key: seq<byte>, rest: seq<byte>)
    ensures Conforming(key + [0] + rest) <==> EQUALS in key && Conforming(key)
    ensures EQUALS in key ==> KeyOf(key + [0] + rest) == KeyOf(key) && |KeyOf(key)| < |key|
  {
    var s, k := key + [0] + rest, KeyOf(key);
    if EQUALS in key {
      KeyEndsAt(key, |k|);
      assert k == key[..|k|];
      assert s[|k|] == EQUALS && s[..|k|] == k;
      assert forall i :: 0 <= i < |k| ==> s[i] == k[i] && k[i] in k;
      KeyEndsAt(s, |k|);
    } else {
      assert forall i :: 0 <= i < |key| ==> s[i] == key[i] && key[i] in key;
      assert s[|key|] == 0;
      KeyEndsAt(s, |key| + 1);
      assert KeyOf(s)[|key|] == s[..|key| + 1][|key|] == 0;
      assert 0 in KeyOf(s);
    }
  }

  lemma TextParts(m: seq<byte>, at: nat, text: seq<byte>, strings: seq<RecordData>)
    requires strings != [] && IsText(text, strings) && at + |text| <= |m| && m[at..at + |text|] == text
    ensures var t := strings[0];
            var n := TxtLength(t);
            m[at] == n % 0x100 && |text| > n && at + 1 + n <= |m|
            && m[at + 1..at + 2 + |t.key|] == t.key + [0] && m[at + 1 + n..at + |text|] == text[n + 1..]
            && |text[n + 1..]| == |text| - n - 1
  {
    hide IsText;
    var t := strings[0];
    TextBegins(text, strings);
    var n := TxtLength(t);
    assert text == TxtStart(t) + text[|t.key| + 2..];
    Slice(m, at, text, 0, |t.key| + 2);
    assert m[at..at + |t.key| + 2] == TxtStart(t);
    assert m[at] == m[at..at + |t.key| + 2][0];
    assert m[at + 1..at + |t.key| + 2] == m[at..at + |t.key| + 2][1..];
    Slice(m, at, text, n + 1, |text| - n - 1);
  }

  lemma TextBegins(text: seq<byte>, strings: seq<RecordData>)
    requires strings != [] && IsText(text, strings)
    ensures var t := strings[0]; t.Txt? && |text| > TxtLength(t) && TxtStart(t) <= text
  {
  }

  /** How a string is read, whatever its length: as one of as many bytes as the cut length says,
      and then from wherever these end, which for a string of more than 255 bytes is inside it. */
  lemma StringIsRead(m: seq<byte>, at: nat, text: seq<byte>, strings: seq<RecordData>, capacity: nat)
    requires strings != [] && IsText(text, strings) && at + |text| <= |m| && m[at..at + |text|] == text && capacity > 0
    ensures var n := TxtLength(strings[0]) % 0x100;
            var next, end := at + 1 + n, at + |text|;
            next <= end
            && PairsFrom(m, at, end, capacity) ==
               if Conforming(m[at + 1..next]) then [PairAt(m[at + 1..next], at + 1)] + PairsFrom(m, next, end, capacity - 1)
               else PairsFrom(m, next, end, capacity)
  {
    hide KeyOf, Conforming, PairAt, IsText;
    TextParts(m, at, text, strings);
  }

  /** The parser finds, in the strings of a text record as the writer leaves them, exactly those
      whose '=' was in the key already, as many as there is room for. This is for strings whose
      length fits its byte: see the witness below. */
  lemma {:induction false} WrittenTextSays(m: seq<byte>, at: nat, text: seq<byte>, strings: seq<RecordData>, capacity: nat)
    requires IsText(text, strings) && forall t :: t in strings && t.Txt? ==> TxtLength(t) <= 0xFF
    requires at + |text| <= |m| && m[at..at + |text|] == text
    ensures Reads(m, PairsFrom(m, at, at + |text|, capacity), Said(strings), capacity)
    decreases |strings|
  {
    hide KeyOf, Conforming, SaysPair, PairAt, PairsFrom, Reads, TxtLength, TxtStart, Found;
    var end := at + |text|;
    if strings == [] || capacity == 0 {
      NothingSaid(m, at, end, capacity);
    } else {
      var t := strings[0];
      TextBegins(text, strings);
      assert t in strings && TxtLength(t) % 0x100 == TxtLength(t);
      var next := at + 1 + TxtLength(t);
      TextParts(m, at, text, strings);
      StringIsRead(m, at, text, strings, capacity);
      StringSays(m, at + 1, t);
      var rest := text[TxtLength(t) + 1..];
      if Conforming(m[at + 1..next]) {
        WrittenTextSays(m, next, rest, strings[1..], capacity - 1);
        ReadsCons(m, PairAt(m[at + 1..next], at + 1), PairsFrom(m, next, end, capacity - 1), t, Said(strings[1..]), capacity);
      } else {
        WrittenTextSays(m, next, rest, strings[1..], capacity);
        assert [] + Said(strings[1..]) == Said(strings[1..]);
      }
    }
  }

  lemma NothingSaid(m: seq<byte>, at: nat, end: nat, capacity: nat)
    requires at <= end <= |m| && (at == end || capacity == 0)
    ensures PairsFrom(m, at, end, capacity) == []
    ensures forall said: seq<RecordData> :: capacity == 0 || said == [] ==> Reads(m, [], said, capacity)
  {
  }

  lemma StringSays(m: seq<byte>, at: nat, t: RecordData)
    requires t.Txt? && at + TxtLength(t) <= |m| && m[at..at + |t.key| + 1] == t.key + [0]
    ensures var s := m[at..at + TxtLength(t)];
            (Conforming(s) <==> SaysPair(t)) && (SaysPair(t) ==> Found(m, PairAt(s, at), t))
  {
    hide KeyOf, Conforming;
    var s := m[at..at + TxtLength(t)];
    assert s == t.key + [0] + s[|t.key| + 1..];
    KeyBeforeNul(t.key, s[|t.key| + 1..]);
  }

  lemma {:induction false} AllSaid(strings: seq<RecordData>)
    requires AllTxt(strings)
    ensures |Said(strings)| == |strings| <==> forall t :: t in strings ==> SaysPair(t)
    ensures (forall t :: t in strings ==> EQUALS !in t.key) ==> Said(strings) == []
  {
    hide KeyOf, Conforming;
    if strings != [] {
      AllSaid(strings[1..]);
      assert forall t :: t in strings <==> t == strings[0] || t in strings[1..];
    }
  }

  /** Given room, the parser returns a pair for every string of the record if and only if each key
      has an '=' in it after a nonempty printable part; for keys as the standard asks for, which
      have none, it returns nothing. */
  lemma AllReadExactly(m: seq<byte>, at: nat, text: seq<byte>, strings: seq<RecordData>, capacity: nat)
    requires AllTxt(strings) && IsText(text, strings) && forall t :: t in strings ==> TxtLength(t) <= 0xFF
    requires at + |text| <= |m| && m[at..at + |text|] == text && |strings| <= capacity
    ensures |PairsFrom(m, at, at + |text|, capacity)| == |strings| <==> forall t :: t in strings ==> SaysPair(t)
    ensures (forall t :: t in strings ==> EQUALS !in t.key) ==> PairsFrom(m, at, at + |text|, capacity) == []
  {
    hide SaysPair, Found, IsText, TxtLength, PairsFrom;
    WrittenTextSays(m, at, text, strings, capacity);
    AllSaid(strings);
  }

  /** So it is with the text record that is delivered from a whole message. */
  lemma DeliveredTextSays(m: seq<byte>, d: Delivery, item: Item, entry: EntryType, id: u16, capacity: nat)
    requires Recovered(m, d, item, entry, id) && item.Texts? && forall t :: t in item.strings && t.Txt? ==> TxtLength(t) <= 0xFF
    ensures Reads(m, PairsFrom(m, d.recordOffset, TxtEnd(m, d.recordOffset, d.recordLength), capacity), Said(item.strings), capacity)
  {
    hide Reads, IsText, TxtLength;
    WrittenTextSays(m, d.recordOffset, m[d.recordOffset..d.recordOffset + d.recordLength], item.strings, capacity);
  }

  // ----- Where the length does not fit its byte

  const LONG_KEY: seq<byte> := seq(255, _ => 0x41)

  /** The key of 255 letters `A` makes a string of 256 bytes, whose length byte is 0: the parser takes
      the key's own letters for lengths and finds a pair where the string says none. */
  lemma LongKeyIsMisread(m: seq<byte>, at: nat, text: seq<byte>, capacity: nat)
    requires IsText(text, [Txt(LONG_KEY, [])]) && at + |text| <= |m| && m[at..at + |text|] == text && capacity > 0
    ensures TxtLength(Txt(LONG_KEY, [])) == 256 && Said([Txt(LONG_KEY, [])]) == []
    ensures PairsFrom(m, at, at + |text|, capacity) != []
  {
    hide KeyOf, Conforming, IsText, PairsFrom, PairAt, Said, LONG_KEY;
    var t := Txt(LONG_KEY, []);
    LongKeyLength();
    TextParts(m, at, text, [t]);
    StringIsRead(m, at, text, [t], capacity);
    LongKeySays();
    EmptyIsNone();
    assert m[at + 1..at + 1] == [];
    LettersAreRead(m, at + 1, at + |text|, capacity);
  }

  lemma LongKeyLength()
    ensures |LONG_KEY| == 255
  {
  }

  /** From a key of 255 letters on, the parser reads the first as a length. */
  lemma LettersAreRead(m: seq<byte>, at: nat, end: nat, capacity: nat)
    requires at + 0x42 < end <= |m| && at + 256 <= end && m[at..at + 256] == LONG_KEY + [0] && capacity > 0
    ensures PairsFrom(m, at, end, capacity) != []
  {
    hide KeyOf, Conforming, PairAt;
    var s := m[at + 1..at + 1 + 0x41];
    Slice(m, at, LONG_KEY + [0], 0, 1);
    Slice(m, at, LONG_KEY + [0], 1, 0x41);
    assert m[at] == m[at..at + 1][0] == 0x41;
    assert forall c :: c in s ==> c == 0x41;
    LettersConform(s);
  }

  lemma LongKeySays()
    ensures Said([Txt(LONG_KEY, [])]) == []
  {
    var strings: seq<RecordData> := [Txt(LONG_KEY, [])];
    assert strings[1..] == [] && EQUALS !in LONG_KEY;
  }

  lemma EmptyIsNone()
    ensures !Conforming([])
  {
  }

  lemma LettersConform(s: seq<byte>)
    requires s != [] && forall c :: c in s ==> c == 0x41
    ensures Conforming(s)
  {
    assert forall i :: 0 <= i < |s| ==> s[i] in s;
    KeyEndsAt(s, |s|);
  }
}
