/** Reading compressed names (section 4.1.4 of RFC 1035): label fetching through
    back-pointers, skipping, comparing and extracting, on arbitrary bytes. */
module NameReader {
  import opened Bytes

  type Label = seq<byte>

  // The measures below name the buffer after the count, so that a constant count
  // is not taken as a licence to unroll the whole recursion.

  const MAX_JUMPS: nat := 16
  /** A name is read in at most this many successful label fetches, the terminator included. */
  const MAX_FETCHES: nat := 65
  const DOT: byte := 0x2E

  /** What fetching one label yields: nothing, or the offset and length of its
      bytes and whether a back-pointer was followed to find them. */
  datatype Substring = Invalid | At(offset: nat, length: nat, ref: bool)

  predicate IsStringRef(v: byte) {
    v >= 0xC0
  }

  function RefTarget(b: seq<byte>, o: nat): (t: nat)
    requires o + 2 <= |b|
  {
    Get16(b, o) % 0x4000
  }

  /** The first byte that is not a back-pointer, following at most `jumps` of them. */
  function FollowRefs(b: seq<byte>, o: nat, jumps: nat): (r: Option<nat>)
    requires o < |b|
    ensures r.Some? ==> r.value < |b| && !IsStringRef(b[r.value])
    decreases jumps, b
  {
    if !IsStringRef(b[o]) then Some(o)
    else if |b| < o + 2 || RefTarget(b, o) >= |b| || jumps == 0 then None
    else FollowRefs(b, RefTarget(b, o), jumps - 1)
  }

  function Fetch(b: seq<byte>, o: nat, jumps: nat): (r: Substring)
    ensures r.At? ==> o < |b| && r.offset + r.length <= |b|
    ensures r.At? && r.length > 0 ==> r.ref == IsStringRef(b[o])
  {
    if o >= |b| then Invalid
    else if b[o] == 0 then At(o, 0, false)
    else
      match FollowRefs(b, o, jumps)
      case None => Invalid
      case Some(p) =>
        if |b| < p + 1 + b[p] then Invalid else At(p + 1, b[p], IsStringRef(b[o]))
  }

  /** `ls` is the name that starts at offset `o`: this is the meaning of a name,
      with no bound on its number of labels. */
  predicate NameAt(b: seq<byte>, o: nat, ls: seq<Label>, jumps: nat)
    decreases |ls|
  {
    match Fetch(b, o, jumps)
    case Invalid => false
    case At(p, n, _) =>
      if n == 0 then ls == []
      else ls != [] && b[p..p + n] == ls[0] && NameAt(b, p + n, ls[1..], jumps)
  }

  /** The labels of the name at `o`, read in at most `fetches` successful fetches. */
  function ReadName(b: seq<byte>, o: nat, fetches: nat): (r: Option<seq<Label>>)
    decreases fetches, b
  {
    match Fetch(b, o, MAX_JUMPS)
    case Invalid => None
    case At(p, n, _) =>
      if fetches == 0 then None
      else if n == 0 then Some([])
      else
        var rest :- ReadName(b, p + n, fetches - 1);
        Some([b[p..p + n]] + rest)
  }

  /** Where the encoding of the name at `o` itself ends: after its terminator or
      after its first back-pointer, whose target is not looked at any further. */
  function NameEnd(b: seq<byte>, o: nat, fetches: nat): (r: Option<nat>)
    decreases fetches, b
  {
    match Fetch(b, o, MAX_JUMPS)
    case Invalid => None
    case At(p, n, ref) =>
      if fetches == 0 then None
      else if ref then Some(o + 2)
      else if n == 0 then Some(p + 1)
      else NameEnd(b, p + n, fetches - 1)
  }

  /** The text form: every label followed by a dot. */
  function Dotted(ls: seq<Label>): (s: seq<byte>) {
    if ls == [] then [] else ls[0] + [DOT] + Dotted(ls[1..])
  }

  // ----- Meaning of a label fetch

  /** `t` is reached from `o` through exactly `k` back-pointers. */
  predicate Chain(b: seq<byte>, o: nat, k: nat, t: nat)
    decreases k
  {
    o < |b| &&
    if k == 0 then o == t
    else b[o] >= 0xC0 && o + 2 <= |b| && Chain(b, (b[o] as int * 0x100 + b[o + 1]) % 0x4000, k - 1, t)
  }

  /** A byte other than a back-pointer is reached in at most `jumps` steps. */
  ghost predicate Lands(b: seq<byte>, o: nat, jumps: nat, t: nat) {
    t < |b| && b[t] < 0xC0 && exists k: nat :: k <= jumps && Chain(b, o, k, t)
  }

  lemma {:induction false} FollowRefsExact(b: seq<byte>, o: nat, jumps: nat, t: nat)
    requires o < |b|
    ensures FollowRefs(b, o, jumps) == Some(t) <==> Lands(b, o, jumps, t)
    decreases jumps
  {
    if FollowRefs(b, o, jumps) == Some(t) {
      if IsStringRef(b[o]) {
        FollowRefsExact(b, RefTarget(b, o), jumps - 1, t);
        var k: nat :| k <= jumps - 1 && Chain(b, RefTarget(b, o), k, t);
        assert Chain(b, o, k + 1, t);
      } else {
        var k: nat := 0;
        assert Chain(b, o, k, t);
      }
    }
    if Lands(b, o, jumps, t) {
      var k: nat :| k <= jumps && Chain(b, o, k, t);
      if k > 0 {
        assert Chain(b, RefTarget(b, o), k - 1, t);
        FollowRefsExact(b, RefTarget(b, o), jumps - 1, t);
      }
    }
  }

  /** A fetch yields a nonempty label exactly when at most 16 back-pointers lead to its
      length byte and the label lies inside the buffer; on a pointer cycle it fails. */
  lemma FetchExact(b: seq<byte>, o: nat, t: nat, n: nat)
    requires n > 0 && o < |b|
    ensures Fetch(b, o, MAX_JUMPS) == At(t + 1, n, IsStringRef(b[o]))
       <==> Lands(b, o, 16, t) && b[t] == n && t + 1 + n <= |b|
  {
    FollowRefsExact(b, o, MAX_JUMPS, t);
    if b[o] == 0 && Lands(b, o, MAX_JUMPS, t) {
      var k: nat :| k <= MAX_JUMPS && Chain(b, o, k, t);
      assert k == 0 && t == o;
    }
  }

  /** The terminator is fetched exactly when such a chain ends at a zero byte. */
  lemma FetchRootExact(b: seq<byte>, o: nat)
    ensures Fetch(b, o, MAX_JUMPS).At? && Fetch(b, o, MAX_JUMPS).length == 0 <==> exists t: nat :: Lands(b, o, 16, t) && b[t] == 0
  {
    if o < |b| {
      var p := FollowRefs(b, o, MAX_JUMPS);
      if p.Some? {
        FollowRefsExact(b, o, MAX_JUMPS, p.value);
        if t: nat :| Lands(b, o, 16, t) && b[t] == 0 {
          FollowRefsExact(b, o, MAX_JUMPS, t);
        }
      } else if t: nat :| Lands(b, o, 16, t) && b[t] == 0 {
        FollowRefsExact(b, o, MAX_JUMPS, t);
      }
    }
  }

  // ----- Skipping, from the bytes alone

  /** From `o` to `p` there are `k` labels, each a length byte from 1 to 191 and as many bytes. */
  predicate LabelsLie(b: seq<byte>, o: nat, k: nat, p: nat)
    decreases k
  {
    if k == 0 then o == p
    else o < |b| && 1 <= b[o] < 0xC0 && o + 1 + b[o] <= |b| && LabelsLie(b, o + 1 + b[o], k - 1, p)
  }

  /** At `p` a name ends before `e`: with the zero byte, or with a back-pointer from where at most
      16 of them lead to a label inside the buffer or to the zero byte. */
  ghost predicate EndsName(b: seq<byte>, p: nat, e: nat) {
    p < |b|
    && if b[p] == 0 then e == p + 1
       else b[p] >= 0xC0 && e == p + 2 && exists t: nat :: Lands(b, p, 16, t) && t + 1 + b[t] <= |b|
  }

  lemma EndExactly(b: seq<byte>, p: nat, e: nat)
    ensures EndsName(b, p, e) <==>
              var s := Fetch(b, p, MAX_JUMPS); s.At? && ((s.ref && e == p + 2) || (!s.ref && s.length == 0 && e == s.offset + 1))
  {
    if p < |b| && b[p] >= 0xC0 {
      var t := FollowRefs(b, p, MAX_JUMPS);
      if t.Some? {
        FollowRefsExact(b, p, MAX_JUMPS, t.value);
      }
      if t': nat :| Lands(b, p, 16, t') && t' + 1 + b[t'] <= |b| {
        FollowRefsExact(b, p, MAX_JUMPS, t');
      }
    }
  }

  ghost predicate Skips(b: seq<byte>, o: nat, fetches: nat, e: nat) {
    exists k: nat, p: nat :: k < fetches && LabelsLie(b, o, k, p) && EndsName(b, p, e)
  }

  predicate LabelLies(b: seq<byte>, o: nat) {
    o < |b| && 1 <= b[o] < 0xC0 && o + 1 + b[o] <= |b|
  }

  lemma SkipsLabel(b: seq<byte>, o: nat, fetches: nat, e: nat)
    requires LabelLies(b, o) && fetches > 0
    ensures Skips(b, o, fetches, e) <==> Skips(b, o + 1 + b[o], fetches - 1, e)
  {
    var next: nat := o + 1 + b[o];
    if k: nat, p: nat :| k < fetches - 1 && LabelsLie(b, next, k, p) && EndsName(b, p, e) {
      assert LabelsLie(b, o, k + 1, p);
    }
    if k: nat, p: nat :| k < fetches && LabelsLie(b, o, k, p) && EndsName(b, p, e) {
      assert k > 0 && LabelsLie(b, o + 1 + b[o], k - 1, p);
    }
  }

  lemma SkipsEnd(b: seq<byte>, o: nat, fetches: nat, e: nat)
    requires !LabelLies(b, o) || fetches == 0
    ensures Skips(b, o, fetches, e) <==> fetches > 0 && EndsName(b, o, e)
  {
    if fetches > 0 && EndsName(b, o, e) {
      assert LabelsLie(b, o, 0, o);
    }
  }

  /** A name is skipped to `e` exactly when fewer labels than the limit lie one after another and the
      name then ends before `e`; of what a back-pointer leads to only the first label is looked at. */
  lemma {:induction false} NameEndExactly(b: seq<byte>, o: nat, fetches: nat, e: nat)
    ensures NameEnd(b, o, fetches) == Some(e) <==> Skips(b, o, fetches, e)
    decreases fetches
  {
    hide EndsName, Skips;
    EndExactly(b, o, e);
    if LabelLies(b, o) && fetches > 0 {
      DirectFetch(b, o);
      hide Fetch;
      SkipsLabel(b, o, fetches, e);
      NameEndExactly(b, o + 1 + b[o], fetches - 1, e);
    } else {
      SkipsEnd(b, o, fetches, e);
      if fetches > 0 {
        NoDirectFetch(b, o);
      }
    }
  }

  lemma NoDirectFetch(b: seq<byte>, o: nat)
    requires !LabelLies(b, o)
    ensures var s := Fetch(b, o, MAX_JUMPS); s.Invalid? || s.ref || s.length == 0
  {
  }

  lemma DirectFetch(b: seq<byte>, o: nat)
    requires o < |b| && 1 <= b[o] < 0xC0 && o + 1 + b[o] <= |b|
    ensures Fetch(b, o, MAX_JUMPS) == At(o + 1, b[o], false)
  {
  }

  // ----- Facts about names

  lemma {:induction false} NameUnique(b: seq<byte>, o: nat, ls: seq<Label>, rs: seq<Label>, jumps: nat)
    requires NameAt(b, o, ls, jumps) && NameAt(b, o, rs, jumps)
    ensures ls == rs
    decreases |ls|
  {
    if ls != [] {
      var s := Fetch(b, o, jumps);
      NameUnique(b, s.offset + s.length, ls[1..], rs[1..], jumps);
      assert ls == [ls[0]] + ls[1..] && rs == [rs[0]] + rs[1..];
    }
  }

  /** Reading with a fetch limit finds exactly the names of fewer labels than the limit. */
  lemma {:induction false} ReadNameExact(b: seq<byte>, o: nat, ls: seq<Label>, fetches: nat)
    ensures ReadName(b, o, fetches) == Some(ls) <==> NameAt(b, o, ls, MAX_JUMPS) && |ls| < fetches
    decreases fetches
  {
    hide Fetch;
    var s := Fetch(b, o, MAX_JUMPS);
    if s.At? && fetches > 0 && s.length > 0 {
      var rest := ReadName(b, s.offset + s.length, fetches - 1);
      var first := b[s.offset..s.offset + s.length];
      if ls != [] {
        ReadNameExact(b, s.offset + s.length, ls[1..], fetches - 1);
        assert ls == [ls[0]] + ls[1..];
        if rest.Some? {
          assert ([first] + rest.value)[1..] == rest.value;
        }
      }
    }
  }

  /** With the limits as they are: names of up to 64 labels, each over at most 16 back-pointers. */
  lemma LimitsExactly(b: seq<byte>, o: nat, ls: seq<Label>)
    ensures ReadName(b, o, MAX_FETCHES) == Some(ls) <==> NameAt(b, o, ls, 16) && |ls| <= 64
  {
    ReadNameExact(b, o, ls, MAX_FETCHES);
  }

  /** Following more back-pointers never changes what was found with fewer. */
  lemma {:induction false} FollowMore(b: seq<byte>, c: seq<byte>, o: nat, j: nat, k: nat)
    requires b <= c && j <= k && o < |b|
    requires FollowRefs(b, o, j).Some?
    ensures FollowRefs(c, o, k) == FollowRefs(b, o, j)
    decreases j
  {
    if IsStringRef(b[o]) {
      FollowMore(b, c, RefTarget(b, o), j - 1, k - 1);
    }
  }

  lemma FetchMore(b: seq<byte>, c: seq<byte>, o: nat, j: nat, k: nat)
    requires b <= c && j <= k
    requires Fetch(b, o, j).At?
    ensures Fetch(c, o, k) == Fetch(b, o, j)
  {
    if b[o] != 0 {
      FollowMore(b, c, o, j, k);
    }
  }

  /** A name that can be read stays the same name when bytes are appended. */
  lemma {:induction false} NameStable(b: seq<byte>, c: seq<byte>, o: nat, ls: seq<Label>, j: nat, k: nat)
    requires b <= c && j <= k
    requires NameAt(b, o, ls, j)
    ensures NameAt(c, o, ls, k)
    decreases |ls|
  {
    FetchMore(b, c, o, j, k);
    if ls != [] {
      var s := Fetch(b, o, j);
      assert b[s.offset..s.offset + s.length] == c[s.offset..s.offset + s.length];
      NameStable(b, c, s.offset + s.length, ls[1..], j, k);
    }
  }

  lemma {:induction false} NameEndStable(b: seq<byte>, c: seq<byte>, o: nat, fetches: nat)
    requires b <= c
    requires NameEnd(b, o, fetches).Some?
    ensures NameEnd(c, o, fetches) == NameEnd(b, o, fetches)
    decreases fetches
  {
    FetchMore(b, c, o, MAX_JUMPS, MAX_JUMPS);
    var s := Fetch(b, o, MAX_JUMPS);
    if !s.ref && s.length != 0 {
      NameEndStable(b, c, s.offset + s.length, fetches - 1);
    }
  }

  /** Whatever can be read can be skipped. */
  lemma {:induction false} ReadImpliesSkip(b: seq<byte>, o: nat, fetches: nat)
    requires ReadName(b, o, fetches).Some?
    ensures NameEnd(b, o, fetches).Some?
    decreases fetches
  {
    var s := Fetch(b, o, MAX_JUMPS);
    if !s.ref && s.length != 0 {
      ReadImpliesSkip(b, s.offset + s.length, fetches - 1);
    }
  }

  lemma {:induction false} NameEndInside(b: seq<byte>, o: nat, fetches: nat)
    requires NameEnd(b, o, fetches).Some?
    ensures o < NameEnd(b, o, fetches).value <= |b|
    decreases fetches
  {
    var s := Fetch(b, o, MAX_JUMPS);
    if s.ref {
    } else if s.length != 0 {
      NameEndInside(b, s.offset + s.length, fetches - 1);
    }
  }

  // ----- Comparing names

  function Lower(c: byte): (r: byte) {
    if 0x41 <= c <= 0x5A then c + 0x20 else c
  }

  /** The C library's bounded comparison ignoring ASCII case, for two runs of one
      length: it stops at a NUL that both share. */
  predicate StrNCaseEqual(a: seq<byte>, b: seq<byte>)
    requires |a| == |b|
  {
    a == [] || (Lower(a[0]) == Lower(b[0]) && (a[0] == 0 || StrNCaseEqual(a[1..], b[1..])))
  }

  /** The part of a label a comparison looks at, in lower case. */
  function Fold(l: Label): (r: seq<byte>) {
    if l == [] then [] else if l[0] == 0 then [0] else [Lower(l[0])] + Fold(l[1..])
  }

  function Canon(ls: seq<Label>): (r: seq<(nat, seq<byte>)>)
    ensures |r| == |ls|
  {
    if ls == [] then [] else [(|ls[0]|, Fold(ls[0]))] + Canon(ls[1..])
  }

  lemma {:induction false} StrNCaseEqualExact(a: seq<byte>, b: seq<byte>)
    requires |a| == |b|
    ensures StrNCaseEqual(a, b) <==> Fold(a) == Fold(b)
  {
    if a != [] {
      StrNCaseEqualExact(a[1..], b[1..]);
      if a[0] != 0 && b[0] != 0 {
        assert Fold(a)[1..] == Fold(a[1..]) && Fold(b)[1..] == Fold(b[1..]);
      }
      assert Fold(a)[0] == Lower(a[0]) && Fold(b)[0] == Lower(b[0]);
    }
  }

  /** The case-folded labels of the name at `o`, if it can be read. */
  function CanonAt(b: seq<byte>, o: nat, fetches: nat): (r: Option<seq<(nat, seq<byte>)>>) {
    match ReadName(b, o, fetches)
    case None => None
    case Some(ls) => Some(Canon(ls))
  }

  /** Both names can be read, and their labels have the same lengths and the same
      case-folded text. As equality of a canonical form this is an equivalence,
      whatever buffers and pointer layouts hold the names. */
  predicate SameName(b: seq<byte>, o: nat, c: seq<byte>, q: nat, fetches: nat) {
    CanonAt(b, o, fetches).Some? && CanonAt(b, o, fetches) == CanonAt(c, q, fetches)
  }

  lemma {:induction false} CanonExact(ls: seq<Label>, rs: seq<Label>)
    ensures Canon(ls) == Canon(rs)
       <==> |ls| == |rs| && forall i :: 0 <= i < |ls| ==> |ls[i]| == |rs[i]| && StrNCaseEqual(ls[i], rs[i])
  {
    if ls != [] && rs != [] {
      CanonExact(ls[1..], rs[1..]);
      ConsEqual((|ls[0]|, Fold(ls[0])), Canon(ls[1..]), (|rs[0]|, Fold(rs[0])), Canon(rs[1..]));
      if |ls[0]| == |rs[0]| {
        StrNCaseEqualExact(ls[0], rs[0]);
      }
      assert forall i :: 0 < i < |ls| ==> ls[i] == ls[1..][i - 1];
      assert forall i :: 0 < i < |rs| ==> rs[i] == rs[1..][i - 1];
      assert |ls| == |rs| ==> forall i :: 0 <= i < |ls| - 1 ==> ls[1..][i] == ls[i + 1] && rs[1..][i] == rs[i + 1];
    }
  }

  /** Two names are the same exactly when both can be read and they have label for label the
      same length and the same text ignoring case, as far as a NUL both share. */
  lemma SameNameExact(b: seq<byte>, o: nat, c: seq<byte>, q: nat, fetches: nat)
    ensures SameName(b, o, c, q, fetches)
       <==> (exists ls, rs :: ReadName(b, o, fetches) == Some(ls) && ReadName(c, q, fetches) == Some(rs) && |ls| == |rs|
               && forall i :: 0 <= i < |ls| ==> |ls[i]| == |rs[i]| && StrNCaseEqual(ls[i], rs[i]))
  {
    hide ReadName, StrNCaseEqual, Canon;
    var x, y := ReadName(b, o, fetches), ReadName(c, q, fetches);
    if x.Some? && y.Some? {
      CanonExact(x.value, y.value);
    }
  }

  /** The same byte, or the capital letter `A` to `Z` and the small letter of one another. */
  predicate SameLetter(a: byte, b: byte) {
    a == b || (0x41 <= a <= 0x5A && b == a + 0x20) || (0x41 <= b <= 0x5A && a == b + 0x20)
  }

  predicate SameLetters(x: seq<byte>, y: seq<byte>) {
    |x| == |y| && forall i :: 0 <= i < |x| ==> SameLetter(x[i], y[i])
  }

  /** Without a NUL to stop at, the case of letters is all the comparison ignores. */
  lemma {:induction false} StrNCaseEqualNoNul(x: seq<byte>, y: seq<byte>)
    requires |x| == |y| && 0 !in x
    ensures StrNCaseEqual(x, y) <==> SameLetters(x, y)
  {
    if x != [] {
      StrNCaseEqualNoNul(x[1..], y[1..]);
      assert x[0] in x;
      assert SameLetter(x[0], y[0]) <==> Lower(x[0]) == Lower(y[0]);
      assert forall i :: 0 <= i < |x| - 1 ==> x[1..][i] == x[i + 1] && y[1..][i] == y[i + 1];
      assert forall i :: 0 < i < |x| ==> x[i] == x[1..][i - 1] && y[i] == y[1..][i - 1];
    }
  }

  /** The bytes of a C string in a run of bytes: up to a NUL, or all. */
  function TextLength(x: seq<byte>): (n: nat)
    ensures n <= |x| && 0 !in x[..n] && (n < |x| ==> x[n] == 0)
  {
    if x == [] || x[0] == 0 then 0 else
      var n := 1 + TextLength(x[1..]);
      assert x[..n] == [x[0]] + x[1..][..n - 1];
      n
  }

  /** The comparison in plain words: the texts up to a NUL have one length and differ at most in
      the case of letters; nothing after the NUL counts. */
  lemma {:induction false} StrNCaseEqualPlainly(x: seq<byte>, y: seq<byte>)
    requires |x| == |y|
    ensures StrNCaseEqual(x, y) <==>
              TextLength(x) == TextLength(y) && SameLetters(x[..TextLength(x)], y[..TextLength(y)])
  {
    if x != [] && x[0] != 0 && y[0] != 0 {
      StrNCaseEqualPlainly(x[1..], y[1..]);
      var n, k := TextLength(x), TextLength(y);
      assert SameLetter(x[0], y[0]) <==> Lower(x[0]) == Lower(y[0]);
      assert x[1..][..n - 1] == x[..n][1..] && y[1..][..k - 1] == y[..k][1..];
      if n == k {
        SameLettersCons(x[..n], y[..k]);
      }
    } else if x != [] {
      assert x[..0] == [] && y[..0] == [];
    }
  }

  lemma SameLettersCons(x: seq<byte>, y: seq<byte>)
    requires x != [] && y != []
    ensures SameLetters(x, y) <==> SameLetter(x[0], y[0]) && SameLetters(x[1..], y[1..])
  {
    if SameLetter(x[0], y[0]) && SameLetters(x[1..], y[1..]) {
      forall i | 0 <= i < |x| ensures SameLetter(x[i], y[i]) {
        if i > 0 {
          assert x[i] == x[1..][i - 1] && y[i] == y[1..][i - 1];
        }
      }
    }
    if SameLetters(x, y) {
      assert forall i :: 0 <= i < |x| - 1 ==> x[1..][i] == x[i + 1] && y[1..][i] == y[i + 1];
    }
  }

  lemma CanonStep(b: seq<byte>, o: nat, fetches: nat)
    ensures var s := Fetch(b, o, MAX_JUMPS);
            CanonAt(b, o, fetches) ==
            if s.Invalid? || fetches == 0 then None
            else if s.length == 0 then Some([])
            else match CanonAt(b, s.offset + s.length, fetches - 1)
                 case None => None
                 case Some(rest) => Some([(s.length, Fold(b[s.offset..s.offset + s.length]))] + rest)
  {
    hide Fetch;
    var s := Fetch(b, o, MAX_JUMPS);
    if s.At? && fetches > 0 && s.length > 0 {
      var rest := ReadName(b, s.offset + s.length, fetches - 1);
      if rest.Some? {
        var first := b[s.offset..s.offset + s.length];
        assert ([first] + rest.value)[1..] == rest.value;
      }
    }
  }

  lemma ConsEqual<T>(x: T, xs: seq<T>, y: T, ys: seq<T>)
    ensures [x] + xs == [y] + ys <==> x == y && xs == ys
  {
    if [x] + xs == [y] + ys {
      assert ([x] + xs)[0] == ([y] + ys)[0];
      assert xs == ([x] + xs)[1..] == ([y] + ys)[1..] == ys;
    }
  }

  /** One round of a comparison: it is settled by the two labels fetched, or by what follows them. */
  lemma SameNameStep(b: seq<byte>, o: nat, c: seq<byte>, q: nat, fetches: nat)
    ensures var l, r := Fetch(b, o, MAX_JUMPS), Fetch(c, q, MAX_JUMPS);
            SameName(b, o, c, q, fetches) <==>
            l.At? && r.At? && fetches > 0 && l.length == r.length
            && Fold(b[l.offset..l.offset + l.length]) == Fold(c[r.offset..r.offset + r.length])
            && (l.length == 0 || SameName(b, l.offset + l.length, c, r.offset + r.length, fetches - 1))
  {
    hide Fetch, CanonAt, Fold;
    CanonStep(b, o, fetches);
    CanonStep(c, q, fetches);
    var l, r := Fetch(b, o, MAX_JUMPS), Fetch(c, q, MAX_JUMPS);
    if l.At? && r.At? && l.length == 0 && r.length == 0 {
      assert b[l.offset..l.offset] == [] == c[r.offset..r.offset];
    }
    if l.At? && r.At? && l.length > 0 && r.length > 0 && fetches > 0 {
      var x, y := Fold(b[l.offset..l.offset + l.length]), Fold(c[r.offset..r.offset + r.length]);
      var lrest, rrest := CanonAt(b, l.offset + l.length, fetches - 1), CanonAt(c, r.offset + r.length, fetches - 1);
      if lrest.Some? && rrest.Some? {
        ConsEqual((l.length, x), lrest.value, (r.length, y), rrest.value);
      }
    }
  }

  // ----- The reading routines

  /** One label, over any back-pointers before it: 17 of these at most are followed. */
  method NextSubstring(buffer: seq<byte>, offset: nat) returns (pair: Substring, ghost jumps: nat)
    ensures pair == Fetch(buffer, offset, MAX_JUMPS)
    ensures jumps <= 17
  {
    jumps := 0;
    if offset >= |buffer| {
      return Invalid, jumps;
    }
    if buffer[offset] == 0 {
      return At(offset, 0, false), jumps;
    }
    var cur: nat, ref, recursion: nat := offset, false, 0;
    while IsStringRef(buffer[cur])
      invariant cur < |buffer| && recursion <= MAX_JUMPS && jumps == recursion
      invariant FollowRefs(buffer, offset, MAX_JUMPS) == FollowRefs(buffer, cur, MAX_JUMPS - recursion)
      invariant ref == (recursion > 0) && (recursion == 0 ==> cur == offset)
      invariant recursion > 0 ==> IsStringRef(buffer[offset])
      decreases MAX_JUMPS - recursion
    {
      if |buffer| < cur + 2 {
        return Invalid, jumps;
      }
      var target := RefTarget(buffer, cur);
      jumps := jumps + 1;
      if target >= |buffer| {
        return Invalid, jumps;
      }
      ref := true;
      recursion := recursion + 1;
      if recursion > MAX_JUMPS {
        return Invalid, jumps;
      }
      cur := target;
    }
    var length := buffer[cur];
    cur := cur + 1;
    if |buffer| < cur + length {
      return Invalid, jumps;
    }
    return At(cur, length, ref), jumps;
  }

  /** Moves the offset past a name, after 66 labels fetched at most. */
  method Skip(buffer: seq<byte>, offset: nat) returns (ok: bool, newOffset: nat, ghost fetched: nat)
    ensures ok == NameEnd(buffer, offset, MAX_FETCHES).Some?
    ensures newOffset == if ok then NameEnd(buffer, offset, MAX_FETCHES).value else offset
    ensures fetched <= 66
  {
    fetched := 0;
    var cur: nat, counter: nat := offset, 0;
    while true
      invariant counter <= MAX_FETCHES && fetched == counter
      invariant NameEnd(buffer, offset, MAX_FETCHES) == NameEnd(buffer, cur, MAX_FETCHES - counter)
      decreases MAX_FETCHES - counter
    {
      var substr, _ := NextSubstring(buffer, cur);
      fetched := fetched + 1;
      if substr.Invalid? || counter >= MAX_FETCHES {
        return false, offset, fetched;
      }
      counter := counter + 1;
      if substr.ref {
        return true, cur + 2, fetched;
      }
      cur := substr.offset + substr.length;
      if substr.length == 0 {
        return true, cur + 1, fetched;
      }
    }
  }

  /** What a walk over a name has found out about where its encoding ends. */
  ghost predicate EndKnown(b: seq<byte>, o: nat, cur: nat, end: Option<nat>, counter: nat) {
    counter <= MAX_FETCHES
    && NameEnd(b, o, MAX_FETCHES) == if end.Some? then end else NameEnd(b, cur, MAX_FETCHES - counter)
  }

  lemma EndStep(b: seq<byte>, o: nat, cur: nat, end: Option<nat>, counter: nat)
    requires EndKnown(b, o, cur, end, counter) && counter < MAX_FETCHES
    requires Fetch(b, cur, MAX_JUMPS).At?
    ensures var s := Fetch(b, cur, MAX_JUMPS);
            var found := if s.ref && end.None? then Some(cur + 2) else end;
            EndKnown(b, o, s.offset + s.length, found, counter + 1) || s.length == 0
    ensures var s := Fetch(b, cur, MAX_JUMPS);
            var found := if s.ref && end.None? then Some(cur + 2) else end;
            s.length == 0 ==>
            NameEnd(b, o, MAX_FETCHES) == Some(if found.None? then s.offset + 1 else found.value)
  {
  }

  /** Succeeds exactly when both names can be read and agree ignoring case, and then
      moves both offsets to where skipping the names would have moved them. */
  method Equal(lhs: seq<byte>, ofsLhs: nat, rhs: seq<byte>, ofsRhs: nat)
    returns (equal: bool, newLhs: nat, newRhs: nat, ghost fetched: nat)
    ensures equal == SameName(lhs, ofsLhs, rhs, ofsRhs, MAX_FETCHES)
    ensures equal ==> NameEnd(lhs, ofsLhs, MAX_FETCHES) == Some(newLhs) && NameEnd(rhs, ofsRhs, MAX_FETCHES) == Some(newRhs)
    ensures !equal ==> newLhs == ofsLhs && newRhs == ofsRhs
    ensures fetched <= 66
  {
    hide Fetch, SameName, NameEnd, Fold, StrNCaseEqual;
    fetched := 0;
    var lcur: nat, rcur: nat, counter: nat := ofsLhs, ofsRhs, 0;
    var lend: Option<nat>, rend: Option<nat> := None, None;
    while true
      invariant fetched == counter
      invariant EndKnown(lhs, ofsLhs, lcur, lend, counter) && EndKnown(rhs, ofsRhs, rcur, rend, counter)
      invariant SameName(lhs, ofsLhs, rhs, ofsRhs, MAX_FETCHES) == SameName(lhs, lcur, rhs, rcur, MAX_FETCHES - counter)
      decreases MAX_FETCHES - counter
    {
      var l, _ := NextSubstring(lhs, lcur);
      var r, _ := NextSubstring(rhs, rcur);
      fetched := fetched + 1;
      SameNameStep(lhs, lcur, rhs, rcur, MAX_FETCHES - counter);
      if l.Invalid? || r.Invalid? || counter >= MAX_FETCHES {
        return false, ofsLhs, ofsRhs, fetched;
      }
      EndStep(lhs, ofsLhs, lcur, lend, counter);
      EndStep(rhs, ofsRhs, rcur, rend, counter);
      counter := counter + 1;
      if l.length != r.length {
        return false, ofsLhs, ofsRhs, fetched;
      }
      StrNCaseEqualExact(rhs[r.offset..r.offset + r.length], lhs[l.offset..l.offset + l.length]);
      if !StrNCaseEqual(rhs[r.offset..r.offset + r.length], lhs[l.offset..l.offset + l.length]) {
        return false, ofsLhs, ofsRhs, fetched;
      }
      if l.ref && lend.None? {
        lend := Some(lcur + 2);
      }
      if r.ref && rend.None? {
        rend := Some(rcur + 2);
      }
      lcur := l.offset + l.length;
      rcur := r.offset + r.length;
      if l.length == 0 {
        break;
      }
    }
    equal := true;
    newLhs := if lend.None? then lcur + 1 else lend.value;
    newRhs := if rend.None? then rcur + 1 else rend.value;
  }

  /** The C library's `memcpy` into an array from an immutable source. */
  method CopyBytes(dst: array<byte>, at: nat, src: seq<byte>)
    requires at + |src| <= dst.Length
    modifies dst
    ensures dst[..] == Put(old(dst[..]), at, src)
  {
    forall i | 0 <= i < |src| {
      dst[at + i] := src[i];
    }
  }

  function Prepend(ls: seq<Label>, r: Option<seq<Label>>): (p: Option<seq<Label>>) {
    match r
    case None => None
    case Some(rest) => Some(ls + rest)
  }

  lemma PrependNothing(r: Option<seq<Label>>)
    ensures Prepend([], r) == r
  {
    if r.Some? {
      assert [] + r.value == r.value;
    }
  }

  lemma ReadStep(b: seq<byte>, o: nat, read: seq<Label>, fetches: nat)
    ensures var s := Fetch(b, o, MAX_JUMPS);
            Prepend(read, ReadName(b, o, fetches)) ==
            if s.Invalid? || fetches == 0 then None
            else if s.length == 0 then Some(read)
            else Prepend(read + [b[s.offset..s.offset + s.length]], ReadName(b, s.offset + s.length, fetches - 1))
  {
    hide Fetch;
    var s := Fetch(b, o, MAX_JUMPS);
    if s.Invalid? || fetches == 0 {
    } else if s.length == 0 {
      assert read + [] == read;
    } else {
      var lab := b[s.offset..s.offset + s.length];
      var rest := ReadName(b, s.offset + s.length, fetches - 1);
      if rest.Some? {
        assert read + ([lab] + rest.value) == (read + [lab]) + rest.value;
      }
    }
  }

  /** The text of `d` cut to `capacity` bytes. */
  function Cut(d: seq<byte>, capacity: nat): (r: seq<byte>)
    ensures r <= d && |r| == if |d| <= capacity then |d| else capacity
  {
    if |d| <= capacity then d else d[..capacity]
  }

  lemma DottedNothing(capacity: nat)
    ensures Cut(Dotted([]), capacity) == []
  {
  }

  lemma CutAppend(d: seq<byte>, x: seq<byte>, capacity: nat)
    ensures Cut(d + x, capacity) == Cut(d, capacity) + Cut(x, capacity - |Cut(d, capacity)|)
  {
  }

  lemma {:induction false} DottedSnoc(ls: seq<Label>, l: Label)
    ensures Dotted(ls + [l]) == Dotted(ls) + (l + [DOT])
  {
    if ls == [] {
      assert Dotted([l]) == l + [DOT] + Dotted([]);
    } else {
      DottedSnoc(ls[1..], l);
      assert (ls + [l])[1..] == ls[1..] + [l];
    }
  }

  /** Copies as much of a label and a dot as `remain` allows. */
  method CopyLabel(lab: Label, str: array<byte>, at: nat, room: nat) returns (dst: nat, remain: nat)
    requires at + room <= str.Length
    modifies str
    ensures dst + remain == at + room && dst == at + |Cut(lab + [DOT], room)|
    ensures str[..] == Put(old(str[..]), at, Cut(lab + [DOT], room))
  {
    dst, remain := at, room;
    var toCopy := if |lab| < remain then |lab| else remain;
    CopyBytes(str, dst, lab[..toCopy]);
    dst := dst + toCopy;
    remain := remain - toCopy;
    if remain > 0 {
      str[dst] := DOT;
      dst := dst + 1;
      remain := remain - 1;
    }
    CutAppend(lab, [DOT], room);
    assert Cut(lab, room) == lab[..toCopy];
  }

  /** Over `was` the text of the labels read is stored, as far as there is room for it. */
  ghost predicate Copied(now: seq<byte>, was: seq<byte>, read: seq<Label>, capacity: nat, dst: nat, remain: nat) {
    dst + remain == capacity <= |was| && dst == |Cut(Dotted(read), capacity)|
    && now == Put(was, 0, Cut(Dotted(read), capacity))
  }

  /** One more label and its dot. */
  method CopyNext(lab: Label, str: array<byte>, at: nat, room: nat, capacity: nat, ghost was: seq<byte>, ghost read: seq<Label>)
    returns (dst: nat, remain: nat)
    requires Copied(str[..], was, read, capacity, at, room)
    modifies str
    ensures Copied(str[..], was, read + [lab], capacity, dst, remain)
  {
    hide Dotted, Cut;
    CutAppend(Dotted(read), lab + [DOT], capacity);
    DottedSnoc(read, lab);
    CutFits(lab + [DOT], room);
    PutPut(was, 0, Cut(Dotted(read), capacity), Cut(lab + [DOT], room));
    dst, remain := CopyLabel(lab, str, at, room);
  }

  lemma CutFits(d: seq<byte>, room: nat)
    ensures |Cut(d, room)| <= room
  {
  }

  lemma NothingCopied(was: seq<byte>, capacity: nat)
    requires capacity <= |was|
    ensures Copied(was, was, [], capacity, 0, capacity)
  {
    assert Put(was, 0, []) == was;
  }

  lemma CopiedLeaves(now: seq<byte>, was: seq<byte>, read: seq<Label>, capacity: nat, dst: nat, remain: nat)
    requires Copied(now, was, read, capacity, dst, remain)
    ensures |now| == |was| && now[capacity..] == was[capacity..]
  {
    hide Dotted;
    CutFits(Dotted(read), capacity);
    assert now[capacity..] == now[dst..][remain..] && was[capacity..] == was[dst..][remain..];
  }

  /** Stores the first `capacity` bytes of the text form of the name and moves the
      offset where skipping would move it; a name that cannot be read leaves the offset alone. */
  method Extract(buffer: seq<byte>, offset: nat, str: array<byte>, capacity: nat)
    returns (length: nat, newOffset: nat, ghost fetched: nat)
    requires capacity <= str.Length
    modifies str
    ensures match ReadName(buffer, offset, MAX_FETCHES)
            case None =>
              length == 0 && newOffset == offset && str[capacity..] == old(str[capacity..])
            case Some(ls) =>
              length == |Cut(Dotted(ls), capacity)| && str[..] == Put(old(str[..]), 0, Cut(Dotted(ls), capacity))
              && NameEnd(buffer, offset, MAX_FETCHES) == Some(newOffset)
    ensures fetched <= 66
  {
    hide Fetch, ReadName, NameEnd, Copied, Prepend, EndKnown;
    fetched := 0;
    var cur: nat, counter: nat, end: Option<nat> := offset, 0, None;
    var dst: nat, remain: nat := 0, capacity;
    ghost var read: seq<Label> := [];
    ghost var was := str[..];
    NothingCopied(was, capacity);
    PrependNothing(ReadName(buffer, offset, MAX_FETCHES));
    EndBegins(buffer, offset);
    while true
      invariant Copied(str[..], was, read, capacity, dst, remain)
      invariant EndKnown(buffer, offset, cur, end, counter) && counter <= MAX_FETCHES
      invariant ReadName(buffer, offset, MAX_FETCHES) == Prepend(read, ReadName(buffer, cur, MAX_FETCHES - counter))
      invariant fetched == counter
      decreases MAX_FETCHES - counter
    {
      var substr, _ := NextSubstring(buffer, cur);
      fetched := fetched + 1;
      ReadStep(buffer, cur, read, MAX_FETCHES - counter);
      if substr.Invalid? || counter >= MAX_FETCHES {
        CopiedLeaves(str[..], was, read, capacity, dst, remain);
        return 0, offset, fetched;
      }
      EndStep(buffer, offset, cur, end, counter);
      counter := counter + 1;
      if substr.ref && end.None? {
        end := Some(cur + 2);
      }
      if substr.length != 0 {
        ghost var lab := buffer[substr.offset..substr.offset + substr.length];
        dst, remain := CopyNext(buffer[substr.offset..substr.offset + substr.length], str, dst, remain, capacity, was, read);
        read := read + [lab];
      }
      cur := substr.offset + substr.length;
      if substr.length == 0 {
        break;
      }
    }
    newOffset := if end.None? then cur + 1 else end.value;
    CopiedIs(str[..], was, read, capacity, dst, remain);
    length := capacity - remain;
  }

  lemma EndBegins(b: seq<byte>, o: nat)
    ensures EndKnown(b, o, o, None, 0)
  {
  }

  lemma CopiedIs(now: seq<byte>, was: seq<byte>, read: seq<Label>, capacity: nat, dst: nat, remain: nat)
    requires Copied(now, was, read, capacity, dst, remain)
    ensures capacity - remain == |Cut(Dotted(read), capacity)| <= |was| && now == Put(was, 0, Cut(Dotted(read), capacity))
  {
  }
}
