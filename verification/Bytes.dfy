/** Bytes, fixed-width unsigned integers in network order, and writing a run of
    bytes into a larger buffer. */
module Bytes {
  type byte = x: int | 0 <= x < 0x100
  type u16 = x: int | 0 <= x < 0x1_0000
  type u32 = x: int | 0 <= x < 0x1_0000_0000

  /** A value that may be missing; usable with `:-`. */
  datatype Option<+T> = None | Some(value: T) {
    predicate IsFailure() {
      None?
    }

    function PropagateFailure<U>(): Option<U>
      requires None?
    {
      None
    }

    function Extract(): T
      requires Some?
    {
      value
    }
  }

  function Be16(v: u16): (s: seq<byte>)
    ensures |s| == 2
  {
    [v / 0x100, v % 0x100]
  }

  function Be32(v: u32): (s: seq<byte>)
    ensures |s| == 4
  {
    Be16(v / 0x1_0000) + Be16(v % 0x1_0000)
  }

  function Get16(b: seq<byte>, o: nat): (v: u16)
    requires o + 2 <= |b|
  {
    b[o] as int * 0x100 + b[o + 1]
  }

  function Get32(b: seq<byte>, o: nat): (v: u32)
    requires o + 4 <= |b|
  {
    Get16(b, o) as int * 0x1_0000 + Get16(b, o + 2)
  }

  lemma Get16Reads(b: seq<byte>, o: nat, v: u16)
    requires o + 2 <= |b| && b[o..o + 2] == Be16(v)
    ensures Get16(b, o) == v
  {
    assert b[o] == b[o..o + 2][0] && b[o + 1] == b[o..o + 2][1];
  }

  lemma Get32Reads(b: seq<byte>, o: nat, v: u32)
    requires o + 4 <= |b| && b[o..o + 4] == Be32(v)
    ensures Get32(b, o) == v
  {
    assert b[o..o + 2] == Be32(v)[..2] == Be16(v / 0x1_0000);
    assert b[o + 2..o + 4] == Be32(v)[2..] == Be16(v % 0x1_0000);
    Get16Reads(b, o, v / 0x1_0000);
    Get16Reads(b, o + 2, v % 0x1_0000);
  }

  function CodeOf(c: char): (b: byte)
    requires c < 128 as char
  {
    c as int
  }

  /** The bytes of a text of ASCII characters. */
  function Ascii(text: string): (s: seq<byte>)
    requires forall i :: 0 <= i < |text| ==> text[i] < 128 as char
    ensures |s| == |text| && forall i :: 0 <= i < |s| ==> s[i] == text[i] as int
  {
    seq(|text|, i requires 0 <= i < |text| => CodeOf(text[i]))
  }

  /** The buffer `b` after `s` has been stored at offset `o`. */
  function Put(b: seq<byte>, o: nat, s: seq<byte>): (r: seq<byte>)
    requires o + |s| <= |b|
    ensures |r| == |b|
    ensures r[..o] == b[..o] && r[o..o + |s|] == s && r[o + |s|..] == b[o + |s|..]
  {
    b[..o] + s + b[o + |s|..]
  }

  lemma PutPrefix(b: seq<byte>, o: nat, s: seq<byte>)
    requires o + |s| <= |b|
    ensures Put(b, o, s)[..o + |s|] == b[..o] + s
  {
  }

  lemma PutPut(b: seq<byte>, o: nat, s: seq<byte>, t: seq<byte>)
    requires o + |s| + |t| <= |b|
    ensures Put(Put(b, o, s), o + |s|, t) == Put(b, o, s + t)
  {
  }

  /** Storing again over the middle of what was just stored. */
  lemma PutPatch(b: seq<byte>, o: nat, s: seq<byte>, old_: seq<byte>, new_: seq<byte>, t: seq<byte>)
    requires o + |s| + |old_| + |t| <= |b| && |old_| == |new_|
    ensures Put(Put(b, o, s + old_ + t), o + |s|, new_) == Put(b, o, s + new_ + t)
  {
    var p, q := Put(b, o, s + old_ + t), Put(b, o, s + new_ + t);
    var r := Put(p, o + |s|, new_);
    assert p[..o + |s|] == b[..o] + s == q[..o + |s|];
    assert p[o + |s| + |old_|..] == t + b[o + |s| + |old_| + |t|..] == q[o + |s| + |old_|..];
    assert q[o + |s|..o + |s| + |new_|] == new_;
    assert r == q[..o + |s|] + new_ + q[o + |s| + |new_|..];
  }

  lemma ConcatEqual(a: seq<byte>, b: seq<byte>, c: seq<byte>, d: seq<byte>)
    requires |a| == |c|
    ensures a + b == c + d <==> a == c && b == d
  {
    var x, y := a + b, c + d;
    assert x[..|a|] == a && x[|a|..] == b && y[..|a|] == c && y[|a|..] == d;
  }

  /** Part of a known stretch of a sequence. */
  lemma Slice(m: seq<byte>, at: nat, s: seq<byte>, i: nat, n: nat)
    requires at + |s| <= |m| && m[at..at + |s|] == s && i + n <= |s|
    ensures m[at + i..at + i + n] == s[i..i + n]
  {
    var t := m[at + i..at + i + n];
    forall k | 0 <= k < n ensures t[k] == s[i + k] {
      assert m[at..at + |s|][i + k] == m[at + i + k];
    }
  }
}
