/** Bytes and the little-endian words that the FAT, the SGVM blob and the process stack are made of. */
module Bytes {

  type Byte = b: int | 0 <= b < 256

  /** The eight bytes of an IEEE double. */
  type Double = s: seq<Byte> | |s| == 8 witness [0, 0, 0, 0, 0, 0, 0, 0]

  datatype Option<+T> = None | Some(value: T)

  function Le16(w: nat): (r: seq<Byte>)
    requires w < 0x1_0000
  {
    [w % 256, w / 256]
  }

  function Le32(w: nat): (r: seq<Byte>)
    requires w < 0x1_0000_0000
  {
    [w % 256, w / 256 % 256, w / 0x1_0000 % 256, w / 0x100_0000]
  }

  function FromLe16(s: seq<Byte>): (w: nat)
    requires |s| == 2
    ensures w < 0x1_0000
  {
    s[0] as int + 256 * s[1] as int
  }

  function FromLe32(s: seq<Byte>): (w: nat)
    requires |s| == 4
    ensures w < 0x1_0000_0000
  {
    s[0] as int + 256 * s[1] as int + 0x1_0000 * s[2] as int + 0x100_0000 * s[3] as int
  }

  lemma Le32RoundTrip(w: nat)
    requires w < 0x1_0000_0000
    ensures FromLe32(Le32(w)) == w
  {
    assert w / 0x1_0000 == w / 256 / 256;
    assert w / 0x100_0000 == w / 256 / 256 / 256;
  }

  /** The bytes of a word, least significant first. */
  lemma Le32Bytes(a: Byte, b: Byte, c: Byte, d: Byte)
    ensures var w := a as int + b as int * 0x100 + c as int * 0x1_0000 + d as int * 0x100_0000;
      w < 0x1_0000_0000 && Le32(w) == [a, b, c, d]
  {
    var w := a as int + b as int * 0x100 + c as int * 0x1_0000 + d as int * 0x100_0000;
    assert w / 0x100 == b as int + c as int * 0x100 + d as int * 0x1_0000;
    assert w / 0x1_0000 == c as int + d as int * 0x100;
    assert w / 0x100_0000 == d as int;
  }

  lemma Le16Bytes(a: Byte, b: Byte)
    ensures Le16(a as int + b as int * 0x100) == [a, b]
  {
  }

  lemma Le16RoundTrip(w: nat)
    requires w < 0x1_0000
    ensures FromLe16(Le16(w)) == w
  {
  }

  /** The bytes s stand at index k of m. */
  predicate Has(m: seq<Byte>, k: nat, s: seq<Byte>)
    decreases |s|
  {
    if s == [] then k <= |m| else k < |m| && m[k] == s[0] && Has(m, k + 1, s[1..])
  }

  lemma {:induction false} HasSlice(m: seq<Byte>, k: nat, s: seq<Byte>)
    ensures Has(m, k, s) <==> k + |s| <= |m| && m[k..k + |s|] == s
    decreases |s|
  {
    if s != [] {
      HasSlice(m, k + 1, s[1..]);
      if k + |s| <= |m| {
        assert m[k..k + |s|] == [m[k]] + m[k + 1..k + |s|];
        assert s == [s[0]] + s[1..];
      }
    }
  }

  lemma Assoc<T>(a: seq<T>, b: seq<T>, c: seq<T>)
    ensures (a + b) + c == a + (b + c)
  {
  }
}
