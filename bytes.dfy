/** Bytes and the fixed-width little-endian integer encodings of Python's `struct` and `int.to_bytes`. */
module Bytes {

  type byte = x: int | 0 <= x < 256

  /** 256 to the power `n`: the number of values a `n`-byte unsigned field can hold. */
  function Pow256(n: nat): (r: nat)
    ensures r >= 1
  {
    if n == 0 then 1 else 256 * Pow256(n - 1)
  }

  lemma Pow256Values()
    ensures Pow256(1) == 0x100 && Pow256(2) == 0x1_0000
    ensures Pow256(4) == 0x1_0000_0000 && Pow256(8) == 0x1_0000_0000_0000_0000
  {
    assert Pow256(2) == 256 * Pow256(1);
    assert Pow256(4) == 65536 * Pow256(2) by { assert Pow256(4) == 256 * Pow256(3); }
    assert Pow256(8) == 0x1_0000_0000 * Pow256(4) by {
      assert Pow256(8) == 256 * Pow256(7);
      assert Pow256(7) == 256 * Pow256(6);
      assert Pow256(6) == 256 * Pow256(5);
    }
  }

  /** `int.from_bytes(s, "little")`: the unsigned value of `s`, least significant byte first. */
  function FromLe(s: seq<byte>): (r: nat)
    ensures r < Pow256(|s|)
  {
    if s == [] then 0 else s[0] + 256 * FromLe(s[1..])
  }

  /** `n.to_bytes(width, "little")` (also `struct.pack` of an unsigned field) for a value that fits. */
  function ToLe(n: nat, width: nat): (r: seq<byte>)
    requires n < Pow256(width)
    ensures |r| == width
  {
    if width == 0 then [] else [n % 256] + ToLe(n / 256, width - 1)
  }

  lemma {:induction false} FromLeToLe(n: nat, width: nat)
    requires n < Pow256(width)
    ensures FromLe(ToLe(n, width)) == n
  {
    if width > 0 {
      var s := ToLe(n, width);
      FromLeToLe(n / 256, width - 1);
      assert s[1..] == ToLe(n / 256, width - 1);
    }
  }

  lemma {:induction false} ToLeFromLe(s: seq<byte>)
    ensures ToLe(FromLe(s), |s|) == s
  {
    if s != [] {
      var n := FromLe(s);
      assert n % 256 == s[0] && n / 256 == FromLe(s[1..]);
      ToLeFromLe(s[1..]);
    }
  }

  /** Range of `struct` format `h`, a signed 16-bit field. */
  predicate IsI16(x: int)
  {
    -0x8000 <= x < 0x8000
  }

  /** `struct.pack("<h", x)`: two's complement, little-endian. */
  function I16ToLe(x: int): (r: seq<byte>)
    requires IsI16(x)
    ensures |r| == 2
  {
    Pow256Values();
    ToLe(if x < 0 then x + 0x1_0000 else x, 2)
  }

  /** `struct.unpack("<h", s)[0]` for a 2-byte `s`. */
  function I16FromLe(s: seq<byte>): (r: int)
    requires |s| == 2
    ensures IsI16(r)
  {
    Pow256Values();
    var u := FromLe(s);
    if u >= 0x8000 then u - 0x1_0000 else u
  }

  lemma I16RoundTrip(x: int)
    requires IsI16(x)
    ensures I16FromLe(I16ToLe(x)) == x
  {
    Pow256Values();
    FromLeToLe(if x < 0 then x + 0x1_0000 else x, 2);
  }

  lemma I16RoundTripBytes(s: seq<byte>)
    requires |s| == 2
    ensures I16ToLe(I16FromLe(s)) == s
  {
    ToLeFromLe(s);
  }

  /** Python's `s[lo:hi]` for non-negative bounds: both ends clamped to `|s|`, empty when `hi <= lo`. */
  function Slice<T>(s: seq<T>, lo: nat, hi: nat): (r: seq<T>)
    ensures lo <= hi <= |s| ==> r == s[lo..hi]
    ensures hi <= lo || |s| <= lo ==> r == []
    ensures lo < hi && lo < |s| ==> r == s[lo..if hi < |s| then hi else |s|]
  {
    var a := if lo < |s| then lo else |s|;
    var b := if hi < |s| then hi else |s|;
    if b <= a then [] else s[a..b]
  }
}
