/**
 * The UTF-16 little-endian text encoding used for File Path nodes, on text given as 16-bit code units.
 * Encoding writes each unit low byte first and appends one null unit; decoding pairs the bytes up
 * (a trailing odd byte is ignored) and strips one trailing null unit if there is one.
 */
module Utf16 {
  import opened Bytes

  type u16 = x: int | 0 <= x < 0x1_0000

  function EncodeUnits(units: seq<u16>): (r: seq<byte>)
    ensures |r| == 2 * |units|
  {
    Pow256Values();
    if units == [] then [] else ToLe(units[0], 2) + EncodeUnits(units[1..])
  }

  function DecodeUnits(raw: seq<byte>): (r: seq<u16>)
    ensures |r| == |raw| / 2
  {
    Pow256Values();
    if |raw| < 2 then [] else [FromLe(raw[..2]) as u16] + DecodeUnits(raw[2..])
  }

  lemma {:induction false} DecodeEncodeUnits(units: seq<u16>)
    ensures DecodeUnits(EncodeUnits(units)) == units
  {
    Pow256Values();
    if units != [] {
      var raw := EncodeUnits(units);
      assert raw[..2] == ToLe(units[0], 2);
      assert raw[2..] == EncodeUnits(units[1..]);
      FromLeToLe(units[0], 2);
      DecodeEncodeUnits(units[1..]);
    }
  }

  /** `string_to_utf16_bytes`: the units, then one null terminator. */
  function Encode(text: seq<u16>): (r: seq<byte>)
    ensures |r| == 2 * |text| + 2
    ensures r[|r| - 2..] == [0, 0]
  {
    EncodeUnits(text) + [0, 0]
  }

  /** `utf16_string_from_bytes`: the units, without a single trailing null terminator. */
  function Decode(raw: seq<byte>): (r: seq<u16>)
    ensures |r| <= |raw| / 2
  {
    var units := DecodeUnits(raw);
    if |units| > 0 && units[|units| - 1] == 0 then units[..|units| - 1] else units
  }

  lemma {:induction false} EncodeUnitsAppend(a: seq<u16>, b: seq<u16>)
    ensures EncodeUnits(a + b) == EncodeUnits(a) + EncodeUnits(b)
  {
    if a != [] {
      assert (a + b)[1..] == a[1..] + b;
      EncodeUnitsAppend(a[1..], b);
    } else {
      assert a + b == b;
    }
  }

  lemma RoundTrip(text: seq<u16>)
    ensures Decode(Encode(text)) == text
  {
    Pow256Values();
    EncodeUnitsAppend(text, [0]);
    assert EncodeUnits([0]) == [0, 0];
    DecodeEncodeUnits(text + [0]);
  }
}
