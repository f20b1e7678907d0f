/**
 * Boot configuration over the firmware variable store (section 3.3 of the UEFI Specification,
 * Globally Defined Variables): `BootOrder` is a packed list of signed 16-bit little-endian entry ids,
 * `Boot####` holds one entry's load option bytes, `BootNext` holds a single signed 16-bit id.
 */
module Boot {
  import opened Wrappers
  import opened Bytes

  datatype BootError = UnsupportedFirmware | VariableNotFound | MalformedVariable | ValueOutOfRange

  const BootOrderName: string := "BootOrder"
  const BootNextName: string := "BootNext"

  predicate AllI16(ids: seq<int>)
  {
    forall i :: 0 <= i < |ids| ==> IsI16(ids[i])
  }

  function PackI16s(ids: seq<int>): (r: seq<byte>)
    requires AllI16(ids)
    ensures |r| == 2 * |ids|
    ensures forall i :: 0 <= i < |ids| ==> r[2 * i..2 * i + 2] == I16ToLe(ids[i])
  {
    if ids == [] then []
    else
      var rest := PackI16s(ids[1..]);
      var r := I16ToLe(ids[0]) + rest;
      assert forall i :: 1 <= i < |ids| ==> r[2 * i..2 * i + 2] == rest[2 * (i - 1)..2 * (i - 1) + 2];
      r
  }

  /** `b"".join(struct.pack("<h", id) for id in ids)`: in caller order, no sorting or deduplication. */
  function EncodeBootOrder(ids: seq<int>): (r: Result<seq<byte>, BootError>)
    ensures r.Ok? <==> AllI16(ids)
    ensures r.Ok? ==> |r.value| == 2 * |ids|
  {
    if AllI16(ids) then Ok(PackI16s(ids)) else Err(ValueOutOfRange)
  }

  function UnpackI16s(raw: seq<byte>): (r: seq<int>)
    requires |raw| % 2 == 0
    ensures 2 * |r| == |raw| && AllI16(r)
  {
    if raw == [] then [] else [I16FromLe(raw[..2])] + UnpackI16s(raw[2..])
  }

  /** `[e[0] for e in iter_unpack("<h", raw)]`; a length that is not a multiple of 2 raises. */
  function DecodeBootOrder(raw: seq<byte>): (r: Result<seq<int>, BootError>)
    ensures r.Ok? <==> |raw| % 2 == 0
    ensures r.Ok? ==> 2 * |r.value| == |raw|
  {
    if |raw| % 2 == 0 then Ok(UnpackI16s(raw)) else Err(MalformedVariable)
  }

  lemma {:induction false} UnpackPack(ids: seq<int>)
    requires AllI16(ids)
    ensures UnpackI16s(PackI16s(ids)) == ids
  {
    if ids != [] {
      var raw := PackI16s(ids);
      assert raw[..2] == I16ToLe(ids[0]);
      assert raw[2..] == PackI16s(ids[1..]);
      I16RoundTrip(ids[0]);
      UnpackPack(ids[1..]);
    }
  }

  lemma {:induction false} PackUnpack(raw: seq<byte>)
    requires |raw| % 2 == 0
    ensures PackI16s(UnpackI16s(raw)) == raw
  {
    if raw != [] {
      I16RoundTripBytes(raw[..2]);
      PackUnpack(raw[2..]);
      assert raw == raw[..2] + raw[2..];
    }
  }

  /** Reading back a written boot order gives the ids, in the same order. */
  lemma BootOrderRoundTrip(ids: seq<int>)
    requires AllI16(ids)
    ensures DecodeBootOrder(EncodeBootOrder(ids).value) == Ok(ids)
  {
    UnpackPack(ids);
  }

  /** Every even-length payload is the encoding of the ids it decodes to. */
  lemma BootOrderRoundTripBytes(raw: seq<byte>)
    requires |raw| % 2 == 0
    ensures EncodeBootOrder(DecodeBootOrder(raw).value) == Ok(raw)
  {
    PackUnpack(raw);
  }

  lemma BootOrderExample()
    ensures EncodeBootOrder([3, 0, 7]) == Ok([3, 0, 0, 0, 7, 0])
    ensures DecodeBootOrder([3, 0, 0, 0, 7, 0]) == Ok([3, 0, 7])
  {
    BootOrderRoundTrip([3, 0, 7]);
    Pow256Values();
    assert ToLe(0, 0) == [];
    assert ToLe(0, 1) == [0];
    assert ToLe(3, 2) == [3, 0] && ToLe(0, 2) == [0, 0] && ToLe(7, 2) == [7, 0];
    assert I16ToLe(3) == [3, 0] && I16ToLe(0) == [0, 0] && I16ToLe(7) == [7, 0];
    assert AllI16([3, 0, 7]);
    assert [3, 0, 7][1..] == [0, 7] && [0, 7][1..] == [7] && [7][1..] == [];
    assert PackI16s([7]) == [7, 0];
    assert PackI16s([0, 7]) == [0, 0, 7, 0];
    assert PackI16s([3, 0, 7]) == [3, 0, 0, 0, 7, 0];
  }

  /** An upper-case hex digit, as `X` formatting writes them. */
  predicate IsHexDigit(c: char)
  {
    '0' <= c <= '9' || 'A' <= c <= 'F'
  }

  predicate IsHexString(s: string)
  {
    forall i :: 0 <= i < |s| ==> IsHexDigit(s[i])
  }

  function DigitValue(c: char): nat
  {
    if '0' <= c <= '9' then (c - '0') as nat else if 'A' <= c <= 'F' then (c - 'A') as nat + 10 else 0
  }

  function HexDigit(d: nat): (c: char)
    requires d < 16
    ensures IsHexDigit(c) && DigitValue(c) == d
  {
    if d < 10 then ('0' as int + d) as char else ('A' as int + (d - 10)) as char
  }

  /** The upper-case hex rendering of `n`, without leading zeros. */
  function HexDigits(n: nat): (r: string)
    ensures |r| >= 1
  {
    if n < 16 then [HexDigit(n)] else HexDigits(n / 16) + [HexDigit(n % 16)]
  }

  function ZeroPad(s: string, width: nat): (r: string)
    ensures |r| == if |s| >= width then |s| else width
    decreases width - |s|
  {
    if |s| >= width then s else ZeroPad(['0'] + s, width)
  }

  /**
   * `s` renders `v` as a `{:0<width>X}` format does: upper-case hex digits that spell `v`, at least
   * `width` of them, with a leading zero only where the width asks for padding.
   */
  predicate PaddedHex(s: string, v: nat, width: nat)
  {
    IsHexString(s) && HexValue(s) == v && |s| >= width && (|s| == width || s[0] != '0')
  }

  /**
   * `k` is `"Boot{:04X}".format(id)` by the rules of Python's format mini-language: a negative
   * id is written as `-` and its magnitude, and the sign counts toward the width of 4.
   */
  predicate IsEntryKey(k: string, id: int)
  {
    && |k| >= 4 && k[..4] == "Boot"
    && if id >= 0 then PaddedHex(k[4..], id, 4)
       else |k| >= 5 && k[4] == '-' && PaddedHex(k[5..], -id, 3)
  }

  /** `"{:04X}".format(id)`: upper-case hex, zero-padded to 4 characters, the sign counted in the width. */
  function Hex04(id: int): (r: string)
    ensures id >= 0 ==> PaddedHex(r, id, 4)
    ensures id < 0 ==> |r| >= 1 && r[0] == '-' && PaddedHex(r[1..], -id, 3)
  {
    if id < 0 then
      var digits := ZeroPad(HexDigits(-id), 3);
      PaddedHexOf(-id, 3);
      assert ("-" + digits)[1..] == digits;
      "-" + digits
    else
      PaddedHexOf(id, 4);
      ZeroPad(HexDigits(id), 4)
  }

  /** `"Boot{:04X}".format(id)`, the name of entry `id`'s variable. */
  function BootEntryName(id: int): (r: string)
    ensures IsEntryKey(r, id)
  {
    var h := Hex04(id);
    assert ("Boot" + h)[..4] == "Boot" && ("Boot" + h)[4..] == h;
    assert id < 0 ==> ("Boot" + h)[4] == h[0] && ("Boot" + h)[5..] == h[1..];
    "Boot" + h
  }

  /** The number a string of hex digits spells, most significant digit first. */
  function HexValue(s: string): nat
  {
    if s == [] then 0 else 16 * HexValue(s[..|s| - 1]) + DigitValue(s[|s| - 1])
  }

  lemma {:induction false} HexDigitsValue(n: nat)
    ensures IsHexString(HexDigits(n)) && HexValue(HexDigits(n)) == n
    decreases n
  {
    if n >= 16 {
      var r := HexDigits(n);
      HexDigitsValue(n / 16);
      assert r[..|r| - 1] == HexDigits(n / 16);
    }
  }

  lemma {:induction false} HexDigitsLength(n: nat)
    ensures n < 0x1000 ==> |HexDigits(n)| <= 3
    ensures n < 0x1_0000 ==> |HexDigits(n)| <= 4
    decreases n
  {
    if n >= 16 {
      HexDigitsLength(n / 16);
    }
  }

  lemma {:induction false} LeadingZero(s: string)
    ensures HexValue(['0'] + s) == HexValue(s)
    decreases |s|
  {
    if s != [] {
      assert (['0'] + s)[..|s|] == ['0'] + s[..|s| - 1];
      LeadingZero(s[..|s| - 1]);
    }
  }

  lemma {:induction false} ZeroPadValue(s: string, width: nat)
    requires IsHexString(s)
    ensures IsHexString(ZeroPad(s, width)) && HexValue(ZeroPad(s, width)) == HexValue(s)
    decreases width - |s|
  {
    if |s| < width {
      LeadingZero(s);
      ZeroPadValue(['0'] + s, width);
    }
  }

  /** An id in 0..0xFFFF names `Boot` and exactly 4 upper-case hex digits that spell the id. */
  lemma BootEntryNameFormat(id: int)
    requires 0 <= id < 0x1_0000
    ensures |BootEntryName(id)| == 8 && BootEntryName(id)[..4] == "Boot"
    ensures IsHexString(BootEntryName(id)[4..]) && HexValue(BootEntryName(id)[4..]) == id
  {
    HexDigitsValue(id);
    HexDigitsLength(id);
    ZeroPadValue(HexDigits(id), 4);
    assert BootEntryName(id)[4..] == Hex04(id);
  }

  /** Distinct ids name distinct variables. */
  lemma BootEntryNameInjective(a: int, b: int)
    requires BootEntryName(a) == BootEntryName(b)
    ensures a == b
  {
    var k := BootEntryName(a);
    assert IsEntryKey(k, a) && IsEntryKey(k, b);
    assert !IsHexDigit('-');
  }

  function Pow16(n: nat): (r: nat)
    ensures r >= 1
  {
    if n == 0 then 1 else 16 * Pow16(n - 1)
  }

  lemma {:induction false} Pow16Monotone(a: nat, b: nat)
    requires a <= b
    ensures Pow16(a) <= Pow16(b)
    decreases b
  {
    if a < b {
      Pow16Monotone(a, b - 1);
    }
  }

  /** A number below 16 has one digit, and the first digit of a positive number is never `0`. */
  lemma {:induction false} HexDigitsLeading(n: nat)
    ensures n < 16 ==> |HexDigits(n)| == 1
    ensures n >= 1 ==> HexDigits(n)[0] != '0'
    decreases n
  {
    if n >= 16 {
      HexDigitsLeading(n / 16);
      assert HexDigits(n)[0] == HexDigits(n / 16)[0];
    } else {
      assert DigitValue('0') == 0;
    }
  }

  /** The minimal rendering, zero-padded to `width`, is the `{:0<width>X}` rendering. */
  lemma PaddedHexOf(n: nat, width: nat)
    requires width >= 1
    ensures PaddedHex(ZeroPad(HexDigits(n), width), n, width)
  {
    var d := HexDigits(n);
    HexDigitsValue(n);
    ZeroPadValue(d, width);
    if |d| >= width {
      assert ZeroPad(d, width) == d;
      HexDigitsLeading(n);
    }
  }

  /** `s.len()` hex digits spell less than 16 to that power. */
  lemma {:induction false} HexValueBelow(s: string)
    requires IsHexString(s)
    ensures HexValue(s) < Pow16(|s|)
    decreases |s|
  {
    if s != [] {
      var p := s[..|s| - 1];
      assert IsHexString(p) by {
        assert forall i :: 0 <= i < |p| ==> p[i] == s[i];
      }
      HexValueBelow(p);
    }
  }

  /** Hex digits without a leading zero spell at least 16 to the power of their count less one. */
  lemma {:induction false} HexValueAtLeast(s: string)
    requires IsHexString(s) && |s| >= 1 && s[0] != '0'
    ensures HexValue(s) >= Pow16(|s| - 1)
    decreases |s|
  {
    var p := s[..|s| - 1];
    if |s| == 1 {
      assert p == [];
    } else {
      assert p[0] == s[0];
      assert IsHexString(p) by {
        assert forall i :: 0 <= i < |p| ==> p[i] == s[i];
      }
      HexValueAtLeast(p);
    }
  }

  lemma DigitValueInjective(c: char, d: char)
    requires IsHexDigit(c) && IsHexDigit(d) && DigitValue(c) == DigitValue(d)
    ensures c == d
  {
  }

  /** The last digit and the digits before it are determined by the value. */
  lemma LastDigitUnique(a: nat, x: nat, b: nat, y: nat)
    requires x < 16 && y < 16 && 16 * a + x == 16 * b + y
    ensures a == b && x == y
  {
  }

  /** Hex strings of one length that spell one number are equal. */
  lemma {:induction false} HexValueInjective(s: string, t: string)
    requires IsHexString(s) && IsHexString(t) && |s| == |t| && HexValue(s) == HexValue(t)
    ensures s == t
    decreases |s|
  {
    if s != [] {
      var n := |s| - 1;
      var ps, pt := s[..n], t[..n];
      assert IsHexString(ps) && IsHexString(pt) by {
        assert forall i :: 0 <= i < n ==> ps[i] == s[i] && pt[i] == t[i];
      }
      assert IsHexDigit(s[n]) && IsHexDigit(t[n]);
      LastDigitUnique(HexValue(ps), DigitValue(s[n]), HexValue(pt), DigitValue(t[n]));
      DigitValueInjective(s[n], t[n]);
      HexValueInjective(ps, pt);
      assert s == ps + [s[n]] && t == pt + [t[n]];
    }
  }

  /** Two `{:0<width>X}` renderings of one number have one length. */
  lemma PaddedHexLength(s: string, t: string, v: nat, width: nat)
    requires PaddedHex(s, v, width) && PaddedHex(t, v, width)
    ensures |s| <= |t|
  {
    if |s| > |t| {
      HexValueAtLeast(s);
      HexValueBelow(t);
      Pow16Monotone(|t|, |s| - 1);
    }
  }

  /** A number has one `{:0<width>X}` rendering. */
  lemma PaddedHexUnique(s: string, t: string, v: nat, width: nat)
    requires PaddedHex(s, v, width) && PaddedHex(t, v, width)
    ensures s == t
  {
    PaddedHexLength(s, t, v, width);
    PaddedHexLength(t, s, v, width);
    HexValueInjective(s, t);
  }

  lemma SameSplit(k: string, e: string, i: nat)
    requires i <= |k| && i <= |e| && k[..i] == e[..i] && k[i..] == e[i..]
    ensures k == e
  {
    assert k == k[..i] + k[i..] && e == e[..i] + e[i..];
  }

  lemma EntryKeyUniqueUnsigned(k: string, e: string, id: nat)
    requires IsEntryKey(k, id) && IsEntryKey(e, id)
    ensures k == e
  {
    PaddedHexUnique(k[4..], e[4..], id, 4);
    SameSplit(k, e, 4);
  }

  lemma EntryKeyUniqueSigned(k: string, e: string, id: int)
    requires id < 0 && IsEntryKey(k, id) && IsEntryKey(e, id)
    ensures k == e
  {
    PaddedHexUnique(k[5..], e[5..], -id, 3);
    assert k[..5] == k[..4] + [k[4]] && e[..5] == e[..4] + [e[4]];
    SameSplit(k, e, 5);
  }

  /** `BootEntryName(id)` is the one string in the `Boot{:04X}` format for `id`. */
  lemma EntryKeyUnique(k: string, id: int)
    requires IsEntryKey(k, id)
    ensures k == BootEntryName(id)
  {
    if id >= 0 {
      EntryKeyUniqueUnsigned(k, BootEntryName(id), id);
    } else {
      EntryKeyUniqueSigned(k, BootEntryName(id), id);
    }
  }

  /** The character after `Boot` in an entry name is a hex digit or the sign. */
  lemma EntryNameFifthChar(id: int)
    ensures |BootEntryName(id)| > 4
    ensures BootEntryName(id)[4] == '-' || IsHexDigit(BootEntryName(id)[4])
  {
    var h := Hex04(id);
    assert |h| >= 4;
    assert BootEntryName(id)[4] == h[0];
  }

  /** No entry name is `BootOrder` or `BootNext`, so writing an entry never touches them. */
  lemma BootEntryNameIsNotReserved(id: int)
    ensures BootEntryName(id) != BootOrderName && BootEntryName(id) != BootNextName
  {
    EntryNameFifthChar(id);
    assert BootOrderName[4] == 'O' && BootNextName[4] == 'N';
    assert !IsHexDigit('O') && !IsHexDigit('N');
    assert BootEntryName(id)[4] != BootOrderName[4];
    assert BootEntryName(id)[4] != BootNextName[4];
  }

  /**
   * The firmware variable store as the boot functions see it: a map from variable name to payload,
   * and whether the platform has UEFI variables at all. Variable attributes are not modelled.
   */
  class FirmwareVariables {
    const uefiSupported: bool
    var variables: map<string, seq<byte>>

    constructor (uefiSupported: bool, variables: map<string, seq<byte>>)
      ensures this.uefiSupported == uefiSupported && this.variables == variables
    {
      this.uefiSupported := uefiSupported;
      this.variables := variables;
    }

    /** `get_boot_order`: the ids the stored `BootOrder` payload packs. */
    function GetBootOrder(): (r: Result<seq<int>, BootError>)
      reads this
      ensures !uefiSupported ==> r == Err(UnsupportedFirmware)
      ensures uefiSupported && BootOrderName !in variables ==> r == Err(VariableNotFound)
      ensures r.Ok? ==> BootOrderName in variables && EncodeBootOrder(r.value) == Ok(variables[BootOrderName])
      ensures uefiSupported && BootOrderName in variables ==>
                (r.Ok? <==> |variables[BootOrderName]| % 2 == 0)
    {
      if !uefiSupported then Err(UnsupportedFirmware)
      else if BootOrderName !in variables then Err(VariableNotFound)
      else
        var raw := variables[BootOrderName];
        if |raw| % 2 == 0 then BootOrderRoundTripBytes(raw); DecodeBootOrder(raw)
        else DecodeBootOrder(raw)
    }

    /**
     * `get_boot_entry`: the raw payload of the one variable whose name is `id` in the
     * `Boot{:04X}` format, or not-found.
     */
    function GetBootEntry(id: int): (r: Result<seq<byte>, BootError>)
      reads this
      ensures !uefiSupported ==> r == Err(UnsupportedFirmware)
      ensures uefiSupported ==> forall k :: IsEntryKey(k, id) ==>
                r == if k in variables then Ok(variables[k]) else Err(VariableNotFound)
    {
      assert forall k :: IsEntryKey(k, id) ==> k == BootEntryName(id) by {
        forall k | IsEntryKey(k, id) {
          EntryKeyUnique(k, id);
        }
      }
      if !uefiSupported then Err(UnsupportedFirmware)
      else if BootEntryName(id) !in variables then Err(VariableNotFound)
      else Ok(variables[BootEntryName(id)])
    }

    /**
     * `get_boot_next`: the override id; `None`, not an error, when `BootNext` is absent or its
     * payload is not exactly one i16. Only the firmware check fails.
     */
    function GetBootNext(): (r: Result<Option<int>, BootError>)
      reads this
      ensures r.Err? <==> !uefiSupported
      ensures r.Err? ==> r.error == UnsupportedFirmware
      ensures r.Ok? ==> (r.value.Some? <==> BootNextName in variables && |variables[BootNextName]| == 2)
      ensures r.Ok? && r.value.Some? ==> IsI16(r.value.value) && I16ToLe(r.value.value) == variables[BootNextName]
    {
      if !uefiSupported then Err(UnsupportedFirmware)
      else if BootNextName !in variables || |variables[BootNextName]| != 2 then Ok(None)
      else
        var raw := variables[BootNextName];
        I16RoundTripBytes(raw);
        Ok(Some(I16FromLe(raw)))
    }

    /** `set_boot_order`: writes `BootOrder` only; an id outside the i16 range raises before anything is written. */
    method SetBootOrder(ids: seq<int>) returns (r: Result<(), BootError>)
      modifies this
      ensures !uefiSupported ==> r == Err(UnsupportedFirmware)
      ensures uefiSupported && !AllI16(ids) ==> r == Err(ValueOutOfRange)
      ensures r.Err? ==> variables == old(variables)
      ensures r.Ok? <==> uefiSupported && AllI16(ids)
      ensures r.Ok? ==> variables == old(variables)[BootOrderName := EncodeBootOrder(ids).value]
      ensures r.Ok? ==> GetBootOrder() == Ok(ids)
    {
      if !uefiSupported {
        return Err(UnsupportedFirmware);
      }
      var raw := EncodeBootOrder(ids);
      if raw.Err? {
        return Err(raw.error);
      }
      variables := variables[BootOrderName := raw.value];
      BootOrderRoundTrip(ids);
      return Ok(());
    }

    /** `set_boot_entry`: writes `Boot####` only; the boot order and the override are untouched. */
    method SetBootEntry(id: int, raw: seq<byte>) returns (r: Result<(), BootError>)
      modifies this
      ensures r.Ok? <==> uefiSupported
      ensures r.Err? ==> r.error == UnsupportedFirmware && variables == old(variables)
      ensures r.Ok? ==> variables == old(variables)[BootEntryName(id) := raw]
      ensures r.Ok? ==> GetBootEntry(id) == Ok(raw)
      ensures GetBootOrder() == old(GetBootOrder()) && GetBootNext() == old(GetBootNext())
    {
      if !uefiSupported {
        return Err(UnsupportedFirmware);
      }
      BootEntryNameIsNotReserved(id);
      variables := variables[BootEntryName(id) := raw];
      return Ok(());
    }

    /** `set_boot_next`: writes exactly two bytes to `BootNext` only; an id outside the i16 range raises. */
    method SetBootNext(id: int) returns (r: Result<(), BootError>)
      modifies this
      ensures !uefiSupported ==> r == Err(UnsupportedFirmware)
      ensures uefiSupported && !IsI16(id) ==> r == Err(ValueOutOfRange)
      ensures r.Err? ==> variables == old(variables)
      ensures r.Ok? <==> uefiSupported && IsI16(id)
      ensures r.Ok? ==> variables == old(variables)[BootNextName := I16ToLe(id)]
      ensures r.Ok? ==> GetBootNext() == Ok(Some(id))
    {
      if !uefiSupported {
        return Err(UnsupportedFirmware);
      }
      if !IsI16(id) {
        return Err(ValueOutOfRange);
      }
      variables := variables[BootNextName := I16ToLe(id)];
      I16RoundTrip(id);
      return Ok(());
    }
  }
}
