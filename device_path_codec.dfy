/**
 * The packed device-path list: each node is a 4-byte header (type u8, subtype u8, total length u16
 * little-endian, header included) followed by its payload, and the nodes follow each other until the
 * buffer ends (the generic node layout of section 10.2 of the UEFI Specification).
 */
module DevicePathCodec {
  import opened Wrappers
  import opened Bytes
  import opened DevicePathTypes
  import opened DevicePathNodes

  /** Size of the `<BBH` header. */
  const HeaderSize: nat := 4

  /** The largest payload whose total length still fits the u16 length field. */
  const MaxPayload: nat := 0xFFFF - HeaderSize

  datatype DecodeError = TruncatedHeader | BadTag(tag: TagError)

  /** The length field of the header at `off`. */
  function HeaderLength(raw: seq<byte>, off: nat): nat
    requires off + HeaderSize <= |raw|
  {
    FromLe(raw[off + 2..off + 4])
  }

  /**
   * The `from_bytes` loop started at `off` stops: it never reaches a header with valid tags and a
   * length of 0, which would leave the offset where it is forever. It stops on every other input.
   */
  predicate Halts(raw: seq<byte>, off: nat)
    decreases |raw| - off
  {
    if off >= |raw| || off + HeaderSize > |raw| || KindOf(raw[off], raw[off + 1]).Err? then true
    else HeaderLength(raw, off) > 0 && Halts(raw, off + HeaderLength(raw, off))
  }

  /**
   * `DevicePathList.from_bytes`, from offset `off`. The header length is not checked: the payload is
   * Python's clamped slice `raw[off + 4 : off + length]`, and the next header is read at `off + length`.
   * A partial header fails as `struct.unpack_from` does; a bad tag fails as the node constructor does.
   */
  function DecodeFrom(raw: seq<byte>, off: nat): (r: Result<seq<Node>, DecodeError>)
    requires Halts(raw, off)
    ensures r.Ok? && off <= |raw| ==> |r.value| <= |raw| - off
    decreases |raw| - off
  {
    if off >= |raw| then Ok([])
    else if off + HeaderSize > |raw| then Err(TruncatedHeader)
    else match KindOf(raw[off], raw[off + 1])
      case Err(e) => Err(BadTag(e))
      case Ok(kind) =>
        var length := HeaderLength(raw, off);
        var node := Node(kind, Slice(raw, off + HeaderSize, off + length));
        match DecodeFrom(raw, off + length)
        case Err(e) => Err(e)
        case Ok(rest) => Ok([node] + rest)
  }

  /** The nodes of a whole buffer: at most one per byte, since every header read advances the offset. */
  function Decode(raw: seq<byte>): (r: Result<seq<Node>, DecodeError>)
    requires Halts(raw, 0)
    ensures raw == [] ==> r == Ok([])
    ensures r.Ok? ==> |r.value| <= |raw|
  {
    DecodeFrom(raw, 0)
  }

  /** `Ok(prefix + rest)` when decoding the rest succeeded, its error otherwise. */
  function Prepend(prefix: seq<Node>, rest: Result<seq<Node>, DecodeError>): Result<seq<Node>, DecodeError>
  {
    match rest
    case Ok(ns) => Ok(prefix + ns)
    case Err(e) => Err(e)
  }

  /** A header with valid tags yields its node, followed by whatever decoding from the end of its length gives. */
  lemma DecodeFromStep(raw: seq<byte>, off: nat, next: nat)
    requires off + HeaderSize <= |raw| && KindOf(raw[off], raw[off + 1]).Ok?
    requires next == off + HeaderLength(raw, off) && off < next && Halts(raw, next)
    ensures Halts(raw, off)
    ensures DecodeFrom(raw, off) ==
            Prepend([Node(KindOf(raw[off], raw[off + 1]).value, Slice(raw, off + HeaderSize, next))], DecodeFrom(raw, next))
  {
  }

  /** The buffer from `off` on is a sequence of headers with valid tags, each at least a header long, tiling it exactly. */
  predicate WellFormed(raw: seq<byte>, off: nat)
    decreases |raw| - off
  {
    || off == |raw|
    || (HeaderFits(raw, off) && WellFormed(raw, off + HeaderLength(raw, off)))
  }

  /** The header at `off` has valid tags and a length that covers at least itself and stays inside the buffer. */
  predicate HeaderFits(raw: seq<byte>, off: nat)
  {
    && off + HeaderSize <= |raw|
    && KindOf(raw[off], raw[off + 1]).Ok?
    && HeaderSize <= HeaderLength(raw, off)
    && off + HeaderLength(raw, off) <= |raw|
  }

  predicate Encodable(ns: seq<Node>)
  {
    forall i :: 0 <= i < |ns| ==> |ns[i].data| <= MaxPayload
  }

  /** One node on the wire: type code, subtype code, total length, payload. */
  function EncodeNode(n: Node): (r: seq<byte>)
    requires |n.data| <= MaxPayload
    ensures |r| == HeaderSize + |n.data|
    ensures r[0] == n.kind.TypeCode() && r[1] == n.kind.SubtypeCode()
    ensures FromLe(r[2..4]) == |r|
    ensures r[HeaderSize..] == n.data
  {
    Pow256Values();
    var r := [n.kind.TypeCode(), n.kind.SubtypeCode()] + ToLe(HeaderSize + |n.data|, 2) + n.data;
    assert r[2..4] == ToLe(HeaderSize + |n.data|, 2);
    FromLeToLe(HeaderSize + |n.data|, 2);
    r
  }

  /** The sum of the nodes' total lengths, headers included. */
  function TotalLength(ns: seq<Node>): nat
  {
    if ns == [] then 0 else HeaderSize + |ns[0].data| + TotalLength(ns[1..])
  }

  function EncodeNodes(ns: seq<Node>): (r: seq<byte>)
    requires Encodable(ns)
    ensures |r| == TotalLength(ns)
  {
    if ns == [] then [] else EncodeNode(ns[0]) + EncodeNodes(ns[1..])
  }

  /** `DevicePathList.to_bytes`: the nodes in list order; a payload too long for the length field raises. */
  function Encode(ns: seq<Node>): (r: Result<seq<byte>, EncodeError>)
    ensures r.Ok? <==> forall i :: 0 <= i < |ns| ==> |ns[i].data| <= MaxPayload
    ensures r.Ok? ==> |r.value| == TotalLength(ns)
  {
    if Encodable(ns) then Ok(EncodeNodes(ns)) else Err(FieldOverflow)
  }

  lemma {:induction false} EncodeNodesAppend(ns: seq<Node>, n: Node)
    requires Encodable(ns) && |n.data| <= MaxPayload
    ensures Encodable(ns + [n])
    ensures EncodeNodes(ns + [n]) == EncodeNodes(ns) + EncodeNode(n)
  {
    if ns == [] {
      assert ns + [n] == [n];
    } else {
      assert (ns + [n])[1..] == ns[1..] + [n];
      EncodeNodesAppend(ns[1..], n);
    }
  }

  /** A header that `EncodeNode` wrote at `off` reads back as the node's tag, length and payload. */
  lemma ReadEncodedNode(raw: seq<byte>, off: nat, n: Node)
    requires |n.data| <= MaxPayload
    requires off + HeaderSize + |n.data| <= |raw|
    requires raw[off..off + HeaderSize + |n.data|] == EncodeNode(n)
    ensures off + HeaderSize <= |raw|
    ensures KindOf(raw[off], raw[off + 1]) == Ok(n.kind)
    ensures HeaderLength(raw, off) == HeaderSize + |n.data|
    ensures Slice(raw, off + HeaderSize, off + HeaderLength(raw, off)) == n.data
  {
    var e := EncodeNode(n);
    assert raw[off] == e[0] && raw[off + 1] == e[1];
    assert raw[off + 2] == e[2] && raw[off + 3] == e[3];
    assert raw[off + 2..off + 4] == [e[2], e[3]] == e[2..4];
    assert raw[off + HeaderSize..off + |e|] == e[HeaderSize..];
    KindOfCodes(n.kind);
  }

  /** A node that `EncodeNode` wrote at `off`, in front of decodable bytes, is decoded first. */
  lemma DecodeEncodedHead(raw: seq<byte>, off: nat, next: nat, n: Node, ns: seq<Node>)
    requires |n.data| <= MaxPayload
    requires next == off + |EncodeNode(n)| <= |raw| && raw[off..next] == EncodeNode(n)
    requires WellFormed(raw, next) && Halts(raw, next) && DecodeFrom(raw, next) == Ok(ns)
    ensures WellFormed(raw, off) && Halts(raw, off)
    ensures DecodeFrom(raw, off) == Ok([n] + ns)
  {
    ReadEncodedNode(raw, off, n);
    assert next == off + HeaderLength(raw, off);
    assert HeaderFits(raw, off);
    WellFormedStep(raw, off, next);
    DecodeFromStep(raw, off, next);
  }

  /** A header that fits, in front of a well-formed rest, is well formed. */
  lemma WellFormedStep(raw: seq<byte>, off: nat, next: nat)
    requires HeaderFits(raw, off) && next == off + HeaderLength(raw, off) && WellFormed(raw, next)
    ensures WellFormed(raw, off)
  {
  }

  /** Decoding what `EncodeNodes` wrote from `off` to the end of the buffer gives the nodes back. */
  lemma {:induction false} DecodeEncodeAt(raw: seq<byte>, off: nat, ns: seq<Node>)
    requires Encodable(ns) && off <= |raw| && raw[off..] == EncodeNodes(ns)
    ensures WellFormed(raw, off) && Halts(raw, off)
    ensures DecodeFrom(raw, off) == Ok(ns)
    decreases |ns|
  {
    if ns == [] {
      assert off == |raw|;
    } else {
      var n := ns[0];
      var e := EncodeNode(n);
      var next := off + |e|;
      assert raw[off..] == e + EncodeNodes(ns[1..]);
      assert raw[next..] == EncodeNodes(ns[1..]);
      assert raw[off..next] == e;
      DecodeEncodeAt(raw, next, ns[1..]);
      DecodeEncodedHead(raw, off, next, n, ns[1..]);
      assert [n] + ns[1..] == ns;
    }
  }

  /** The header at `off` of a well-formed buffer is what `EncodeNode` writes for the node it describes. */
  lemma EncodeNodeOfHeader(raw: seq<byte>, off: nat)
    requires HeaderFits(raw, off)
    ensures HeaderLength(raw, off) - HeaderSize <= MaxPayload
    ensures EncodeNode(Node(KindOf(raw[off], raw[off + 1]).value, raw[off + HeaderSize..off + HeaderLength(raw, off)]))
            == raw[off..off + HeaderLength(raw, off)]
  {
    var length := HeaderLength(raw, off);
    var n := Node(KindOf(raw[off], raw[off + 1]).value, raw[off + HeaderSize..off + length]);
    var e := EncodeNode(n);
    var field := raw[off + 2..off + 4];
    assert e[2..4] == field by {
      ToLeFromLe(e[2..4]);
      ToLeFromLe(field);
    }
    assert e == e[..2] + e[2..4] + e[HeaderSize..];
    assert raw[off..off + length] == raw[off..off + 2] + field + raw[off + HeaderSize..off + length];
  }

  /** The node of a header that fits re-encodes to the bytes the header covers, in front of the rest. */
  lemma EncodeWellFormedHead(raw: seq<byte>, off: nat, next: nat, n: Node, rest: seq<Node>)
    requires HeaderFits(raw, off)
    requires next == off + HeaderLength(raw, off)
    requires n == Node(KindOf(raw[off], raw[off + 1]).value, raw[off + HeaderSize..next])
    requires Encodable(rest) && EncodeNodes(rest) == raw[next..]
    ensures Encodable([n] + rest) && EncodeNodes([n] + rest) == raw[off..]
  {
    EncodeNodeOfHeader(raw, off);
    assert ([n] + rest)[0] == n && ([n] + rest)[1..] == rest;
    assert EncodeNodes([n] + rest) == EncodeNode(n) + EncodeNodes(rest);
    assert EncodeNode(n) == raw[off..next];
    assert raw[off..] == raw[off..next] + raw[next..];
  }

  /** A header that fits decodes to its node, with exactly the payload it covers, in front of the rest. */
  lemma DecodeWellFormedHead(raw: seq<byte>, off: nat, next: nat, n: Node, rest: seq<Node>)
    requires HeaderFits(raw, off)
    requires next == off + HeaderLength(raw, off)
    requires n == Node(KindOf(raw[off], raw[off + 1]).value, raw[off + HeaderSize..next])
    requires Halts(raw, next) && DecodeFrom(raw, next) == Ok(rest)
    ensures Halts(raw, off) && DecodeFrom(raw, off) == Ok([n] + rest)
  {
    DecodeFromStep(raw, off, next);
  }

  /** A well-formed buffer decodes, and re-encoding the nodes gives back its bytes from `off` on. */
  lemma {:induction false} DecodeWellFormedAt(raw: seq<byte>, off: nat)
    requires WellFormed(raw, off)
    ensures Halts(raw, off)
    ensures DecodeFrom(raw, off).Ok?
    ensures Encodable(DecodeFrom(raw, off).value)
    ensures EncodeNodes(DecodeFrom(raw, off).value) == raw[off..]
    decreases |raw| - off
  {
    if off < |raw| {
      var next := off + HeaderLength(raw, off);
      DecodeWellFormedAt(raw, next);
      var n := Node(KindOf(raw[off], raw[off + 1]).value, raw[off + HeaderSize..next]);
      var rest := DecodeFrom(raw, next).value;
      DecodeWellFormedHead(raw, off, next, n, rest);
      EncodeWellFormedHead(raw, off, next, n, rest);
    }
  }

  /** Under well-formedness each header yields one node, in order, whose payload is exactly the bytes the header covers. */
  lemma DecodeOneNodePerHeader(raw: seq<byte>, off: nat)
    requires WellFormed(raw, off) && off < |raw|
    ensures Halts(raw, off) && Halts(raw, off + HeaderLength(raw, off))
    ensures DecodeFrom(raw, off).Ok? && DecodeFrom(raw, off + HeaderLength(raw, off)).Ok?
    ensures DecodeFrom(raw, off).value ==
            [Node(KindOf(raw[off], raw[off + 1]).value, raw[off + HeaderSize..off + HeaderLength(raw, off)])]
            + DecodeFrom(raw, off + HeaderLength(raw, off)).value
  {
    DecodeWellFormedAt(raw, off);
    DecodeWellFormedAt(raw, off + HeaderLength(raw, off));
  }

  /** `to_bytes(from_bytes(raw)) == raw` for a well-formed buffer. */
  lemma RoundTripBytes(raw: seq<byte>)
    requires WellFormed(raw, 0)
    ensures Halts(raw, 0) && Decode(raw).Ok?
    ensures Encode(Decode(raw).value) == Ok(raw)
  {
    DecodeWellFormedAt(raw, 0);
  }

  /** `from_bytes(to_bytes(nodes))` reproduces the nodes, and the encoding is well-formed. */
  lemma RoundTripNodes(ns: seq<Node>)
    requires forall i :: 0 <= i < |ns| ==> |ns[i].data| <= MaxPayload
    ensures Encode(ns).Ok? && WellFormed(Encode(ns).value, 0)
    ensures Halts(Encode(ns).value, 0) && Decode(Encode(ns).value) == Ok(ns)
  {
    var raw := EncodeNodes(ns);
    assert raw[0..] == raw;
    DecodeEncodeAt(raw, 0, ns);
  }

  /** A header length of 0 is not rejected: the loop reads the same header again and never ends. */
  lemma ZeroLengthNeverHalts(raw: seq<byte>, off: nat)
    requires off + HeaderSize <= |raw| && KindOf(raw[off], raw[off + 1]).Ok?
    requires HeaderLength(raw, off) == 0
    ensures !Halts(raw, off)
  {
  }

  /** The parsing loop started at `off` reads a header at offset `o` (or stops there, at the end). */
  predicate Visits(raw: seq<byte>, off: nat, o: nat)
    decreases |raw| - off
  {
    || o == off
    || (&& off + HeaderSize <= |raw| && KindOf(raw[off], raw[off + 1]).Ok? && HeaderLength(raw, off) > 0
        && Visits(raw, off + HeaderLength(raw, off), o))
  }

  /** At `o` there is a header with valid tags and length 0, which the loop would read forever. */
  predicate ZeroLengthAt(raw: seq<byte>, o: nat)
  {
    o + HeaderSize <= |raw| && KindOf(raw[o], raw[o + 1]).Ok? && HeaderLength(raw, o) == 0
  }

  /** A loop that does not end has reached a header with valid tags and length 0. */
  lemma {:induction false} NonHaltingReachesZeroLength(raw: seq<byte>, off: nat)
    requires !Halts(raw, off)
    ensures exists o :: Visits(raw, off, o) && ZeroLengthAt(raw, o)
    decreases |raw| - off
  {
    if HeaderLength(raw, off) == 0 {
      assert Visits(raw, off, off) && ZeroLengthAt(raw, off);
    } else {
      var next := off + HeaderLength(raw, off);
      NonHaltingReachesZeroLength(raw, next);
      var o :| Visits(raw, next, o) && ZeroLengthAt(raw, o);
      assert Visits(raw, off, o);
    }
  }

  /** Reaching a header with valid tags and length 0 means the loop does not end. */
  lemma {:induction false} ZeroLengthReachedNeverHalts(raw: seq<byte>, off: nat, o: nat)
    requires Visits(raw, off, o) && ZeroLengthAt(raw, o)
    ensures !Halts(raw, off)
    decreases |raw| - off
  {
    if o == off {
      ZeroLengthNeverHalts(raw, off);
    } else {
      ZeroLengthReachedNeverHalts(raw, off + HeaderLength(raw, off), o);
    }
  }

  /** The loop ends exactly when none of the headers it reads has valid tags and length 0. */
  lemma HaltsExactly(raw: seq<byte>, off: nat)
    ensures Halts(raw, off) <==> forall o :: Visits(raw, off, o) ==> !ZeroLengthAt(raw, o)
  {
    if !Halts(raw, off) {
      NonHaltingReachesZeroLength(raw, off);
    }
    forall o | Visits(raw, off, o) && ZeroLengthAt(raw, o)
      ensures !Halts(raw, off)
    {
      ZeroLengthReachedNeverHalts(raw, off, o);
    }
  }

  /** This buffer ends the loop after one header of length 8, although offset 4, never read, holds a zero length. */
  lemma UnvisitedZeroLengthExample()
    ensures Halts([0x04, 0x04, 0x08, 0x00, 0x04, 0x01, 0x00, 0x00], 0)
    ensures ZeroLengthAt([0x04, 0x04, 0x08, 0x00, 0x04, 0x01, 0x00, 0x00], 4)
  {
    var raw: seq<byte> := [0x04, 0x04, 0x08, 0x00, 0x04, 0x01, 0x00, 0x00];
    assert raw[2..4] == [0x08, 0x00];
    assert HeaderLength(raw, 0) == 8;
    assert raw[6..8] == [0x00, 0x00];
    assert HeaderLength(raw, 4) == 0;
    assert KindOf(0x04, 0x01) == Ok(Media(HardDrive));
    assert KindOf(0x04, 0x04) == Ok(Media(FilePath));
  }

  /** One buffer that does not halt: its second header, read at offset 1 inside the first, has length 0. */
  lemma ZeroLengthExample()
    ensures !Halts([0x04, 0x04, 0x01, 0x00, 0x00], 0)
  {
    var raw: seq<byte> := [0x04, 0x04, 0x01, 0x00, 0x00];
    assert raw[3..5] == [0x00, 0x00];
    assert HeaderLength(raw, 1) == 0;
    ZeroLengthNeverHalts(raw, 1);
    assert raw[2..4] == [0x01, 0x00];
    assert HeaderLength(raw, 0) == 1;
  }

  /**
   * A header length below 4 is not rejected either: the next header is read inside this one, so
   * these 5 bytes decode into two empty nodes, whose encoding is 8 bytes long.
   */
  lemma ShortLengthIsAccepted()
    ensures Halts([0x04, 0x04, 0x01, 0x00, 0x01], 0)
    ensures Decode([0x04, 0x04, 0x01, 0x00, 0x01]) == Ok([Node(Media(FilePath), []), Node(Media(HardDrive), [])])
    ensures |Encode(Decode([0x04, 0x04, 0x01, 0x00, 0x01]).value).value| == 8
  {
    var raw: seq<byte> := [0x04, 0x04, 0x01, 0x00, 0x01];
    assert raw[2..4] == [0x01, 0x00];
    assert HeaderLength(raw, 0) == 1;
    assert raw[3..5] == [0x00, 0x01];
    assert HeaderLength(raw, 1) == 256;
    assert KindOf(0x04, 0x04) == Ok(Media(FilePath));
    assert KindOf(0x04, 0x01) == Ok(Media(HardDrive));
    assert Slice(raw, 5, 257) == [] && Slice(raw, 4, 1) == [];
    assert Halts(raw, 257);
    assert Halts(raw, 1);
    assert DecodeFrom(raw, 257) == Ok([]);
    assert raw[1] == 0x04 && raw[2] == 0x01;
    assert Node(Media(HardDrive), Slice(raw, 1 + HeaderSize, 1 + HeaderLength(raw, 1))) == Node(Media(HardDrive), []);
    assert [Node(Media(HardDrive), [])] + [] == [Node(Media(HardDrive), [])];
    assert DecodeFrom(raw, 1) == Ok([Node(Media(HardDrive), [])]);
    assert [Node(Media(FilePath), [])] + [Node(Media(HardDrive), [])]
        == [Node(Media(FilePath), []), Node(Media(HardDrive), [])];
    assert Decode(raw) == Ok([Node(Media(FilePath), []), Node(Media(HardDrive), [])]);
  }
}
