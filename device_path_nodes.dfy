/**
 * A device-path node as a value (tag and payload), and the two structured views layered on it:
 * the Hard Drive media node (section 10.3.5.1 of the UEFI Specification) and the File Path
 * media node (section 10.3.5.4).
 */
module DevicePathNodes {
  import opened Wrappers
  import opened Bytes
  import opened DevicePathTypes
  import Utf16

  /** The state of one `DevicePath` object: its tag and its payload bytes (the header is not stored). */
  datatype Node = Node(kind: Kind, data: seq<byte>)

  predicate IsHardDrive(n: Node)
  {
    n.kind == Media(HardDrive)
  }

  predicate IsFilePath(n: Node)
  {
    n.kind == Media(FilePath)
  }

  /** A value does not fit the fixed width of the field it is written to. */
  datatype EncodeError = FieldOverflow

  /** The GUID `uuid.UUID(bytes_le=...)` builds from 16 signature bytes; its text form is not modelled. */
  datatype Guid = Guid(bytesLe: seq<byte>)

  datatype HardDriveNode = HardDriveNode(
    partitionNumber: int,
    partitionStartLba: int,
    partitionSizeLba: int,
    partitionSignature: seq<byte>,
    partitionGuid: Option<Guid>,
    partitionFormat: int,
    signatureType: int)

  const HardDrivePayloadSize: nat := 38

  /** The GUID is derived only for a GPT signature: format 2 and signature type 2. */
  function GuidFor(signature: seq<byte>, format: int, signatureType: int): Option<Guid>
  {
    if format == 2 && signatureType == 2 && |signature| == 16 then Some(Guid(signature)) else None
  }

  /** The integer fields are in range of their u32, u64, u64, u8 and u8 slots. */
  predicate Fits(h: HardDriveNode)
  {
    && 0 <= h.partitionNumber < 0x1_0000_0000
    && 0 <= h.partitionStartLba < 0x1_0000_0000_0000_0000
    && 0 <= h.partitionSizeLba < 0x1_0000_0000_0000_0000
    && 0 <= h.partitionFormat < 0x100
    && 0 <= h.signatureType < 0x100
  }

  /** What a getter reads back after `h` is written: `h` with its GUID derived from the signature. */
  function AsRead(h: HardDriveNode): HardDriveNode
  {
    h.(partitionGuid := GuidFor(h.partitionSignature, h.partitionFormat, h.signatureType))
  }

  /** `DevicePath.get_hard_drive_node`. */
  function HardDriveOf(n: Node): (r: Option<HardDriveNode>)
    ensures r.Some? <==> IsHardDrive(n) && |n.data| >= HardDrivePayloadSize
    ensures r.Some? ==> Fits(r.value) && r.value.partitionSignature == n.data[20..36]
    ensures r.Some? ==> (r.value.partitionGuid.Some? <==>
                         r.value.partitionFormat == 2 && r.value.signatureType == 2)
    ensures r.Some? && r.value.partitionGuid.Some? ==>
              r.value.partitionGuid.value == Guid(r.value.partitionSignature)
  {
    Pow256Values();
    if !IsHardDrive(n) || |n.data| < HardDrivePayloadSize then None
    else
      var d := n.data;
      var signature := d[20..36];
      Some(HardDriveNode(
        FromLe(d[0..4]), FromLe(d[4..12]), FromLe(d[12..20]),
        signature, GuidFor(signature, d[36], d[37]), d[36], d[37]))
  }

  predicate HasHardDriveNode(n: Node)
  {
    HardDriveOf(n).Some?
  }

  /**
   * The payload `set_hard_drive_node` writes: u32, u64, u64 little-endian, the signature as given,
   * then the format and signature-type bytes. An out-of-range field raises instead.
   */
  function HardDrivePayload(h: HardDriveNode): (r: Result<seq<byte>, EncodeError>)
    ensures r.Ok? <==> Fits(h)
    ensures r.Ok? ==> |r.value| == 22 + |h.partitionSignature|
  {
    Pow256Values();
    if !Fits(h) then Err(FieldOverflow)
    else Ok(ToLe(h.partitionNumber, 4) + ToLe(h.partitionStartLba, 8) + ToLe(h.partitionSizeLba, 8)
            + h.partitionSignature + [h.partitionFormat as byte, h.signatureType as byte])
  }

  /** Writing a hard-drive node with a 16-byte signature and reading it back gives the same fields. */
  lemma HardDriveRoundTrip(kind: Kind, h: HardDriveNode)
    requires kind == Media(HardDrive) && Fits(h) && |h.partitionSignature| == 16
    ensures HardDrivePayload(h).Ok?
    ensures HardDriveOf(Node(kind, HardDrivePayload(h).value)) == Some(AsRead(h))
  {
    Pow256Values();
    var d := HardDrivePayload(h).value;
    assert d[0..4] == ToLe(h.partitionNumber, 4);
    assert d[4..12] == ToLe(h.partitionStartLba, 8);
    assert d[12..20] == ToLe(h.partitionSizeLba, 8);
    assert d[20..36] == h.partitionSignature;
    FromLeToLe(h.partitionNumber, 4);
    FromLeToLe(h.partitionStartLba, 8);
    FromLeToLe(h.partitionSizeLba, 8);
  }

  /** Writing back what was read reproduces the first 38 payload bytes; any bytes past them are dropped. */
  lemma HardDrivePayloadOfRead(n: Node)
    requires HardDriveOf(n).Some?
    ensures HardDrivePayload(HardDriveOf(n).value) == Ok(n.data[..HardDrivePayloadSize])
  {
    Pow256Values();
    var d := n.data;
    ToLeFromLe(d[0..4]);
    ToLeFromLe(d[4..12]);
    ToLeFromLe(d[12..20]);
    assert d[..38] == d[0..4] + d[4..12] + d[12..20] + d[20..36] + [d[36], d[37]];
  }

  /**
   * `DevicePath.get_file_path`: a text exactly for File Path nodes, and the one that was written
   * when the payload is an encoded text.
   */
  function FilePathOf(n: Node): (r: Option<seq<Utf16.u16>>)
    ensures r.Some? <==> IsFilePath(n)
    ensures forall text :: IsFilePath(n) && n.data == Utf16.Encode(text) ==> r == Some(text)
  {
    assert forall text :: IsFilePath(n) && n.data == Utf16.Encode(text) ==> Utf16.Decode(n.data) == text by {
      forall text | IsFilePath(n) && n.data == Utf16.Encode(text) {
        Utf16.RoundTrip(text);
      }
    }
    if IsFilePath(n) then Some(Utf16.Decode(n.data)) else None
  }

  lemma FilePathRoundTrip(kind: Kind, text: seq<Utf16.u16>)
    requires kind == Media(FilePath)
    ensures FilePathOf(Node(kind, Utf16.Encode(text))) == Some(text)
  {
    Utf16.RoundTrip(text);
  }

  /** `DevicePathList.get_file_path`: the text of the first File Path node, if any. */
  function FirstFilePath(ns: seq<Node>): (r: Option<seq<Utf16.u16>>)
    ensures r.None? <==> forall j :: 0 <= j < |ns| ==> !IsFilePath(ns[j])
    ensures r.Some? ==> exists i :: 0 <= i < |ns| && IsFilePath(ns[i]) &&
                          (forall j :: 0 <= j < i ==> !IsFilePath(ns[j])) && r == FilePathOf(ns[i])
  {
    match FirstMatch(ns, IsFilePath)
    case None => None
    case Some(i) => FilePathOf(ns[i])
  }

  /**
   * `DevicePathList.get_hard_drive_node`: the first node that decodes as a hard-drive node.
   * A Hard Drive node with fewer than 38 payload bytes is skipped.
   */
  function FirstHardDrive(ns: seq<Node>): (r: Option<HardDriveNode>)
    ensures r.None? <==> forall j :: 0 <= j < |ns| ==> !HasHardDriveNode(ns[j])
    ensures r.Some? ==> exists i :: 0 <= i < |ns| && HasHardDriveNode(ns[i]) &&
                          (forall j :: 0 <= j < i ==> !HasHardDriveNode(ns[j])) && r == HardDriveOf(ns[i])
  {
    match FirstMatch(ns, HasHardDriveNode)
    case None => None
    case Some(i) => HardDriveOf(ns[i])
  }

  /** Two lists whose nodes agree on `p` have the same first match. */
  lemma {:induction false} FirstMatchSame(a: seq<Node>, b: seq<Node>, p: Node -> bool)
    requires |a| == |b|
    requires forall j :: 0 <= j < |a| ==> p(a[j]) == p(b[j])
    ensures FirstMatch(a, p) == FirstMatch(b, p)
  {
    if a != [] && !p(a[0]) {
      FirstMatchSame(a[1..], b[1..], p);
    }
  }

  /** After the first File Path node is rewritten with `text`, the list getter returns `text`. */
  lemma SetThenGetFilePath(ns: seq<Node>, i: nat, text: seq<Utf16.u16>)
    requires FirstMatch(ns, IsFilePath) == Some(i)
    ensures FirstFilePath(ns[i := Node(ns[i].kind, Utf16.Encode(text))]) == Some(text)
  {
    var ns' := ns[i := Node(ns[i].kind, Utf16.Encode(text))];
    FirstMatchSame(ns, ns', IsFilePath);
    FilePathRoundTrip(ns[i].kind, text);
  }

  /**
   * After the first Hard Drive node is rewritten from `h`, the list getter returns `h` as read back,
   * even when that node was too short to be read before.
   */
  lemma SetThenGetHardDrive(ns: seq<Node>, i: nat, h: HardDriveNode)
    requires FirstMatch(ns, IsHardDrive) == Some(i)
    requires Fits(h) && |h.partitionSignature| == 16
    ensures HardDrivePayload(h).Ok?
    ensures FirstHardDrive(ns[i := Node(ns[i].kind, HardDrivePayload(h).value)]) == Some(AsRead(h))
  {
    HardDriveRoundTrip(ns[i].kind, h);
    var ns' := ns[i := Node(ns[i].kind, HardDrivePayload(h).value)];
    assert HasHardDriveNode(ns'[i]);
    assert forall j :: 0 <= j < i ==> !HasHardDriveNode(ns'[j]);
    var k := FirstMatch(ns', HasHardDriveNode);
    assert k == Some(i);
  }
}
