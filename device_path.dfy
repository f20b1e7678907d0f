/**
 * The object layer: `DevicePath` nodes whose payload the setters overwrite in place, and
 * `DevicePathList`, the ordered list of them, with its byte codec and first-match accessors.
 */
module DevicePaths {
  import opened Wrappers
  import opened Bytes
  import opened DevicePathTypes
  import opened DevicePathNodes
  import opened DevicePathCodec
  import Utf16

  class DevicePath {
    const kind: Kind
    var data: seq<byte>

    constructor (kind: Kind, data: seq<byte>)
      ensures this.kind == kind && this.data == data
    {
      this.kind := kind;
      this.data := data;
    }

    /**
     * The node constructor: a pair of codes that the tag table does not hold is rejected. The
     * payload is always passed; the default of an empty payload is not modelled.
     */
    static method Create(pathType: int, subtype: int, data: seq<byte>) returns (r: Result<DevicePath, TagError>)
      ensures KindOf(pathType, subtype).Err? ==> r == Err(KindOf(pathType, subtype).error)
      ensures KindOf(pathType, subtype).Ok? ==>
                r.Ok? && fresh(r.value) && r.value.Value() == Node(KindOf(pathType, subtype).value, data)
    {
      var kind := KindOf(pathType, subtype);
      if kind.Err? {
        return Err(kind.error);
      }
      var node := new DevicePath(kind.value, data);
      return Ok(node);
    }

    function Value(): Node
      reads this
    {
      Node(kind, data)
    }

    /**
     * `set_hard_drive_node`: on a Hard Drive node the payload is replaced by the 38-byte layout of `h`;
     * any other node is left alone and `false` is returned; an out-of-range field raises.
     */
    method SetHardDriveNode(h: HardDriveNode) returns (r: Result<bool, EncodeError>)
      modifies this
      ensures !IsHardDrive(Value()) ==> r == Ok(false) && data == old(data)
      ensures IsHardDrive(Value()) && !Fits(h) ==> r == Err(FieldOverflow) && data == old(data)
      ensures IsHardDrive(Value()) && Fits(h) ==> r == Ok(true) && HardDrivePayload(h) == Ok(data)
      ensures r == Ok(true) && |h.partitionSignature| == 16 ==> HardDriveOf(Value()) == Some(AsRead(h))
    {
      if !IsHardDrive(Value()) {
        return Ok(false);
      }
      var payload := HardDrivePayload(h);
      if payload.Err? {
        return Err(payload.error);
      }
      data := payload.value;
      if |h.partitionSignature| == 16 {
        HardDriveRoundTrip(kind, h);
      }
      return Ok(true);
    }

    /** `set_file_path`: on a File Path node the payload becomes the encoded text; otherwise `false`. */
    method SetFilePath(text: seq<Utf16.u16>) returns (ok: bool)
      modifies this
      ensures ok == IsFilePath(Value())
      ensures data == if ok then Utf16.Encode(text) else old(data)
      ensures ok ==> FilePathOf(Value()) == Some(text)
    {
      if !IsFilePath(Value()) {
        return false;
      }
      data := Utf16.Encode(text);
      FilePathRoundTrip(kind, text);
      return true;
    }
  }

  /** The states of the node objects, in list order. */
  ghost function NodesOf(ps: seq<DevicePath>): (r: seq<Node>)
    reads set i | 0 <= i < |ps| :: ps[i]
    ensures |r| == |ps|
    ensures forall i :: 0 <= i < |ps| ==> r[i] == ps[i].Value()
  {
    if ps == [] then [] else NodesOf(ps[..|ps| - 1]) + [ps[|ps| - 1].Value()]
  }

  lemma PrependNothing(rest: Result<seq<Node>, DecodeError>)
    ensures Prepend([], rest) == rest
  {
    if rest.Ok? {
      assert [] + rest.value == rest.value;
    }
  }

  /** One turn of the `from_bytes` loop moves the header's node from the undecoded part to the prefix. */
  lemma DecodeStep(raw: seq<byte>, off: nat, next: nat, node: Node, prefix: seq<Node>)
    requires Halts(raw, off) && off + HeaderSize <= |raw| && KindOf(raw[off], raw[off + 1]).Ok?
    requires next == off + HeaderLength(raw, off)
    requires node == Node(KindOf(raw[off], raw[off + 1]).value, Slice(raw, off + HeaderSize, next))
    ensures off < next && Halts(raw, next)
    ensures Prepend(prefix, DecodeFrom(raw, off)) == Prepend(prefix + [node], DecodeFrom(raw, next))
  {
    DecodeFromStep(raw, off, next);
    var rest := DecodeFrom(raw, next);
    if rest.Ok? {
      assert prefix + ([node] + rest.value) == (prefix + [node]) + rest.value;
    }
  }

  /**
   * One turn of the `from_bytes` loop: unpack the header at `offset` (a partial header raises), construct
   * the node from its tags and the sliced payload (unknown tags raise), and step to `offset + length`.
   */
  method ReadNode(raw: seq<byte>, offset: nat, ghost prefix: seq<Node>) returns (r: Result<DevicePath, DecodeError>, next: nat)
    requires Halts(raw, offset) && offset < |raw|
    ensures r.Err? ==> Prepend(prefix, DecodeFrom(raw, offset)) == Err(r.error)
    ensures r.Ok? ==> fresh(r.value) && offset < next && Halts(raw, next)
    ensures r.Ok? ==> Prepend(prefix, DecodeFrom(raw, offset)) == Prepend(prefix + [r.value.Value()], DecodeFrom(raw, next))
  {
    next := offset;
    if offset + HeaderSize > |raw| {
      return Err(TruncatedHeader), next;
    }
    var pathType, subtype, length := raw[offset], raw[offset + 1], FromLe(raw[offset + 2..offset + 4]);
    var data := Slice(raw, offset + HeaderSize, offset + length);
    var node := DevicePath.Create(pathType, subtype, data);
    if node.Err? {
      return Err(BadTag(node.error)), next;
    }
    next := offset + length;
    DecodeStep(raw, offset, next, node.value.Value(), prefix);
    return Ok(node.value), next;
  }

  class DevicePathList {
    var paths: seq<DevicePath>

    /** No node object occurs twice, so rewriting one node leaves the others alone. */
    ghost predicate Valid()
      reads this
    {
      forall i, j :: 0 <= i < j < |paths| ==> paths[i] != paths[j]
    }

    ghost function Objects(): set<object>
      reads this
    {
      set i | 0 <= i < |paths| :: paths[i]
    }

    ghost function Values(): seq<Node>
      reads this, Objects()
    {
      NodesOf(paths)
    }

    constructor ()
      ensures paths == [] && Valid()
    {
      paths := [];
    }

    /** `paths.append(node)` for a node object not already in the list. */
    method Append(node: DevicePath)
      requires Valid() && node !in Objects()
      modifies this
      ensures Valid() && paths == old(paths) + [node]
      ensures Objects() == old(Objects()) + {node}
      ensures Values() == old(Values()) + [node.Value()]
    {
      paths := paths + [node];
      assert Objects() == old(Objects()) + {node} by {
        forall o | o in Objects() ensures o in old(Objects()) + {node} {
          var i :| 0 <= i < |paths| && paths[i] == o;
          if i < |old(paths)| {
            assert old(paths)[i] == o;
          }
        }
        forall o | o in old(Objects()) ensures o in Objects() {
          var i :| 0 <= i < |old(paths)| && old(paths)[i] == o;
          assert paths[i] == o;
        }
      }
    }

    /** `from_bytes`: the loop reads one header at a time and appends a fresh node for it. */
    static method FromBytes(raw: seq<byte>) returns (r: Result<DevicePathList, DecodeError>)
      requires Halts(raw, 0)
      ensures Decode(raw).Err? ==> r == Err(Decode(raw).error)
      ensures Decode(raw).Ok? ==> r.Ok? && fresh(r.value) && r.value.Valid()
      ensures Decode(raw).Ok? ==> fresh(r.value.Objects()) && r.value.Values() == Decode(raw).value
    {
      var list := new DevicePathList();
      var offset: nat := 0;
      ghost var prefix: seq<Node> := [];
      ghost var objects: set<object> := {};
      PrependNothing(DecodeFrom(raw, 0));
      while offset < |raw|
        invariant Halts(raw, offset)
        invariant fresh(list) && list.Valid()
        invariant list.Objects() == objects && fresh(objects)
        invariant list.Values() == prefix
        invariant Decode(raw) == Prepend(prefix, DecodeFrom(raw, offset))
        decreases |raw| - offset
      {
        var node, next := ReadNode(raw, offset, prefix);
        if node.Err? {
          return Err(node.error);
        }
        assert list.Values() == prefix && node.value !in list.Objects();
        prefix := prefix + [node.value.Value()];
        objects := objects + {node.value};
        offset := next;
        list.Append(node.value);
      }
      return Ok(list);
    }

    /** `to_bytes`: each node's header and payload, appended in list order. */
    method ToBytes() returns (r: Result<seq<byte>, EncodeError>)
      ensures r == Encode(Values())
    {
      var raw: seq<byte> := [];
      for i := 0 to |paths|
        invariant Encodable(Values()[..i])
        invariant raw == EncodeNodes(Values()[..i])
      {
        var path := paths[i];
        if HeaderSize + |path.data| > 0xFFFF {
          return Err(FieldOverflow);
        }
        Pow256Values();
        raw := raw + [path.kind.TypeCode(), path.kind.SubtypeCode()] + ToLe(HeaderSize + |path.data|, 2);
        raw := raw + path.data;
        assert Values()[..i + 1] == Values()[..i] + [path.Value()];
        EncodeNodesAppend(Values()[..i], path.Value());
      }
      assert Values()[..|paths|] == Values();
      return Ok(raw);
    }

    /** `get_file_path`: the text of the first File Path node. */
    method GetFilePath() returns (r: Option<seq<Utf16.u16>>)
      ensures r == FirstFilePath(Values())
    {
      for i := 0 to |paths|
        invariant forall j :: 0 <= j < i ==> !IsFilePath(Values()[j])
      {
        var filePath := FilePathOf(paths[i].Value());
        if filePath.Some? {
          return filePath;
        }
      }
      return None;
    }

    /** `get_hard_drive_node`: the first node that reads as a hard-drive node; short ones are skipped. */
    method GetHardDriveNode() returns (r: Option<HardDriveNode>)
      ensures r == FirstHardDrive(Values())
    {
      for i := 0 to |paths|
        invariant forall j :: 0 <= j < i ==> !HasHardDriveNode(Values()[j])
      {
        var node := HardDriveOf(paths[i].Value());
        if node.Some? {
          return node;
        }
      }
      return None;
    }

    /** `set_file_path`: rewrites the first File Path node only; `false` when there is none. */
    method SetFilePath(text: seq<Utf16.u16>) returns (ok: bool)
      requires Valid()
      modifies Objects()
      ensures var i := FirstMatch(old(Values()), IsFilePath);
              && ok == i.Some?
              && Values() == if ok then old(Values())[i.value := Node(old(Values())[i.value].kind, Utf16.Encode(text))]
                             else old(Values())
      ensures ok ==> FirstFilePath(Values()) == Some(text)
    {
      ghost var values := Values();
      for i := 0 to |paths|
        invariant forall j :: 0 <= j < i ==> !IsFilePath(paths[j].Value())
        invariant Values() == values
      {
        if IsFilePath(paths[i].Value()) {
          ok := paths[i].SetFilePath(text);
          assert FirstMatch(values, IsFilePath) == Some(i);
          assert Values() == values[i := Node(values[i].kind, Utf16.Encode(text))] by {
            assert forall j :: 0 <= j < |paths| && j != i ==> Values()[j] == values[j];
          }
          SetThenGetFilePath(values, i, text);
          return;
        }
      }
      return false;
    }

    /**
     * `set_hard_drive_node`: rewrites the first Hard Drive node only, whatever its current size;
     * `false` when there is none.
     */
    method SetHardDriveNode(h: HardDriveNode) returns (r: Result<bool, EncodeError>)
      requires Valid()
      modifies Objects()
      ensures var i := FirstMatch(old(Values()), IsHardDrive);
              && (i.None? ==> r == Ok(false) && Values() == old(Values()))
              && (i.Some? && !Fits(h) ==> r == Err(FieldOverflow) && Values() == old(Values()))
              && (i.Some? && Fits(h) ==>
                    (&& r == Ok(true)
                     && Values() == old(Values())[i.value := Node(old(Values())[i.value].kind, HardDrivePayload(h).value)]))
      ensures r == Ok(true) && |h.partitionSignature| == 16 ==> FirstHardDrive(Values()) == Some(AsRead(h))
    {
      ghost var values := Values();
      for i := 0 to |paths|
        invariant forall j :: 0 <= j < i ==> !IsHardDrive(paths[j].Value())
        invariant Values() == values
      {
        if IsHardDrive(paths[i].Value()) {
          r := paths[i].SetHardDriveNode(h);
          assert FirstMatch(values, IsHardDrive) == Some(i);
          if Fits(h) {
            assert Values() == values[i := Node(values[i].kind, HardDrivePayload(h).value)] by {
              assert forall j :: 0 <= j < |paths| && j != i ==> Values()[j] == values[j];
            }
            if |h.partitionSignature| == 16 {
              SetThenGetHardDrive(values, i, h);
            }
          } else {
            assert Values() == values by {
              assert forall j :: 0 <= j < |paths| ==> Values()[j] == values[j];
            }
          }
          return;
        }
      }
      return Ok(false);
    }
  }
}
