# firmware-variables: device paths and boot variables in Dafny

This project models the core of `firmware_variables`, a Python library that reads and writes
UEFI boot configuration. It has two parts.

- **Device paths** (`device_path.py`). An `EFI_DEVICE_PATH` list is a run of nodes. Each
  node is a 4-byte little-endian header `{type: u8, subtype: u8, length: u16}` followed by
  `length - 4` payload bytes. The two tags select a variant from a two-level table. Parsing
  rejects any pair of tags the table does not hold. Two variants have typed accessors:
  - Media/Hard Drive: partition number, start and size, a 16-byte signature, the format and the signature type.
  - Media/File Path: a NUL-terminated UTF-16LE string.
- **Boot variables** (`boot.py`). `BootOrder` is a packed list of signed 16-bit
  little-endian entry ids. `Boot####` (4 upper-case hex digits) holds one entry's raw load
  option. `BootNext` holds a single signed 16-bit id, and a read treats an unusable value as
  "no override".

Modules, one per file:

- `wrappers.dfy`, module `Wrappers`: `Option`, `Result`, and `FirstMatch` (the index of the first element that satisfies a predicate).
- `bytes.dfy`, module `Bytes`: bytes, little-endian unsigned integers, signed 16-bit (`struct` `<h`), and Python slicing.
- `utf16.dfy`, module `Utf16`: UTF-16LE code units with one NUL terminator, as the payload of a File Path node.
- `device_path_types.dfy`, module `DevicePathTypes`: the type and subtype tables, and decoding a pair of header bytes into a `Kind`.
- `device_path_nodes.dfy`, module `DevicePathNodes`: node values, the Hard Drive and File Path payloads, and first-match accessors over a list of node values.
- `device_path_codec.dfy`, module `DevicePathCodec`: the byte codec of a node list (decoding as the parsing loop does it, encoding, and the round trips).
- `device_path.dfy`, module `DevicePaths`: the classes `DevicePath` and `DevicePathList`, which hold mutable payloads, and their methods.
- `boot.dfy`, module `Boot`: the BootOrder/BootNext encodings, `Boot####` naming, and the variable store as a class.

The methods of the classes are proved against functions on values:
- `FromBytes` against `Decode`.
- `ToBytes` against `Encode`.
- The list getters against `FirstFilePath` and `FirstHardDrive`.
- Each setter by the new node values, together with a set-then-get lemma.

The properties of those functions are proved separately:
- both round trips of the codec;
- both round trips of the tag table;
- the Hard Drive and File Path payload round trips;
- both round trips of the BootOrder encoding;
- injectivity of the `Boot####` naming.

## Model

| member | source | states |
|---|---|---|
| DevicePathTypes.PathTypeOf | src/firmware_variables/device_path.py:13-19 | a type code is accepted exactly when some `DevicePathType` has that code (0x01–0x05 and 0x7F), and the variant found carries it |
| DevicePathTypes.KindIn | src/firmware_variables/device_path.py:92-99 | the subtype table chosen by the type yields a kind with that type and that subtype code |
| DevicePathTypes.MessagingSubtypeOf | src/firmware_variables/device_path.py:38-68 | a messaging subtype found for a code carries that code (0x07 and 0x08 have none) |
| DevicePathTypes.HardwareSubtypeOf | src/firmware_variables/device_path.py:22-28 | a hardware subtype found for a code carries that code |
| DevicePathTypes.AcpiSubtypeOf | src/firmware_variables/device_path.py:31-35 | an ACPI subtype found for a code carries that code |
| DevicePathTypes.MediaSubtypeOf | src/firmware_variables/device_path.py:71-80 | a media subtype found for a code carries that code |
| DevicePathTypes.BiosBootSpecificationSubtypeOf | src/firmware_variables/device_path.py:83-84 | a BIOS boot specification subtype found for a code carries that code (the only one is 0x01) |
| DevicePathTypes.EndOfHardwareSubtypeOf | src/firmware_variables/device_path.py:87-89 | an end-of-path subtype found for a code carries that code (0x01 or 0xFF) |
| DevicePathTypes.KindOf | src/firmware_variables/device_path.py:118-120 | `UnknownType` exactly when the type code is not in the table; a kind that is found carries both codes |
| DevicePathTypes.KindOfCodes | src/firmware_variables/device_path.py:13-99 | every kind's own pair of codes decodes back to that kind (tags round trip from kind to codes) |
| DevicePathTypes.KindOfAccepts | src/firmware_variables/device_path.py:118-120 | a pair of codes is accepted if and only if some kind carries exactly those codes |
| DevicePathTypes.MessagingSubtype7Rejected | src/firmware_variables/device_path.py:38-45 | messaging subtype 0x07 is rejected as an unknown subtype, media subtype 0x07 is accepted, and type 0x06 is an unknown type |
| DevicePathNodes.IsHardDrive | src/firmware_variables/device_path.py:126-130 | definition (no contract): the node's kind is Media/Hard Drive; the gate of `HardDriveOf` and of the setters |
| DevicePathNodes.IsFilePath | src/firmware_variables/device_path.py:176-180 | definition (no contract): the node's kind is Media/File Path; the gate of `FilePathOf` and of the setters |
| DevicePathNodes.GuidFor | src/firmware_variables/device_path.py:147-149 | definition (no contract): a GUID only for format 2 and signature type 2 with a 16-byte signature; what it means for a node read is stated by `HardDriveOf` |
| DevicePathNodes.HardDriveOf | src/firmware_variables/device_path.py:132-158 | a result exactly for Media/Hard Drive nodes of at least 38 bytes; the fields are in range; the signature is bytes 20..36; the GUID is present exactly when format and signature type are both 2, and it is the signature |
| DevicePathNodes.HardDrivePayload | src/firmware_variables/device_path.py:166-172 | the payload layout fails exactly when a field is out of its u32/u64/u64/u8/u8 range, and is otherwise 22 bytes plus the signature |
| DevicePathNodes.HardDriveRoundTrip | src/firmware_variables/device_path.py:132-172 | reading back a written Hard Drive node (16-byte signature) gives the written fields, with the GUID re-derived from the signature |
| DevicePathNodes.HardDrivePayloadOfRead | src/firmware_variables/device_path.py:139-172 | re-encoding the fields that were read reproduces the node's first 38 bytes |
| DevicePathNodes.FilePathOf | src/firmware_variables/device_path.py:182-188 | a result exactly for Media/File Path nodes; when the payload is the encoding of a text, the result is that text |
| DevicePathNodes.FilePathRoundTrip | src/firmware_variables/device_path.py:182-197 | reading back a written file path gives the written text |
| DevicePathNodes.FirstFilePath | src/firmware_variables/device_path.py:245-249 | nothing exactly when no node is a File Path node; otherwise the text of a File Path node with no File Path node before it |
| DevicePathNodes.FirstHardDrive | src/firmware_variables/device_path.py:268-272 | nothing exactly when no node reads as a Hard Drive node; otherwise the fields read from such a node with none before it |
| DevicePathNodes.FirstMatchSame | src/firmware_variables/device_path.py:259-262 | two lists that agree on the predicate at every position select the same first match |
| DevicePathNodes.SetThenGetFilePath | src/firmware_variables/device_path.py:238-262 | after the first File Path node is rewritten, the list's file path is the new text |
| DevicePathNodes.SetThenGetHardDrive | src/firmware_variables/device_path.py:264-281 | after the first Hard Drive node is rewritten with a 16-byte signature, the list's hard-drive node is the written one |
| DevicePathCodec.EncodeNode | src/firmware_variables/device_path.py:228-233 | a node encodes to its type code, its subtype code, a little-endian length equal to the whole encoding, then its payload |
| DevicePathCodec.EncodeNodes | src/firmware_variables/device_path.py:225-234 | the encoding of a list is as long as all its nodes' headers and payloads together |
| DevicePathCodec.Encode | src/firmware_variables/device_path.py:228-232 | encoding fails exactly when some payload is too long for the 16-bit length field |
| DevicePathCodec.EncodeNodesAppend | src/firmware_variables/device_path.py:226-233 | encoding one more node appends that node's encoding |
| DevicePathCodec.Halts | src/firmware_variables/device_path.py:212-221 | definition (no contract): the parsing loop, started at an offset, reaches the end or raises; it does not when it meets a header with valid tags and length 0 (`HaltsExactly`) |
| DevicePathCodec.DecodeFrom | src/firmware_variables/device_path.py:212-221 | the parsing loop from an offset: a partial header or unknown tags raise, the payload is the clamped slice, and the next header is read at the offset plus the length; a result has at most one node per remaining byte |
| DevicePathCodec.Decode | src/firmware_variables/device_path.py:209-223 | `from_bytes` as a function: the empty buffer gives no nodes, and a result has at most one node per byte; its round trips are `RoundTripBytes` and `RoundTripNodes` |
| DevicePathCodec.ReadEncodedNode | src/firmware_variables/device_path.py:214-218 | a header written by the encoder reads back as the node's kind, its length, and exactly its payload |
| DevicePathCodec.DecodeEncodeAt | src/firmware_variables/device_path.py:209-234 | the encoding of a node list, after any prefix, is well formed there and decodes back to the list |
| DevicePathCodec.EncodeNodeOfHeader | src/firmware_variables/device_path.py:214-233 | in a well-formed buffer, re-encoding a decoded node gives back its bytes |
| DevicePathCodec.DecodeFromStep | src/firmware_variables/device_path.py:213-221 | a header with valid tags and a non-zero length yields its node, payload sliced as Python slices, followed by the decoding from the end of its length |
| DevicePathCodec.DecodeEncodedHead | src/firmware_variables/device_path.py:213-233 | a node the encoder wrote, in front of decodable bytes, is decoded first, and the rest follows it |
| DevicePathCodec.DecodeWellFormedHead | src/firmware_variables/device_path.py:213-221 | a header with valid tags whose length covers itself and stays in the buffer decodes to exactly the payload it covers |
| DevicePathCodec.EncodeWellFormedHead | src/firmware_variables/device_path.py:214-233 | the node of such a header re-encodes to the bytes the header covers, in front of the rest |
| DevicePathCodec.DecodeWellFormedAt | src/firmware_variables/device_path.py:209-234 | a well-formed buffer decodes, and the result re-encodes to the same bytes |
| DevicePathCodec.DecodeOneNodePerHeader | src/firmware_variables/device_path.py:213-221 | in a well-formed buffer, each header yields one node, and decoding continues where that header's length ends |
| DevicePathCodec.RoundTripBytes | src/firmware_variables/device_path.py:209-234 | a well-formed buffer decodes, and re-encodes to the same bytes |
| DevicePathCodec.RoundTripNodes | src/firmware_variables/device_path.py:209-234 | an encodable node list encodes to a well-formed buffer that decodes back to the list |
| DevicePathCodec.ZeroLengthNeverHalts | src/firmware_variables/device_path.py:213-221 | the parsing loop does not advance on any header with valid tags whose length is 0, so it never ends from there |
| DevicePathCodec.NonHaltingReachesZeroLength | src/firmware_variables/device_path.py:213-221 | a loop that does not end reads, at some offset it visits, a header with valid tags and length 0 |
| DevicePathCodec.ZeroLengthReachedNeverHalts | src/firmware_variables/device_path.py:213-221 | a loop that visits a header with valid tags and length 0 does not end |
| DevicePathCodec.HaltsExactly | src/firmware_variables/device_path.py:212-221 | the loop ends if and only if none of the headers it visits has valid tags and length 0 |
| DevicePathCodec.UnvisitedZeroLengthExample | src/firmware_variables/device_path.py:213-221 | a zero-length header the loop never visits does not stop it from ending: `04 04 08 00 04 01 00 00` ends after one header |
| DevicePathCodec.ZeroLengthExample | src/firmware_variables/device_path.py:213-221 | one 5-byte buffer on which the loop never ends: its second header, read inside the first, has length 0 |
| DevicePathCodec.ShortLengthIsAccepted | src/firmware_variables/device_path.py:213-221 | a header length of 1 is not rejected: it yields an empty node, and the next header is read at an overlapping offset; the result re-encodes to 8 bytes, not the 5 read |
| DevicePaths.DevicePath.Create | src/firmware_variables/device_path.py:118-121 | construction fails with the tag error the table gives; otherwise it returns a fresh node with that kind and payload |
| DevicePaths.DevicePathList.constructor | src/firmware_variables/device_path.py:205-206 | a new list holds no nodes |
| DevicePaths.DevicePath.SetHardDriveNode | src/firmware_variables/device_path.py:160-174 | other kinds: `false`, payload unchanged; an out-of-range field: an error, payload unchanged; otherwise `true`, the payload is the field layout, and it reads back as the fields written |
| DevicePaths.DevicePath.SetFilePath | src/firmware_variables/device_path.py:190-197 | `true` exactly for File Path nodes, whose payload becomes the encoded text and reads back as it; other nodes are left unchanged |
| DevicePaths.DevicePathList.Append | src/firmware_variables/device_path.py:219 | appends one new node object; the existing node objects are unchanged |
| DevicePaths.DecodeStep | src/firmware_variables/device_path.py:213-221 | one turn of the parsing loop moves the header's node from the undecoded rest to the decoded prefix, and the loop can still finish from the new offset |
| DevicePaths.ReadNode | src/firmware_variables/device_path.py:214-221 | one turn of the loop: a partial header or unknown tags give the same error as `Decode`; otherwise a fresh node equal to the decoded one, and an offset further on from which the loop can finish |
| DevicePaths.DevicePathList.FromBytes | src/firmware_variables/device_path.py:208-223 | the loop's result, or its error, is that of `Decode`; the list and its nodes are fresh and distinct |
| DevicePaths.DevicePathList.ToBytes | src/firmware_variables/device_path.py:225-234 | the loop's output is `Encode` of the node values |
| DevicePaths.DevicePathList.GetFilePath | src/firmware_variables/device_path.py:238-249 | returns the text of the first File Path node, and nothing when there is none |
| DevicePaths.DevicePathList.GetHardDriveNode | src/firmware_variables/device_path.py:264-272 | returns the first node that reads as a Hard Drive node, skipping short ones |
| DevicePaths.DevicePathList.SetFilePath | src/firmware_variables/device_path.py:251-262 | only the first File Path node changes; `false` and no change when there is none; afterwards the list's file path is the text |
| DevicePaths.DevicePathList.SetHardDriveNode | src/firmware_variables/device_path.py:274-281 | only the first Hard Drive node changes, even a short one; no change on `false` or on an error; afterwards the list's hard-drive node is the written one |
| Wrappers.FirstMatch | src/firmware_variables/device_path.py:245-272 | the index found satisfies the predicate and no earlier element does; nothing exactly when no element does, as the `for` loops with early return find it |
| Bytes.FromLeToLe | src/firmware_variables/device_path.py:141-143 | decoding a little-endian encoding gives back the number (`int.from_bytes` after `to_bytes`) |
| Bytes.ToLeFromLe | src/firmware_variables/device_path.py:166-169 | re-encoding a decoded little-endian field gives back its bytes |
| Bytes.I16ToLe | src/firmware_variables/boot.py:86 | `struct.pack("<h", id)` of an id in the i16 range gives exactly two bytes (two's complement; `I16RoundTrip` relates them to the id) |
| Bytes.I16FromLe | src/firmware_variables/boot.py:75 | `struct.unpack("<h", raw)` of two bytes gives an id in the i16 range |
| Bytes.I16RoundTrip | src/firmware_variables/boot.py:24 | unpacking `<h` after packing gives back any signed 16-bit id |
| Bytes.I16RoundTripBytes | src/firmware_variables/boot.py:75 | packing `<h` after unpacking gives back any 2 bytes |
| Bytes.Slice | src/firmware_variables/device_path.py:218 | Python slicing: the subsequence when the bounds are in order and in range, empty when they cross, clamped at the end |
| Utf16.RoundTrip | src/firmware_variables/device_path.py:188-196 | decoding the stored text after encoding it with its terminator gives back the text |
| Utf16.Encode | src/firmware_variables/device_path.py:196 | the encoding is two bytes per code unit plus a two-byte NUL terminator |
| Utf16.Decode | src/firmware_variables/device_path.py:188 | the assumed `utf16_string_from_bytes`: at most one code unit per two bytes; `RoundTrip` states that it inverts `Encode` |
| Utf16.DecodeEncodeUnits | src/firmware_variables/device_path.py:188-196 | the code units read back from their little-endian pairs are the ones written |
| Boot.EncodeBootOrder | src/firmware_variables/boot.py:24 | packing fails exactly when some id is out of the i16 range; otherwise it is two bytes per id |
| Boot.DecodeBootOrder | src/firmware_variables/boot.py:15 | unpacking fails exactly on an odd length; otherwise there is one id per two bytes |
| Boot.PackI16s | src/firmware_variables/boot.py:24 | id `i` of the boot order is at bytes `2i` and `2i+1`, packed as `<h` |
| Boot.UnpackI16s | src/firmware_variables/boot.py:15 | one id in the i16 range per two bytes |
| Boot.BootOrderRoundTrip | src/firmware_variables/boot.py:15-24 | reading back a written boot order gives the same ids in the same order |
| Boot.BootOrderRoundTripBytes | src/firmware_variables/boot.py:15-24 | every even-length BootOrder payload is the packing of the ids it unpacks to |
| Boot.BootOrderExample | src/firmware_variables/boot.py:15-24 | ids 3, 0, 7 pack to `03 00 00 00 07 00`, and unpack back |
| Boot.HexDigit | src/firmware_variables/boot.py:35 | each digit value below 16 is written as an upper-case hex digit that reads back as that value |
| Boot.HexDigitsValue | src/firmware_variables/boot.py:35 | the hex rendering of a number is upper-case hex digits that spell it |
| Boot.HexDigitsLength | src/firmware_variables/boot.py:35 | the rendering has at most 4 digits below 0x10000 and at most 3 below 0x1000, so the padding to width 4 adds no digit of value |
| Boot.ZeroPadValue | src/firmware_variables/boot.py:35 | zero padding keeps a hex string's value |
| Boot.Hex04 | src/firmware_variables/boot.py:35 | `{:04X}` of an id: for a non-negative id, upper-case hex digits that spell it, at least 4 of them and a leading zero only as padding; for a negative id, `-` and the magnitude padded to 3 |
| Boot.BootEntryName | src/firmware_variables/boot.py:35 | the name is in the `Boot{:04X}` format for the id (`IsEntryKey`) |
| Boot.PaddedHexOf | src/firmware_variables/boot.py:35 | zero-padding the minimal rendering to a width gives the padded rendering of the number |
| Boot.HexValueInjective | src/firmware_variables/boot.py:35 | hex strings of one length that spell one number are equal |
| Boot.PaddedHexUnique | src/firmware_variables/boot.py:35 | a number has exactly one padded rendering for a given width |
| Boot.EntryKeyUnique | src/firmware_variables/boot.py:35-55 | every string in the `Boot{:04X}` format for an id is `BootEntryName` of that id, so the name is determined by the format |
| Boot.BootEntryNameFormat | src/firmware_variables/boot.py:35 | for ids 0..0xFFFF the name is `Boot` followed by exactly 4 upper-case hex digits that spell the id |
| Boot.BootEntryNameInjective | src/firmware_variables/boot.py:35-55 | distinct ids, of any size or sign, name distinct variables |
| Boot.BootEntryNameIsNotReserved | src/firmware_variables/boot.py:55 | no entry name is `BootOrder` or `BootNext` |
| Boot.FirmwareVariables.GetBootOrder | src/firmware_variables/boot.py:8-15 | unsupported firmware fails first, then a missing variable; a result is the ids whose packing is exactly the stored payload; it succeeds exactly when the payload has even length |
| Boot.FirmwareVariables.GetBootEntry | src/firmware_variables/boot.py:28-35 | unsupported firmware fails; otherwise, for the variable whose name is the id in the `Boot{:04X}` format, its stored payload, or not-found when it is absent |
| Boot.FirmwareVariables.GetBootNext | src/firmware_variables/boot.py:67-77 | fails only for unsupported firmware; an id is returned exactly when `BootNext` holds 2 bytes, and they are that id's packing |
| Boot.FirmwareVariables.SetBootOrder | src/firmware_variables/boot.py:18-25 | writes `BootOrder` only, and only for supported firmware and in-range ids; afterwards the boot order reads back as the ids |
| Boot.FirmwareVariables.SetBootEntry | src/firmware_variables/boot.py:48-55 | writes `Boot####` only; afterwards the entry reads back as the bytes; the boot order and the override read as before |
| Boot.FirmwareVariables.SetBootNext | src/firmware_variables/boot.py:80-87 | writes two bytes to `BootNext` only, and only for supported firmware and an in-range id; afterwards the override reads back as the id |

## Left out

- `get_parsed_boot_entry` and `set_parsed_boot_entry` (boot.py:38-45, 58-64) are not modelled. They only compose the raw entry accessors with `LoadOption`, and `load_option.py` is not part of this model.
- `utils.py` is not part of this model. Its behaviour is assumed as follows:
  - `string_to_utf16_bytes` appends to the UTF-16LE code units one NUL unit.
  - `utf16_string_from_bytes` pairs the bytes into code units, ignores a trailing odd byte, and strips one trailing NUL unit.
  - `iter_unpack("<h", raw)` rejects a length that is not a multiple of 2.
  - Text is modelled as a sequence of UTF-16 code units, so surrogates and unpaired code points are not modelled.
- `verify_uefi_firmware` is modelled as the constant flag `uefiSupported`, consulted before anything else.
- `get_variable` and `set_variable` are modelled as a map from variable name to payload. The following are not modelled: variable attributes, the GUID namespace, process privileges, access-denied and other platform errors, and NVRAM size limits.
- `DevicePathNodes.HardDriveOf`: the partition GUID is kept as its 16 little-endian bytes. `uuid`'s string formatting of those bytes is not modelled.
- `DevicePath.__repr__` and `DevicePathList.__repr__` are not modelled, because they only render text.
- `DevicePaths.DevicePathList.FromBytes` requires `Halts(raw, 0)`, which excludes only buffers on which the parsing loop never ends. On such a buffer the loop visits a header with valid tags and a length of 0, and on any other it ends (`HaltsExactly`). Every other input is modelled, including header lengths of 1 to 3 and lengths past the end of the buffer, which the code slices as Python does instead of rejecting. A strict parser would fail on these with a malformed-header or truncated-path error, but the code raises neither. The model follows the code: its only errors are a partial header and an unknown tag (`ShortLengthIsAccepted`).
- `DevicePaths.DevicePath.SetHardDriveNode`: read-back is proved only for 16-byte signatures. With any other signature length the written layout shifts the format and signature-type bytes, and the reader does not recover the fields. The bytes written are still stated exactly.
- `DevicePaths.DevicePathList.SetHardDriveNode`: the same 16-byte restriction applies to its read-back clause.
- `DevicePaths.DevicePathList` keeps its node objects distinct (`Valid`). Two list slots that alias one `DevicePath` object, which Python permits, are not modelled.
- Python's dynamic typing (a non-integer id, a non-bytes payload) is left out: the model's parameters are typed.
- `DevicePaths.DevicePath.Create` takes the payload as a required argument; the constructor's default of an empty payload is not modelled, since `from_bytes` always passes one.
