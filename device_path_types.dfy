/**
 * The two-level tag of a UEFI device-path node (section 10.2 of the UEFI Specification):
 * an outer device-path type, and a subtype drawn from the closed enumeration that belongs to that type.
 */
module DevicePathTypes {
  import opened Wrappers
  import opened Bytes

  datatype DevicePathType =
    | HardwareDevicePath
    | AcpiDevicePath
    | MessagingDevicePath
    | MediaDevicePath
    | BiosBootSpecificationDevicePath
    | EndOfHardwareDevicePath
  {
    function Code(): byte
    {
      match this
      case HardwareDevicePath => 0x01
      case AcpiDevicePath => 0x02
      case MessagingDevicePath => 0x03
      case MediaDevicePath => 0x04
      case BiosBootSpecificationDevicePath => 0x05
      case EndOfHardwareDevicePath => 0x7F
    }
  }

  datatype HardwareSubtype = Pci | PcCard | MemoryMapped | Vendor | Controller | Bmc
  {
    function Code(): byte
    {
      match this
      case Pci => 0x01
      case PcCard => 0x02
      case MemoryMapped => 0x03
      case Vendor => 0x04
      case Controller => 0x05
      case Bmc => 0x06
    }
  }

  datatype AcpiSubtype = Acpi | ExpandedAcpi | Adr | NvdimmDevice
  {
    function Code(): byte
    {
      match this
      case Acpi => 0x01
      case ExpandedAcpi => 0x02
      case Adr => 0x03
      case NvdimmDevice => 0x04
    }
  }

  datatype MessagingSubtype =
    | Atapi | Scsi | FibreChannel | Ieee1394 | Usb | I20RandomBlockStorageClass
    | Infiniband | Vendor | MacAddressForNetworkInterface | Ipv4 | Ipv6 | Uart | UsbClass | UsbWwid
    | DeviceLogicalUnit | Sata | Iscsi | Vlan | FibreChannelEx | SasEx | NvmExpressNamespace
    | UniversalResourceIdentifier | Ufs | Sd | Bluetooth | Wifi | Emmc | BluetoothLe | Dns
    | NvdimmOrRestService
  {
    function Code(): byte
    {
      match this
      case Atapi => 0x01
      case Scsi => 0x02
      case FibreChannel => 0x03
      case Ieee1394 => 0x04
      case Usb => 0x05
      case I20RandomBlockStorageClass => 0x06
      case Infiniband => 0x09
      case Vendor => 0x0A
      case MacAddressForNetworkInterface => 0x0B
      case Ipv4 => 0x0C
      case Ipv6 => 0x0D
      case Uart => 0x0E
      case UsbClass => 0x0F
      case UsbWwid => 0x10
      case DeviceLogicalUnit => 0x11
      case Sata => 0x12
      case Iscsi => 0x13
      case Vlan => 0x14
      case FibreChannelEx => 0x15
      case SasEx => 0x16
      case NvmExpressNamespace => 0x17
      case UniversalResourceIdentifier => 0x18
      case Ufs => 0x19
      case Sd => 0x1A
      case Bluetooth => 0x1B
      case Wifi => 0x1C
      case Emmc => 0x1D
      case BluetoothLe => 0x1E
      case Dns => 0x1F
      case NvdimmOrRestService => 0x20
    }
  }

  datatype MediaSubtype =
    | HardDrive | CdRom | Vendor | FilePath | MediaProtocol | PiwgFirmwareFile | PiwgFirmwareVolume
    | RelativeOffsetRange | RamDiskDevicePath
  {
    function Code(): byte
    {
      match this
      case HardDrive => 0x01
      case CdRom => 0x02
      case Vendor => 0x03
      case FilePath => 0x04
      case MediaProtocol => 0x05
      case PiwgFirmwareFile => 0x06
      case PiwgFirmwareVolume => 0x07
      case RelativeOffsetRange => 0x08
      case RamDiskDevicePath => 0x09
    }
  }

  datatype BiosBootSpecificationSubtype = Version101
  {
    function Code(): byte
    {
      0x01
    }
  }

  datatype EndOfHardwareSubtype = EndThisInstanceOfDevicePath | EndEntireDevicePath
  {
    function Code(): byte
    {
      match this
      case EndThisInstanceOfDevicePath => 0x01
      case EndEntireDevicePath => 0xFF
    }
  }

  /** A type together with a subtype of that type's own enumeration: the pair a node carries. */
  datatype Kind =
    | Hardware(hardware: HardwareSubtype)
    | Acpi(acpi: AcpiSubtype)
    | Messaging(messaging: MessagingSubtype)
    | Media(media: MediaSubtype)
    | BiosBootSpecification(bios: BiosBootSpecificationSubtype)
    | EndOfHardware(end: EndOfHardwareSubtype)
  {
    function PathType(): DevicePathType
    {
      match this
      case Hardware(_) => HardwareDevicePath
      case Acpi(_) => AcpiDevicePath
      case Messaging(_) => MessagingDevicePath
      case Media(_) => MediaDevicePath
      case BiosBootSpecification(_) => BiosBootSpecificationDevicePath
      case EndOfHardware(_) => EndOfHardwareDevicePath
    }

    function TypeCode(): byte
    {
      PathType().Code()
    }

    function SubtypeCode(): byte
    {
      match this
      case Hardware(s) => s.Code()
      case Acpi(s) => s.Code()
      case Messaging(s) => s.Code()
      case Media(s) => s.Code()
      case BiosBootSpecification(s) => s.Code()
      case EndOfHardware(s) => s.Code()
    }
  }

  datatype TagError = UnknownType | UnknownSubtype

  /** `DevicePathType(code)`: the type with this code, if there is one. */
  function PathTypeOf(code: int): (r: Option<DevicePathType>)
    ensures r.Some? <==> exists t: DevicePathType :: t.Code() == code
    ensures r.Some? ==> r.value.Code() == code
  {
    var r := match code
      case 0x01 => Some(HardwareDevicePath)
      case 0x02 => Some(AcpiDevicePath)
      case 0x03 => Some(MessagingDevicePath)
      case 0x04 => Some(MediaDevicePath)
      case 0x05 => Some(BiosBootSpecificationDevicePath)
      case 0x7F => Some(EndOfHardwareDevicePath)
      case _ => None;
    assert r.None? ==> forall t: DevicePathType :: t.Code() != code;
    assert r.Some? ==> r.value.Code() == code;
    r
  }

  function HardwareSubtypeOf(code: int): (r: Option<HardwareSubtype>)
    ensures r.Some? ==> r.value.Code() == code
  {
    match code
    case 0x01 => Some(Pci)
    case 0x02 => Some(PcCard)
    case 0x03 => Some(MemoryMapped)
    case 0x04 => Some(HardwareSubtype.Vendor)
    case 0x05 => Some(Controller)
    case 0x06 => Some(Bmc)
    case _ => None
  }

  function AcpiSubtypeOf(code: int): (r: Option<AcpiSubtype>)
    ensures r.Some? ==> r.value.Code() == code
  {
    match code
    case 0x01 => Some(AcpiSubtype.Acpi)
    case 0x02 => Some(ExpandedAcpi)
    case 0x03 => Some(Adr)
    case 0x04 => Some(NvdimmDevice)
    case _ => None
  }

  function MessagingSubtypeOf(code: int): (r: Option<MessagingSubtype>)
    ensures r.Some? ==> r.value.Code() == code
  {
    match code
    case 0x01 => Some(Atapi)
    case 0x02 => Some(Scsi)
    case 0x03 => Some(FibreChannel)
    case 0x04 => Some(Ieee1394)
    case 0x05 => Some(Usb)
    case 0x06 => Some(I20RandomBlockStorageClass)
    case 0x09 => Some(Infiniband)
    case 0x0A => Some(MessagingSubtype.Vendor)
    case 0x0B => Some(MacAddressForNetworkInterface)
    case 0x0C => Some(Ipv4)
    case 0x0D => Some(Ipv6)
    case 0x0E => Some(Uart)
    case 0x0F => Some(UsbClass)
    case 0x10 => Some(UsbWwid)
    case 0x11 => Some(DeviceLogicalUnit)
    case 0x12 => Some(Sata)
    case 0x13 => Some(Iscsi)
    case 0x14 => Some(Vlan)
    case 0x15 => Some(FibreChannelEx)
    case 0x16 => Some(SasEx)
    case 0x17 => Some(NvmExpressNamespace)
    case 0x18 => Some(UniversalResourceIdentifier)
    case 0x19 => Some(Ufs)
    case 0x1A => Some(Sd)
    case 0x1B => Some(Bluetooth)
    case 0x1C => Some(Wifi)
    case 0x1D => Some(Emmc)
    case 0x1E => Some(BluetoothLe)
    case 0x1F => Some(Dns)
    case 0x20 => Some(NvdimmOrRestService)
    case _ => None
  }

  function MediaSubtypeOf(code: int): (r: Option<MediaSubtype>)
    ensures r.Some? ==> r.value.Code() == code
  {
    match code
    case 0x01 => Some(HardDrive)
    case 0x02 => Some(CdRom)
    case 0x03 => Some(MediaSubtype.Vendor)
    case 0x04 => Some(FilePath)
    case 0x05 => Some(MediaProtocol)
    case 0x06 => Some(PiwgFirmwareFile)
    case 0x07 => Some(PiwgFirmwareVolume)
    case 0x08 => Some(RelativeOffsetRange)
    case 0x09 => Some(RamDiskDevicePath)
    case _ => None
  }

  function BiosBootSpecificationSubtypeOf(code: int): (r: Option<BiosBootSpecificationSubtype>)
    ensures r.Some? ==> r.value.Code() == code
  {
    if code == 0x01 then Some(Version101) else None
  }

  function EndOfHardwareSubtypeOf(code: int): (r: Option<EndOfHardwareSubtype>)
    ensures r.Some? ==> r.value.Code() == code
  {
    match code
    case 0x01 => Some(EndThisInstanceOfDevicePath)
    case 0xFF => Some(EndEntireDevicePath)
    case _ => None
  }

  /** `SUBTYPES_MAPPING[pathType](code)`: the subtype is looked up in the type's own enumeration only. */
  function KindIn(pathType: DevicePathType, code: int): (r: Option<Kind>)
    ensures r.Some? ==> r.value.PathType() == pathType && r.value.SubtypeCode() == code
  {
    match pathType
    case HardwareDevicePath =>
      (match HardwareSubtypeOf(code) case Some(s) => Some(Hardware(s)) case None => None)
    case AcpiDevicePath =>
      (match AcpiSubtypeOf(code) case Some(s) => Some(Kind.Acpi(s)) case None => None)
    case MessagingDevicePath =>
      (match MessagingSubtypeOf(code) case Some(s) => Some(Messaging(s)) case None => None)
    case MediaDevicePath =>
      (match MediaSubtypeOf(code) case Some(s) => Some(Media(s)) case None => None)
    case BiosBootSpecificationDevicePath =>
      (match BiosBootSpecificationSubtypeOf(code) case Some(s) => Some(BiosBootSpecification(s)) case None => None)
    case EndOfHardwareDevicePath =>
      (match EndOfHardwareSubtypeOf(code) case Some(s) => Some(EndOfHardware(s)) case None => None)
  }

  /**
   * The tag check of the node constructor: the type code must name a `DevicePathType`
   * (else `UnknownType`), then the subtype code must name a member of that type's enumeration
   * (else `UnknownSubtype`).
   */
  function KindOf(pathType: int, subtype: int): (r: Result<Kind, TagError>)
    ensures r == Err(UnknownType) <==> !exists t: DevicePathType :: t.Code() == pathType
    ensures r.Ok? ==> r.value.TypeCode() == pathType && r.value.SubtypeCode() == subtype
  {
    match PathTypeOf(pathType)
    case None => Err(UnknownType)
    case Some(t) =>
      match KindIn(t, subtype)
      case None => Err(UnknownSubtype)
      case Some(k) => Ok(k)
  }

  /** Every pair of codes that a kind carries is accepted, and gives back that kind. */
  lemma KindOfCodes(k: Kind)
    ensures KindOf(k.TypeCode(), k.SubtypeCode()) == Ok(k)
  {
    match k
    case Hardware(s) => {}
    case Acpi(s) => {}
    case Messaging(s) => {}
    case Media(s) => {}
    case BiosBootSpecification(s) => assert s == Version101;
    case EndOfHardware(s) => {}
  }

  /** A pair of codes is accepted exactly when some kind carries it. */
  lemma KindOfAccepts(pathType: int, subtype: int)
    ensures KindOf(pathType, subtype).Ok? <==>
            exists k: Kind :: k.TypeCode() == pathType && k.SubtypeCode() == subtype
  {
    if k: Kind :| k.TypeCode() == pathType && k.SubtypeCode() == subtype {
      KindOfCodes(k);
    }
  }

  /** Subtype codes are not shared across types: Messaging has no subtype 0x07, whatever other types have. */
  lemma MessagingSubtype7Rejected()
    ensures KindOf(0x03, 0x07) == Err(UnknownSubtype)
    ensures KindOf(0x04, 0x07).Ok?
    ensures KindOf(0x06, 0x01) == Err(UnknownType)
  {
  }
}
