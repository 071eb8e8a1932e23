/** Fixed-width counter records of sFlow version 5: ten variants, each a
    flat, ordered list of big-endian 4-byte and 8-byte fields. A variant
    supplies its layout, its fields in declaration order, its type code and
    its name; the layout codec does the rest. */
module CounterRecords {
  import opened Wire
  import opened Layouts

  /** The ten counter record variants, one per record struct. */
  datatype CounterKind =
    | GenericInterface
    | Ethernet
    | TokenRing
    | Vg
    | Vlan
    | Processor
    | HostCPU
    | HostMemory
    | HostDisk
    | HostNet

  /** One datatype per record struct, its fields in declaration order.
      uint32 and uint64 fields are bv32 and bv64; the float32 fields (the
      three load averages of HostCPUCounters and MaxUsedPercent of
      HostDiskCounters) are their IEEE 754 bit patterns. */
  datatype GenericInterfaceCounters = GenericInterfaceCounters(Index: bv32, Type: bv32,
      Speed: bv64, Direction: bv32, Status: bv32, InOctets: bv64, InUnicastPackets: bv32,
      InMulticastPackets: bv32, InBroadcastPackets: bv32, InDiscards: bv32, InErrors: bv32,
      InUnknownProtocols: bv32, OutOctets: bv64, OutUnicastPackets: bv32,
      OutMulticastPackets: bv32, OutBroadcastPackets: bv32, OutDiscards: bv32, OutErrors: bv32,
      PromiscuousMode: bv32)

  datatype EthernetCounters = EthernetCounters(AlignmentErrors: bv32, FCSErrors: bv32,
      SingleCollisionFrames: bv32, MultipleCollisionFrames: bv32, SQETestErrors: bv32,
      DeferredTransmissions: bv32, LateCollisions: bv32, ExcessiveCollisions: bv32,
      InternalMACTransmitErrors: bv32, CarrierSenseErrors: bv32, FrameTooLongs: bv32,
      InternalMACReceiveErrors: bv32, SymbolErrors: bv32)

  datatype TokenRingCounters = TokenRingCounters(LineErrors: bv32, BurstErrors: bv32,
      ACErrors: bv32, AbortTransErrors: bv32, InternalErrors: bv32, LostFrameErrors: bv32,
      ReceiveCongestions: bv32, FrameCopiedErrors: bv32, TokenErrors: bv32, SoftErrors: bv32,
      HardErrors: bv32, SignalLoss: bv32, TransmitBeacons: bv32, Recoverys: bv32, LobeWires: bv32,
      Removes: bv32, Singles: bv32, FreqErrors: bv32)

  datatype VgCounters = VgCounters(InHighPriorityFrames: bv32, InHighPriorityOctets: bv64,
      InNormPriorityFrames: bv32, InNormPriorityOctets: bv64, InIPMErrors: bv32,
      InOversizeFrameErrors: bv32, InDataErrors: bv32, InNullAddressedFrames: bv32,
      OutHighPriorityFrames: bv32, OutHighPriorityOctets: bv64, TransitionIntoTrainings: bv32,
      HCInHighPriorityOctets: bv64, HCInNormPriorityOctets: bv64, HCOutHighPriorityOctets: bv64)

  datatype VlanCounters = VlanCounters(ID: bv32, Octets: bv64, UnicastPackets: bv32,
      MulticastPackets: bv32, BroadcastPackets: bv32, Discards: bv32)

  datatype ProcessorCounters = ProcessorCounters(CPU5s: bv32, CPU1m: bv32, CPU5m: bv32,
      TotalMemory: bv64, FreeMemory: bv64)

  datatype HostCPUCounters = HostCPUCounters(Load1m: bv32, Load5m: bv32, Load15m: bv32,
      ProcessesRunning: bv32, ProcessesTotal: bv32, NumCPU: bv32, SpeedCPU: bv32, Uptime: bv32,
      CPUUser: bv32, CPUNice: bv32, CPUSys: bv32, CPUIdle: bv32, CPUWio: bv32, CPUIntr: bv32,
      CPUSoftIntr: bv32, Interrupts: bv32, ContextSwitches: bv32, CPUSteal: bv32, CPUGuest: bv32,
      CPUGuestNice: bv32)

  datatype HostMemoryCounters = HostMemoryCounters(Total: bv64, Free: bv64, Shared: bv64,
      Buffers: bv64, Cached: bv64, SwapTotal: bv64, SwapFree: bv64, PageIn: bv32, PageOut: bv32,
      SwapIn: bv32, SwapOut: bv32)

  datatype HostDiskCounters = HostDiskCounters(Total: bv64, Free: bv64, MaxUsedPercent: bv32,
      Reads: bv32, BytesRead: bv64, ReadTime: bv32, Writes: bv32, BytesWritten: bv64,
      WriteTime: bv32)

  datatype HostNetCounters = HostNetCounters(BytesIn: bv64, PacketsIn: bv32, ErrorsIn: bv32,
      DropsIn: bv32, BytesOut: bv64, PacketsOut: bv32, ErrorsOut: bv32, DropsOut: bv32)

  /** A counter record of any of the ten structs. */
  datatype CounterRecord =
    | GenericInterfaceRecord(genericInterface: GenericInterfaceCounters)
    | EthernetRecord(ethernet: EthernetCounters)
    | TokenRingRecord(tokenRing: TokenRingCounters)
    | VgRecord(vg: VgCounters)
    | VlanRecord(vlan: VlanCounters)
    | ProcessorRecord(processor: ProcessorCounters)
    | HostCPURecord(hostCPU: HostCPUCounters)
    | HostMemoryRecord(hostMemory: HostMemoryCounters)
    | HostDiskRecord(hostDisk: HostDiskCounters)
    | HostNetRecord(hostNet: HostNetCounters)
  {
    function Kind(): CounterKind
    {
      match this
      case GenericInterfaceRecord(_) => GenericInterface
      case EthernetRecord(_) => Ethernet
      case TokenRingRecord(_) => TokenRing
      case VgRecord(_) => Vg
      case VlanRecord(_) => Vlan
      case ProcessorRecord(_) => Processor
      case HostCPURecord(_) => HostCPU
      case HostMemoryRecord(_) => HostMemory
      case HostDiskRecord(_) => HostDisk
      case HostNetRecord(_) => HostNet
    }

    /** The fields in declaration order: the order binary.Write writes them
        in and the order the decoder hands their addresses to readFields. */
    function Fields(): FieldList
    {
      match this
      case GenericInterfaceRecord(r) => GenericInterfaceFields(r)
      case EthernetRecord(r) => EthernetFields(r)
      case TokenRingRecord(r) => TokenRingFields(r)
      case VgRecord(r) => VgFields(r)
      case VlanRecord(r) => VlanFields(r)
      case ProcessorRecord(r) => ProcessorFields(r)
      case HostCPURecord(r) => HostCPUFields(r)
      case HostMemoryRecord(r) => HostMemoryFields(r)
      case HostDiskRecord(r) => HostDiskFields(r)
      case HostNetRecord(r) => HostNetFields(r)
    }

    /** RecordType: the sFlow type code of the record's struct. */
    function RecordType(): nat
    {
      TypeCode(Kind())
    }

    /** Encode: the type code and the size word, each with its own
        binary.Write, then the struct in one binary.Write; stops at the
        first write that fails. */
    method Encode(w: Sink) returns (err: Option<WriteError>)
      modifies w
      ensures Emitted(w.bytes, w.calls, old(w.bytes), old(w.calls), old(w.Accepting()),
                      EncodedRecord(this), 2, err.None?)
    {
      var t, s := Uint32(RecordType()), SizePrefix(Kind());
      var body := EncodeFields(Fields());
      assert Words([t, s]) == Be32(t) + Be32(s) by {
        assert [t, s][..1] == [t];
        assert [t][..0] == [];
      }
      assert EncodedRecord(this) == Words([t, s]) + body;
      err := w.WriteFrame([t, s], body);
    }

    /** RecordName: the name of the record's struct. */
    function RecordName(): string
    {
      Name(Kind())
    }
  }

  /** The field widths of each variant, in declaration order. */
  function LayoutOf(k: CounterKind): Layout
  {
    match k
    case GenericInterface => GenericInterfaceLayout()
    case Ethernet => EthernetLayout()
    case TokenRing => TokenRingLayout()
    case Vg => VgLayout()
    case Vlan => VlanLayout()
    case Processor => ProcessorLayout()
    case HostCPU => HostCPULayout()
    case HostMemory => HostMemoryLayout()
    case HostDisk => HostDiskLayout()
    case HostNet => HostNetLayout()
  }

  /** Every record's fields have its variant's layout. */
  lemma FieldsShape(c: CounterRecord)
    ensures Fits(c.Fields(), LayoutOf(c.Kind()))
  {
    match c
    case GenericInterfaceRecord(r) => GenericInterfaceShape(r);
    case EthernetRecord(r) => EthernetShape(r);
    case TokenRingRecord(r) => TokenRingShape(r);
    case VgRecord(r) => VgShape(r);
    case VlanRecord(r) => VlanShape(r);
    case ProcessorRecord(r) => ProcessorShape(r);
    case HostCPURecord(r) => HostCPUShape(r);
    case HostMemoryRecord(r) => HostMemoryShape(r);
    case HostDiskRecord(r) => HostDiskShape(r);
    case HostNetRecord(r) => HostNetShape(r);
  }

  /** The record of kind `k` whose fields are read from `fs` in order; a
      field that `fs` does not supply is zero. */
  function FromFields(k: CounterKind, fs: FieldList): (c: CounterRecord)
    ensures c.Kind() == k
  {
    match k
    case GenericInterface => GenericInterfaceRecord(GenericInterfaceFromFields(fs))
    case Ethernet => EthernetRecord(EthernetFromFields(fs))
    case TokenRing => TokenRingRecord(TokenRingFromFields(fs))
    case Vg => VgRecord(VgFromFields(fs))
    case Vlan => VlanRecord(VlanFromFields(fs))
    case Processor => ProcessorRecord(ProcessorFromFields(fs))
    case HostCPU => HostCPURecord(HostCPUFromFields(fs))
    case HostMemory => HostMemoryRecord(HostMemoryFromFields(fs))
    case HostDisk => HostDiskRecord(HostDiskFromFields(fs))
    case HostNet => HostNetRecord(HostNetFromFields(fs))
  }

  /** Two records of the same variant with the same fields are the same
      record. */
  lemma FieldsDetermineRecord(c: CounterRecord, d: CounterRecord)
    requires c.Kind() == d.Kind() && c.Fields() == d.Fields()
    ensures c == d
  {
  }

  /** Reading the fields back gives the record. */
  lemma FromFieldsOfFields(c: CounterRecord)
    ensures FromFields(c.Kind(), c.Fields()) == c
  {
    FieldsShape(c);
    FieldsOfFromFields(c.Kind(), c.Fields());
    FieldsDetermineRecord(FromFields(c.Kind(), c.Fields()), c);
  }

  /** A field list of the right layout is the field list of the record
      built from it. */
  lemma FieldsOfFromFields(k: CounterKind, fs: FieldList)
    requires Fits(fs, LayoutOf(k))
    ensures FromFields(k, fs).Fields() == fs
  {
    match k
    case GenericInterface => GenericInterfaceFieldsOfFromFields(fs);
    case Ethernet => EthernetFieldsOfFromFields(fs);
    case TokenRing => TokenRingFieldsOfFromFields(fs);
    case Vg => VgFieldsOfFromFields(fs);
    case Vlan => VlanFieldsOfFromFields(fs);
    case Processor => ProcessorFieldsOfFromFields(fs);
    case HostCPU => HostCPUFieldsOfFromFields(fs);
    case HostMemory => HostMemoryFieldsOfFromFields(fs);
    case HostDisk => HostDiskFieldsOfFromFields(fs);
    case HostNet => HostNetFieldsOfFromFields(fs);
  }

  const TypeGenericInterfaceCountersRecord: nat := 1
  const TypeEthernetCountersRecord: nat := 2
  const TypeTokenRingCountersRecord: nat := 3
  const TypeVgCountersRecord: nat := 4
  const TypeVlanCountersRecord: nat := 5
  const TypeProcessorCountersRecord: nat := 1001
  const TypeHostCPUCountersRecord: nat := 2003
  const TypeHostMemoryCountersRecord: nat := 2004
  const TypeHostDiskCountersRecord: nat := 2005
  const TypeHostNetCountersRecord: nat := 2006

  /** The sFlow type code of each variant. */
  function TypeCode(k: CounterKind): nat
  {
    match k
    case GenericInterface => TypeGenericInterfaceCountersRecord
    case Ethernet => TypeEthernetCountersRecord
    case TokenRing => TypeTokenRingCountersRecord
    case Vg => TypeVgCountersRecord
    case Vlan => TypeVlanCountersRecord
    case Processor => TypeProcessorCountersRecord
    case HostCPU => TypeHostCPUCountersRecord
    case HostMemory => TypeHostMemoryCountersRecord
    case HostDisk => TypeHostDiskCountersRecord
    case HostNet => TypeHostNetCountersRecord
  }

  /** The struct name of each variant. */
  function Name(k: CounterKind): string
  {
    match k
    case GenericInterface => "GenericInterfaceCounters"
    case Ethernet => "EthernetCounters"
    case TokenRing => "TokenRingCounters"
    case Vg => "VgCounters"
    case Vlan => "VlanCounters"
    case Processor => "ProcessorCounters"
    case HostCPU => "HostCPUCounters"
    case HostMemory => "HostMemoryCounters"
    case HostDisk => "HostDiskCounters"
    case HostNet => "HostNetCounters"
  }

  // ---------------------------------------------------------------------
  // GenericInterfaceCounters

  /** The field widths of GenericInterfaceCounters, in declaration order. */
  function GenericInterfaceLayout(): Layout
  {
    Then(W32, Then(W32, Then(W64, Then(W32, Then(W32, Then(W64, Then(W32, Then(W32, Then(W32,
    Then(W32, Then(W32, Then(W32, Then(W64, Then(W32, Then(W32, Then(W32, Then(W32, Then(W32,
    Then(W32, End)))))))))))))))))))
  }

  function GenericInterfaceFields(c: GenericInterfaceCounters): FieldList
  {
    Cons(F32(c.Index),
    Cons(F32(c.Type),
    Cons(F64(c.Speed),
    Cons(F32(c.Direction),
    Cons(F32(c.Status),
    Cons(F64(c.InOctets),
    Cons(F32(c.InUnicastPackets),
    Cons(F32(c.InMulticastPackets),
    Cons(F32(c.InBroadcastPackets),
    Cons(F32(c.InDiscards),
    Cons(F32(c.InErrors),
    Cons(F32(c.InUnknownProtocols),
    Cons(F64(c.OutOctets),
    Cons(F32(c.OutUnicastPackets),
    Cons(F32(c.OutMulticastPackets),
    Cons(F32(c.OutBroadcastPackets),
    Cons(F32(c.OutDiscards),
    Cons(F32(c.OutErrors),
    Cons(F32(c.PromiscuousMode),
    Nil)))))))))))))))))))
  }

  lemma GenericInterfaceShape(c: GenericInterfaceCounters)
    ensures Fits(GenericInterfaceFields(c), LayoutOf(GenericInterface))
  {
    FitsUnfold();
  }

  function GenericInterfaceFromFields(fs: FieldList): GenericInterfaceCounters
  {
    var f1 := Rest(fs);
    var f2 := Rest(f1);
    var f3 := Rest(f2);
    var f4 := Rest(f3);
    var f5 := Rest(f4);
    var f6 := Rest(f5);
    var f7 := Rest(f6);
    var f8 := Rest(f7);
    var f9 := Rest(f8);
    var f10 := Rest(f9);
    var f11 := Rest(f10);
    var f12 := Rest(f11);
    var f13 := Rest(f12);
    var f14 := Rest(f13);
    var f15 := Rest(f14);
    var f16 := Rest(f15);
    var f17 := Rest(f16);
    var f18 := Rest(f17);
    GenericInterfaceCounters(U32Head(fs), U32Head(f1), U64Head(f2), U32Head(f3), U32Head(f4),
      U64Head(f5), U32Head(f6), U32Head(f7), U32Head(f8), U32Head(f9), U32Head(f10), U32Head(f11),
      U64Head(f12), U32Head(f13), U32Head(f14), U32Head(f15), U32Head(f16), U32Head(f17),
      U32Head(f18))
  }

  lemma GenericInterfaceFieldsOfFromFields(fs: FieldList)
    requires Fits(fs, LayoutOf(GenericInterface))
    ensures GenericInterfaceFields(GenericInterfaceFromFields(fs)) == fs
  {
    RereadFits(LayoutOf(GenericInterface), fs);
    RereadUnfold();
  }

  // ---------------------------------------------------------------------
  // EthernetCounters

  /** The field widths of EthernetCounters, in declaration order. */
  function EthernetLayout(): Layout
  {
    Then(W32, Then(W32, Then(W32, Then(W32, Then(W32, Then(W32, Then(W32, Then(W32, Then(W32,
    Then(W32, Then(W32, Then(W32, Then(W32, End)))))))))))))
  }

  function EthernetFields(c: EthernetCounters): FieldList
  {
    Cons(F32(c.AlignmentErrors),
    Cons(F32(c.FCSErrors),
    Cons(F32(c.SingleCollisionFrames),
    Cons(F32(c.MultipleCollisionFrames),
    Cons(F32(c.SQETestErrors),
    Cons(F32(c.DeferredTransmissions),
    Cons(F32(c.LateCollisions),
    Cons(F32(c.ExcessiveCollisions),
    Cons(F32(c.InternalMACTransmitErrors),
    Cons(F32(c.CarrierSenseErrors),
    Cons(F32(c.FrameTooLongs),
    Cons(F32(c.InternalMACReceiveErrors),
    Cons(F32(c.SymbolErrors),
    Nil)))))))))))))
  }

  lemma EthernetShape(c: EthernetCounters)
    ensures Fits(EthernetFields(c), LayoutOf(Ethernet))
  {
    FitsUnfold();
  }

  function EthernetFromFields(fs: FieldList): EthernetCounters
  {
    var f1 := Rest(fs);
    var f2 := Rest(f1);
    var f3 := Rest(f2);
    var f4 := Rest(f3);
    var f5 := Rest(f4);
    var f6 := Rest(f5);
    var f7 := Rest(f6);
    var f8 := Rest(f7);
    var f9 := Rest(f8);
    var f10 := Rest(f9);
    var f11 := Rest(f10);
    var f12 := Rest(f11);
    EthernetCounters(U32Head(fs), U32Head(f1), U32Head(f2), U32Head(f3), U32Head(f4), U32Head(f5),
      U32Head(f6), U32Head(f7), U32Head(f8), U32Head(f9), U32Head(f10), U32Head(f11), U32Head(f12))
  }

  lemma EthernetFieldsOfFromFields(fs: FieldList)
    requires Fits(fs, LayoutOf(Ethernet))
    ensures EthernetFields(EthernetFromFields(fs)) == fs
  {
    RereadFits(LayoutOf(Ethernet), fs);
    RereadUnfold();
  }

  // ---------------------------------------------------------------------
  // TokenRingCounters

  /** The field widths of TokenRingCounters, in declaration order. */
  function TokenRingLayout(): Layout
  {
    Then(W32, Then(W32, Then(W32, Then(W32, Then(W32, Then(W32, Then(W32, Then(W32, Then(W32,
    Then(W32, Then(W32, Then(W32, Then(W32, Then(W32, Then(W32, Then(W32, Then(W32, Then(W32,
    End))))))))))))))))))
  }

  function TokenRingFields(c: TokenRingCounters): FieldList
  {
    Cons(F32(c.LineErrors),
    Cons(F32(c.BurstErrors),
    Cons(F32(c.ACErrors),
    Cons(F32(c.AbortTransErrors),
    Cons(F32(c.InternalErrors),
    Cons(F32(c.LostFrameErrors),
    Cons(F32(c.ReceiveCongestions),
    Cons(F32(c.FrameCopiedErrors),
    Cons(F32(c.TokenErrors),
    Cons(F32(c.SoftErrors),
    Cons(F32(c.HardErrors),
    Cons(F32(c.SignalLoss),
    Cons(F32(c.TransmitBeacons),
    Cons(F32(c.Recoverys),
    Cons(F32(c.LobeWires),
    Cons(F32(c.Removes),
    Cons(F32(c.Singles),
    Cons(F32(c.FreqErrors),
    Nil))))))))))))))))))
  }

  lemma TokenRingShape(c: TokenRingCounters)
    ensures Fits(TokenRingFields(c), LayoutOf(TokenRing))
  {
    FitsUnfold();
  }

  function TokenRingFromFields(fs: FieldList): TokenRingCounters
  {
    var f1 := Rest(fs);
    var f2 := Rest(f1);
    var f3 := Rest(f2);
    var f4 := Rest(f3);
    var f5 := Rest(f4);
    var f6 := Rest(f5);
    var f7 := Rest(f6);
    var f8 := Rest(f7);
    var f9 := Rest(f8);
    var f10 := Rest(f9);
    var f11 := Rest(f10);
    var f12 := Rest(f11);
    var f13 := Rest(f12);
    var f14 := Rest(f13);
    var f15 := Rest(f14);
    var f16 := Rest(f15);
    var f17 := Rest(f16);
    TokenRingCounters(U32Head(fs), U32Head(f1), U32Head(f2), U32Head(f3), U32Head(f4), U32Head(f5),
      U32Head(f6), U32Head(f7), U32Head(f8), U32Head(f9), U32Head(f10), U32Head(f11), U32Head(f12),
      U32Head(f13), U32Head(f14), U32Head(f15), U32Head(f16), U32Head(f17))
  }

  lemma TokenRingFieldsOfFromFields(fs: FieldList)
    requires Fits(fs, LayoutOf(TokenRing))
    ensures TokenRingFields(TokenRingFromFields(fs)) == fs
  {
    RereadFits(LayoutOf(TokenRing), fs);
    RereadUnfold();
  }

  // ---------------------------------------------------------------------
  // VgCounters

  /** The field widths of VgCounters, in declaration order. */
  function VgLayout(): Layout
  {
    Then(W32, Then(W64, Then(W32, Then(W64, Then(W32, Then(W32, Then(W32, Then(W32, Then(W32,
    Then(W64, Then(W32, Then(W64, Then(W64, Then(W64, End))))))))))))))
  }

  function VgFields(c: VgCounters): FieldList
  {
    Cons(F32(c.InHighPriorityFrames),
    Cons(F64(c.InHighPriorityOctets),
    Cons(F32(c.InNormPriorityFrames),
    Cons(F64(c.InNormPriorityOctets),
    Cons(F32(c.InIPMErrors),
    Cons(F32(c.InOversizeFrameErrors),
    Cons(F32(c.InDataErrors),
    Cons(F32(c.InNullAddressedFrames),
    Cons(F32(c.OutHighPriorityFrames),
    Cons(F64(c.OutHighPriorityOctets),
    Cons(F32(c.TransitionIntoTrainings),
    Cons(F64(c.HCInHighPriorityOctets),
    Cons(F64(c.HCInNormPriorityOctets),
    Cons(F64(c.HCOutHighPriorityOctets),
    Nil))))))))))))))
  }

  lemma VgShape(c: VgCounters)
    ensures Fits(VgFields(c), LayoutOf(Vg))
  {
    FitsUnfold();
  }

  function VgFromFields(fs: FieldList): VgCounters
  {
    var f1 := Rest(fs);
    var f2 := Rest(f1);
    var f3 := Rest(f2);
    var f4 := Rest(f3);
    var f5 := Rest(f4);
    var f6 := Rest(f5);
    var f7 := Rest(f6);
    var f8 := Rest(f7);
    var f9 := Rest(f8);
    var f10 := Rest(f9);
    var f11 := Rest(f10);
    var f12 := Rest(f11);
    var f13 := Rest(f12);
    VgCounters(U32Head(fs), U64Head(f1), U32Head(f2), U64Head(f3), U32Head(f4), U32Head(f5),
      U32Head(f6), U32Head(f7), U32Head(f8), U64Head(f9), U32Head(f10), U64Head(f11), U64Head(f12),
      U64Head(f13))
  }

  lemma VgFieldsOfFromFields(fs: FieldList)
    requires Fits(fs, LayoutOf(Vg))
    ensures VgFields(VgFromFields(fs)) == fs
  {
    RereadFits(LayoutOf(Vg), fs);
    RereadUnfold();
  }

  // ---------------------------------------------------------------------
  // VlanCounters

  /** The field widths of VlanCounters, in declaration order. */
  function VlanLayout(): Layout
  {
    Then(W32, Then(W64, Then(W32, Then(W32, Then(W32, Then(W32, End))))))
  }

  function VlanFields(c: VlanCounters): FieldList
  {
    Cons(F32(c.ID),
    Cons(F64(c.Octets),
    Cons(F32(c.UnicastPackets),
    Cons(F32(c.MulticastPackets),
    Cons(F32(c.BroadcastPackets),
    Cons(F32(c.Discards),
    Nil))))))
  }

  lemma VlanShape(c: VlanCounters)
    ensures Fits(VlanFields(c), LayoutOf(Vlan))
  {
    FitsUnfold();
  }

  function VlanFromFields(fs: FieldList): VlanCounters
  {
    var f1 := Rest(fs);
    var f2 := Rest(f1);
    var f3 := Rest(f2);
    var f4 := Rest(f3);
    var f5 := Rest(f4);
    VlanCounters(U32Head(fs), U64Head(f1), U32Head(f2), U32Head(f3), U32Head(f4), U32Head(f5))
  }

  lemma VlanFieldsOfFromFields(fs: FieldList)
    requires Fits(fs, LayoutOf(Vlan))
    ensures VlanFields(VlanFromFields(fs)) == fs
  {
    RereadFits(LayoutOf(Vlan), fs);
    RereadUnfold();
  }

  // ---------------------------------------------------------------------
  // ProcessorCounters

  /** The field widths of ProcessorCounters, in declaration order. */
  function ProcessorLayout(): Layout
  {
    Then(W32, Then(W32, Then(W32, Then(W64, Then(W64, End)))))
  }

  function ProcessorFields(c: ProcessorCounters): FieldList
  {
    Cons(F32(c.CPU5s),
    Cons(F32(c.CPU1m),
    Cons(F32(c.CPU5m),
    Cons(F64(c.TotalMemory),
    Cons(F64(c.FreeMemory),
    Nil)))))
  }

  lemma ProcessorShape(c: ProcessorCounters)
    ensures Fits(ProcessorFields(c), LayoutOf(Processor))
  {
    FitsUnfold();
  }

  function ProcessorFromFields(fs: FieldList): ProcessorCounters
  {
    var f1 := Rest(fs);
    var f2 := Rest(f1);
    var f3 := Rest(f2);
    var f4 := Rest(f3);
    ProcessorCounters(U32Head(fs), U32Head(f1), U32Head(f2), U64Head(f3), U64Head(f4))
  }

  lemma ProcessorFieldsOfFromFields(fs: FieldList)
    requires Fits(fs, LayoutOf(Processor))
    ensures ProcessorFields(ProcessorFromFields(fs)) == fs
  {
    RereadFits(LayoutOf(Processor), fs);
    RereadUnfold();
  }

  // ---------------------------------------------------------------------
  // HostCPUCounters

  /** The field widths of HostCPUCounters, in declaration order. */
  function HostCPULayout(): Layout
  {
    Then(W32, Then(W32, Then(W32, Then(W32, Then(W32, Then(W32, Then(W32, Then(W32, Then(W32,
    Then(W32, Then(W32, Then(W32, Then(W32, Then(W32, Then(W32, Then(W32, Then(W32, Then(W32,
    Then(W32, Then(W32, End))))))))))))))))))))
  }

  function HostCPUFields(c: HostCPUCounters): FieldList
  {
    Cons(F32(c.Load1m),
    Cons(F32(c.Load5m),
    Cons(F32(c.Load15m),
    Cons(F32(c.ProcessesRunning),
    Cons(F32(c.ProcessesTotal),
    Cons(F32(c.NumCPU),
    Cons(F32(c.SpeedCPU),
    Cons(F32(c.Uptime),
    Cons(F32(c.CPUUser),
    Cons(F32(c.CPUNice),
    Cons(F32(c.CPUSys),
    Cons(F32(c.CPUIdle),
    Cons(F32(c.CPUWio),
    Cons(F32(c.CPUIntr),
    Cons(F32(c.CPUSoftIntr),
    Cons(F32(c.Interrupts),
    Cons(F32(c.ContextSwitches),
    Cons(F32(c.CPUSteal),
    Cons(F32(c.CPUGuest),
    Cons(F32(c.CPUGuestNice),
    Nil))))))))))))))))))))
  }

  lemma HostCPUShape(c: HostCPUCounters)
    ensures Fits(HostCPUFields(c), LayoutOf(HostCPU))
  {
    FitsUnfold();
  }

  function HostCPUFromFields(fs: FieldList): HostCPUCounters
  {
    var f1 := Rest(fs);
    var f2 := Rest(f1);
    var f3 := Rest(f2);
    var f4 := Rest(f3);
    var f5 := Rest(f4);
    var f6 := Rest(f5);
    var f7 := Rest(f6);
    var f8 := Rest(f7);
    var f9 := Rest(f8);
    var f10 := Rest(f9);
    var f11 := Rest(f10);
    var f12 := Rest(f11);
    var f13 := Rest(f12);
    var f14 := Rest(f13);
    var f15 := Rest(f14);
    var f16 := Rest(f15);
    var f17 := Rest(f16);
    var f18 := Rest(f17);
    var f19 := Rest(f18);
    HostCPUCounters(U32Head(fs), U32Head(f1), U32Head(f2), U32Head(f3), U32Head(f4), U32Head(f5),
      U32Head(f6), U32Head(f7), U32Head(f8), U32Head(f9), U32Head(f10), U32Head(f11), U32Head(f12),
      U32Head(f13), U32Head(f14), U32Head(f15), U32Head(f16), U32Head(f17), U32Head(f18),
      U32Head(f19))
  }

  lemma HostCPUFieldsOfFromFields(fs: FieldList)
    requires Fits(fs, LayoutOf(HostCPU))
    ensures HostCPUFields(HostCPUFromFields(fs)) == fs
  {
    RereadFits(LayoutOf(HostCPU), fs);
    RereadUnfold();
  }

  // ---------------------------------------------------------------------
  // HostMemoryCounters

  /** The field widths of HostMemoryCounters, in declaration order. */
  function HostMemoryLayout(): Layout
  {
    Then(W64, Then(W64, Then(W64, Then(W64, Then(W64, Then(W64, Then(W64, Then(W32, Then(W32,
    Then(W32, Then(W32, End)))))))))))
  }

  function HostMemoryFields(c: HostMemoryCounters): FieldList
  {
    Cons(F64(c.Total),
    Cons(F64(c.Free),
    Cons(F64(c.Shared),
    Cons(F64(c.Buffers),
    Cons(F64(c.Cached),
    Cons(F64(c.SwapTotal),
    Cons(F64(c.SwapFree),
    Cons(F32(c.PageIn),
    Cons(F32(c.PageOut),
    Cons(F32(c.SwapIn),
    Cons(F32(c.SwapOut),
    Nil)))))))))))
  }

  lemma HostMemoryShape(c: HostMemoryCounters)
    ensures Fits(HostMemoryFields(c), LayoutOf(HostMemory))
  {
    FitsUnfold();
  }

  function HostMemoryFromFields(fs: FieldList): HostMemoryCounters
  {
    var f1 := Rest(fs);
    var f2 := Rest(f1);
    var f3 := Rest(f2);
    var f4 := Rest(f3);
    var f5 := Rest(f4);
    var f6 := Rest(f5);
    var f7 := Rest(f6);
    var f8 := Rest(f7);
    var f9 := Rest(f8);
    var f10 := Rest(f9);
    HostMemoryCounters(U64Head(fs), U64Head(f1), U64Head(f2), U64Head(f3), U64Head(f4),
      U64Head(f5), U64Head(f6), U32Head(f7), U32Head(f8), U32Head(f9), U32Head(f10))
  }

  lemma HostMemoryFieldsOfFromFields(fs: FieldList)
    requires Fits(fs, LayoutOf(HostMemory))
    ensures HostMemoryFields(HostMemoryFromFields(fs)) == fs
  {
    RereadFits(LayoutOf(HostMemory), fs);
    RereadUnfold();
  }

  // ---------------------------------------------------------------------
  // HostDiskCounters

  /** The field widths of HostDiskCounters, in declaration order. */
  function HostDiskLayout(): Layout
  {
    Then(W64, Then(W64, Then(W32, Then(W32, Then(W64, Then(W32, Then(W32, Then(W64, Then(W32,
    End)))))))))
  }

  function HostDiskFields(c: HostDiskCounters): FieldList
  {
    Cons(F64(c.Total),
    Cons(F64(c.Free),
    Cons(F32(c.MaxUsedPercent),
    Cons(F32(c.Reads),
    Cons(F64(c.BytesRead),
    Cons(F32(c.ReadTime),
    Cons(F32(c.Writes),
    Cons(F64(c.BytesWritten),
    Cons(F32(c.WriteTime),
    Nil)))))))))
  }

  lemma HostDiskShape(c: HostDiskCounters)
    ensures Fits(HostDiskFields(c), LayoutOf(HostDisk))
  {
    FitsUnfold();
  }

  function HostDiskFromFields(fs: FieldList): HostDiskCounters
  {
    var f1 := Rest(fs);
    var f2 := Rest(f1);
    var f3 := Rest(f2);
    var f4 := Rest(f3);
    var f5 := Rest(f4);
    var f6 := Rest(f5);
    var f7 := Rest(f6);
    var f8 := Rest(f7);
    HostDiskCounters(U64Head(fs), U64Head(f1), U32Head(f2), U32Head(f3), U64Head(f4), U32Head(f5),
      U32Head(f6), U64Head(f7), U32Head(f8))
  }

  lemma HostDiskFieldsOfFromFields(fs: FieldList)
    requires Fits(fs, LayoutOf(HostDisk))
    ensures HostDiskFields(HostDiskFromFields(fs)) == fs
  {
    RereadFits(LayoutOf(HostDisk), fs);
    RereadUnfold();
  }

  // ---------------------------------------------------------------------
  // HostNetCounters

  /** The field widths of HostNetCounters, in declaration order. */
  function HostNetLayout(): Layout
  {
    Then(W64, Then(W32, Then(W32, Then(W32, Then(W64, Then(W32, Then(W32, Then(W32, End))))))))
  }

  function HostNetFields(c: HostNetCounters): FieldList
  {
    Cons(F64(c.BytesIn),
    Cons(F32(c.PacketsIn),
    Cons(F32(c.ErrorsIn),
    Cons(F32(c.DropsIn),
    Cons(F64(c.BytesOut),
    Cons(F32(c.PacketsOut),
    Cons(F32(c.ErrorsOut),
    Cons(F32(c.DropsOut),
    Nil))))))))
  }

  lemma HostNetShape(c: HostNetCounters)
    ensures Fits(HostNetFields(c), LayoutOf(HostNet))
  {
    FitsUnfold();
  }

  function HostNetFromFields(fs: FieldList): HostNetCounters
  {
    var f1 := Rest(fs);
    var f2 := Rest(f1);
    var f3 := Rest(f2);
    var f4 := Rest(f3);
    var f5 := Rest(f4);
    var f6 := Rest(f5);
    var f7 := Rest(f6);
    HostNetCounters(U64Head(fs), U32Head(f1), U32Head(f2), U32Head(f3), U64Head(f4), U32Head(f5),
      U32Head(f6), U32Head(f7))
  }

  lemma HostNetFieldsOfFromFields(fs: FieldList)
    requires Fits(fs, LayoutOf(HostNet))
    ensures HostNetFields(HostNetFromFields(fs)) == fs
  {
    RereadFits(LayoutOf(HostNet), fs);
    RereadUnfold();
  }

  /** GenericInterfaceCounters is 88 bytes on the wire. */
  lemma GenericInterfaceWireLength()
    ensures PackedWidth(LayoutOf(GenericInterface)) == 88
  {
    PackedWidthUnfold();
  }

  /** unsafe.Sizeof(GenericInterfaceCounters{}) is 88 on 64-bit targets. */
  lemma GenericInterfaceSizeof()
    ensures GoSizeof(LayoutOf(GenericInterface), ALIGN64_ON_64BIT) == 88
  {
    SizeofUnfold();
  }

  /** EthernetCounters is 52 bytes on the wire. */
  lemma EthernetWireLength()
    ensures PackedWidth(LayoutOf(Ethernet)) == 52
  {
    PackedWidthUnfold();
  }

  /** unsafe.Sizeof(EthernetCounters{}) is 52 on 64-bit targets. */
  lemma EthernetSizeof()
    ensures GoSizeof(LayoutOf(Ethernet), ALIGN64_ON_64BIT) == 52
  {
    SizeofUnfold();
  }

  /** TokenRingCounters is 72 bytes on the wire. */
  lemma TokenRingWireLength()
    ensures PackedWidth(LayoutOf(TokenRing)) == 72
  {
    PackedWidthUnfold();
  }

  /** unsafe.Sizeof(TokenRingCounters{}) is 72 on 64-bit targets. */
  lemma TokenRingSizeof()
    ensures GoSizeof(LayoutOf(TokenRing), ALIGN64_ON_64BIT) == 72
  {
    SizeofUnfold();
  }

  /** VgCounters is 80 bytes on the wire. */
  lemma VgWireLength()
    ensures PackedWidth(LayoutOf(Vg)) == 80
  {
    PackedWidthUnfold();
  }

  /** unsafe.Sizeof(VgCounters{}) is 96 on 64-bit targets. */
  lemma VgSizeof()
    ensures GoSizeof(LayoutOf(Vg), ALIGN64_ON_64BIT) == 96
  {
    SizeofUnfold();
  }

  /** VlanCounters is 28 bytes on the wire. */
  lemma VlanWireLength()
    ensures PackedWidth(LayoutOf(Vlan)) == 28
  {
    PackedWidthUnfold();
  }

  /** unsafe.Sizeof(VlanCounters{}) is 32 on 64-bit targets. */
  lemma VlanSizeof()
    ensures GoSizeof(LayoutOf(Vlan), ALIGN64_ON_64BIT) == 32
  {
    SizeofUnfold();
  }

  /** ProcessorCounters is 28 bytes on the wire. */
  lemma ProcessorWireLength()
    ensures PackedWidth(LayoutOf(Processor)) == 28
  {
    PackedWidthUnfold();
  }

  /** unsafe.Sizeof(ProcessorCounters{}) is 32 on 64-bit targets. */
  lemma ProcessorSizeof()
    ensures GoSizeof(LayoutOf(Processor), ALIGN64_ON_64BIT) == 32
  {
    SizeofUnfold();
  }

  /** HostCPUCounters is 80 bytes on the wire. */
  lemma HostCPUWireLength()
    ensures PackedWidth(LayoutOf(HostCPU)) == 80
  {
    PackedWidthUnfold();
  }

  /** unsafe.Sizeof(HostCPUCounters{}) is 80 on 64-bit targets. */
  lemma HostCPUSizeof()
    ensures GoSizeof(LayoutOf(HostCPU), ALIGN64_ON_64BIT) == 80
  {
    SizeofUnfold();
  }

  /** HostMemoryCounters is 72 bytes on the wire. */
  lemma HostMemoryWireLength()
    ensures PackedWidth(LayoutOf(HostMemory)) == 72
  {
    PackedWidthUnfold();
  }

  /** unsafe.Sizeof(HostMemoryCounters{}) is 72 on 64-bit targets. */
  lemma HostMemorySizeof()
    ensures GoSizeof(LayoutOf(HostMemory), ALIGN64_ON_64BIT) == 72
  {
    SizeofUnfold();
  }

  /** HostDiskCounters is 52 bytes on the wire. */
  lemma HostDiskWireLength()
    ensures PackedWidth(LayoutOf(HostDisk)) == 52
  {
    PackedWidthUnfold();
  }

  /** unsafe.Sizeof(HostDiskCounters{}) is 56 on 64-bit targets. */
  lemma HostDiskSizeof()
    ensures GoSizeof(LayoutOf(HostDisk), ALIGN64_ON_64BIT) == 56
  {
    SizeofUnfold();
  }

  /** HostNetCounters is 40 bytes on the wire. */
  lemma HostNetWireLength()
    ensures PackedWidth(LayoutOf(HostNet)) == 40
  {
    PackedWidthUnfold();
  }

  /** unsafe.Sizeof(HostNetCounters{}) is 48 on 64-bit targets. */
  lemma HostNetSizeof()
    ensures GoSizeof(LayoutOf(HostNet), ALIGN64_ON_64BIT) == 48
  {
    SizeofUnfold();
  }

  // ---------------------------------------------------------------------
  // Sizes

  /** The wire length of each variant: the sum of its field sizes. */
  lemma WireLengths(k: CounterKind)
    ensures PackedWidth(LayoutOf(k)) == match k
      case GenericInterface => 88
      case Ethernet => 52
      case TokenRing => 72
      case Vg => 80
      case Vlan => 28
      case Processor => 28
      case HostCPU => 80
      case HostMemory => 72
      case HostDisk => 52
      case HostNet => 40
  {
    match k
    case GenericInterface => GenericInterfaceWireLength();
    case Ethernet => EthernetWireLength();
    case TokenRing => TokenRingWireLength();
    case Vg => VgWireLength();
    case Vlan => VlanWireLength();
    case Processor => ProcessorWireLength();
    case HostCPU => HostCPUWireLength();
    case HostMemory => HostMemoryWireLength();
    case HostDisk => HostDiskWireLength();
    case HostNet => HostNetWireLength();
  }

  /** unsafe.Sizeof of each variant on a 64-bit target, which pads a uint64
      that follows an odd number of 4-byte fields and rounds a struct
      holding a uint64 up to a multiple of 8: five variants come out longer
      than their wire length. */
  lemma GoSizes(k: CounterKind)
    ensures GoSizeof(LayoutOf(k), ALIGN64_ON_64BIT) == match k
      case GenericInterface => 88
      case Ethernet => 52
      case TokenRing => 72
      case Vg => 96
      case Vlan => 32
      case Processor => 32
      case HostCPU => 80
      case HostMemory => 72
      case HostDisk => 56
      case HostNet => 48
  {
    match k
    case GenericInterface => GenericInterfaceSizeof();
    case Ethernet => EthernetSizeof();
    case TokenRing => TokenRingSizeof();
    case Vg => VgSizeof();
    case Vlan => VlanSizeof();
    case Processor => ProcessorSizeof();
    case HostCPU => HostCPUSizeof();
    case HostMemory => HostMemorySizeof();
    case HostDisk => HostDiskSizeof();
    case HostNet => HostNetSizeof();
  }

  /** The size word Encode writes, uint32(unsafe.Sizeof(X{})), as the Go
      compiler fixes it on 64-bit targets; SizeWords proves each entry. */
  function SizePrefix(k: CounterKind): bv32
  {
    match k
    case GenericInterface => 88
    case Ethernet => 52
    case TokenRing => 72
    case Vg => 96
    case Vlan => 32
    case Processor => 32
    case HostCPU => 80
    case HostMemory => 72
    case HostDisk => 56
    case HostNet => 48
  }

  /** The size word a corrected Encode writes, uint32(binary.Size(c)): the
      wire length of the fields; SizeWords proves each entry. */
  function WireSizeWord(k: CounterKind): bv32
  {
    match k
    case GenericInterface => 88
    case Ethernet => 52
    case TokenRing => 72
    case Vg => 80
    case Vlan => 28
    case Processor => 28
    case HostCPU => 80
    case HostMemory => 72
    case HostDisk => 52
    case HostNet => 40
  }

  /** The two size words as numbers: the one Encode writes is unsafe.Sizeof
      of the struct on a 64-bit target, the corrected one its wire length. */
  lemma SizeWords(k: CounterKind)
    ensures SizePrefix(k) as int == GoSizeof(LayoutOf(k), ALIGN64_ON_64BIT)
    ensures WireSizeWord(k) as int == PackedWidth(LayoutOf(k))
  {
    WireLengths(k);
    GoSizes(k);
  }

  /** unsafe.Sizeof on a 64-bit target, the size word Encode writes, is the
      wire length exactly for the variants without padding. */
  lemma SizeofIsWireLength(k: CounterKind)
    ensures GoSizeof(LayoutOf(k), ALIGN64_ON_64BIT) == PackedWidth(LayoutOf(k)) <==>
      k in {GenericInterface, Ethernet, TokenRing, HostCPU, HostMemory}
  {
    WireLengths(k);
    GoSizes(k);
  }

  // ---------------------------------------------------------------------
  // Type codes and names

  /** RecordType tells the variants apart. */
  lemma RecordTypeDistinguishes(c: CounterRecord, d: CounterRecord)
    ensures c.RecordType() == d.RecordType() <==> c.Kind() == d.Kind()
  {
  }

  /** RecordName tells the variants apart. */
  lemma RecordNameDistinguishes(c: CounterRecord, d: CounterRecord)
    ensures c.RecordName() == d.RecordName() <==> c.Kind() == d.Kind()
  {
  }

  // ---------------------------------------------------------------------
  // Decoding

  /** The record of kind `k` with every field zero: what a decoder returns
      when it fails. */
  function Zero(k: CounterKind): (c: CounterRecord)
    ensures c.Kind() == k
  {
    FromFields(k, Nil)
  }

  function Min(a: nat, b: nat): nat
  {
    if a < b then a else b
  }

  /** What a decode function returns: the record, the error, and where the
      reader's cursor is afterwards. */
  datatype Decoded = Decoded(record: CounterRecord, err: Option<DecodeError>, next: nat)

  /** decode<X>CountersRecord(r, length): one Read of up to `length` bytes
      into a scratch buffer, then readFields over that buffer. */
  function DecodeCounters(k: CounterKind, input: seq<bv8>, cursor: nat, length: nat): (d: Decoded)
    ensures d.record.Kind() == k
    ensures d.next == cursor + Min(Avail(input, cursor), length)
    ensures d.err.None? <==> PackedWidth(LayoutOf(k)) <= length <= Avail(input, cursor)
    ensures Avail(input, cursor) < length ==> d.err == Some(DecodingRecord)
    ensures d.err.Some? ==> d.record == Zero(k)
  {
    var n := Min(Avail(input, cursor), length);
    if n != length then Decoded(Zero(k), Some(DecodingRecord), cursor + n)
    else
      var b := Remaining(input, cursor)[..n];
      match ParseFields(LayoutOf(k), b)
      case None => Decoded(Zero(k), Some(ShortFieldBuffer), cursor + n)
      case Some(fs) => Decoded(FromFields(k, fs), None, cursor + n)
  }

  /** A decode that succeeds holds exactly the record whose packed fields
      open the input at the cursor. */
  lemma DecodedFields(k: CounterKind, input: seq<bv8>, cursor: nat, length: nat)
    requires DecodeCounters(k, input, cursor, length).err.None?
    ensures EncodeFields(DecodeCounters(k, input, cursor, length).record.Fields()) ==
      Remaining(input, cursor)[..PackedWidth(LayoutOf(k))]
  {
    var r := Remaining(input, cursor);
    var n := PackedWidth(LayoutOf(k));
    assert DecodeCounters(k, input, cursor, length).record == FromFields(k, ParseFields(LayoutOf(k), r[..length]).value);
    ParsedFieldsBytes(k, r[..length]);
    PrefixOfPrefix(r, length, n);
  }

  /** The record filled from the fields parsed out of `b` packs back to the
      bytes they were parsed from. */
  lemma ParsedFieldsBytes(k: CounterKind, b: seq<bv8>)
    requires PackedWidth(LayoutOf(k)) <= |b|
    ensures EncodeFields(FromFields(k, ParseFields(LayoutOf(k), b).value).Fields()) == b[..PackedWidth(LayoutOf(k))]
  {
    FieldsOfFromFields(k, ParseFields(LayoutOf(k), b).value);
    EncodeParseFields(LayoutOf(k), b);
  }

  method Decode(k: CounterKind, input: seq<bv8>, cursor: nat, length: nat)
    returns (c: CounterRecord, err: Option<DecodeError>, next: nat)
    ensures Decoded(c, err, next) == DecodeCounters(k, input, cursor, length)
  {
    c := Zero(k);
    var b := new bv8[length];
    var r := Remaining(input, cursor);
    var n := Min(|r|, length);
    forall i | 0 <= i < n {
      b[i] := r[i];
    }
    next := cursor + n;
    if n != length {
      err := Some(DecodingRecord);
      return;
    }
    assert b[..] == r[..n];
    var fs := ReadFields(LayoutOf(k), b);
    match fs
    case None =>
      err := Some(ShortFieldBuffer);
    case Some(v) =>
      c, err := FromFields(k, v), None;
  }

  // ---------------------------------------------------------------------
  // Encoding

  /** The bytes of a record behind its type code and a given size word:
      the fields packed as binary.Write lays them out. */
  function Frame(c: CounterRecord, size: bv32): (out: seq<bv8>)
    ensures |out| == 8 + PackedWidth(LayoutOf(c.Kind()))
  {
    FieldsShape(c);
    EncodedLength(c.Fields(), LayoutOf(c.Kind()));
    Be32(Uint32(c.RecordType())) + Be32(size) + EncodeFields(c.Fields())
  }

  /** The bytes Encode writes: the type code, the unsafe.Sizeof size word,
      then the fields. */
  function EncodedRecord(c: CounterRecord): (out: seq<bv8>)
    ensures |out| == 8 + PackedWidth(LayoutOf(c.Kind()))
  {
    Frame(c, SizePrefix(c.Kind()))
  }

  /** Two records of the same variant with the same packed fields are the
      same record. */
  lemma {:induction false} FieldBytesDetermineRecord(c: CounterRecord, d: CounterRecord)
    requires c.Kind() == d.Kind() && EncodeFields(c.Fields()) == EncodeFields(d.Fields())
    ensures c == d
  {
    FieldsShape(c);
    FieldsShape(d);
    ParseEncodeFields(c.Fields(), LayoutOf(c.Kind()), []);
    ParseEncodeFields(d.Fields(), LayoutOf(d.Kind()), []);
    assert EncodeFields(c.Fields()) + [] == EncodeFields(c.Fields());
    assert EncodeFields(d.Fields()) + [] == EncodeFields(d.Fields());
    FieldsDetermineRecord(c, d);
  }

  /** Wherever the packed fields of a record stand in the input, decoding
      them with the wire length gives back that record. */
  lemma DecodeFieldBytes(c: CounterRecord, input: seq<bv8>, cursor: nat)
    requires PackedWidth(LayoutOf(c.Kind())) <= Avail(input, cursor)
    requires Remaining(input, cursor)[..PackedWidth(LayoutOf(c.Kind()))] == EncodeFields(c.Fields())
    ensures var n := PackedWidth(LayoutOf(c.Kind()));
      DecodeCounters(c.Kind(), input, cursor, n) == Decoded(c, None, cursor + n)
  {
    var n := PackedWidth(LayoutOf(c.Kind()));
    DecodedFields(c.Kind(), input, cursor, n);
    FieldBytesDetermineRecord(c, DecodeCounters(c.Kind(), input, cursor, n).record);
  }

  /** A framed record followed by anything: its size word stands in bytes 4
      to 8 and its packed fields from byte 8 on. */
  lemma FrameBytes(c: CounterRecord, size: bv32, rest: seq<bv8>)
    ensures |Frame(c, size) + rest| >= 8
    ensures Word32((Frame(c, size) + rest)[4..8]) == size
    ensures Avail(Frame(c, size) + rest, 8) == PackedWidth(LayoutOf(c.Kind())) + |rest|
    ensures Remaining(Frame(c, size) + rest, 8)[..PackedWidth(LayoutOf(c.Kind()))] == EncodeFields(c.Fields())
  {
    var body := EncodeFields(c.Fields());
    assert |body| == PackedWidth(LayoutOf(c.Kind())) by {
      FieldsShape(c);
      EncodedLength(c.Fields(), LayoutOf(c.Kind()));
    }
    HeaderThenBody(Uint32(c.RecordType()), size, body, rest);
  }

  /** Two header words, a body and anything after: the second word is
      read back from bytes 4 to 8 and the body from byte 8 on. */
  lemma HeaderThenBody(t: bv32, size: bv32, body: seq<bv8>, rest: seq<bv8>)
    ensures var input := Be32(t) + Be32(size) + body + rest;
      && |input| >= 8
      && Word32(input[4..8]) == size
      && Avail(input, 8) == |body| + |rest|
      && Remaining(input, 8)[..|body|] == body
  {
    var head := Be32(t) + Be32(size);
    var input := head + body + rest;
    assert input[4..8] == Be32(size) by {
      assert input[4..8] == head[4..8];
    }
    assert Remaining(input, 8) == body + rest by {
      assert input == head + (body + rest);
    }
    assert (body + rest)[..|body|] == body;
  }

  /** Any decode of a framed record that succeeds gives back the record,
      and the one given the wire length ends just past it. */
  lemma DecodeFrame(c: CounterRecord, size: bv32, rest: seq<bv8>, length: nat)
    ensures DecodeCounters(c.Kind(), Frame(c, size) + rest, 8, length).err.None? ==>
      DecodeCounters(c.Kind(), Frame(c, size) + rest, 8, length).record == c
    ensures length == PackedWidth(LayoutOf(c.Kind())) ==>
      DecodeCounters(c.Kind(), Frame(c, size) + rest, 8, length) == Decoded(c, None, 8 + length)
  {
    var input := Frame(c, size) + rest;
    var d := DecodeCounters(c.Kind(), input, 8, length);
    FrameBytes(c, size, rest);
    if d.err.None? {
      DecodedFields(c.Kind(), input, 8, length);
      FieldBytesDetermineRecord(c, d.record);
    }
    if length == PackedWidth(LayoutOf(c.Kind())) {
      assert d.err.None? && d.next == 8 + length;
    }
  }

  /** The fields after the two header words decode back to the record when
      the decoder is given the wire length. */
  lemma DecodeEncodedRecord(c: CounterRecord, rest: seq<bv8>)
    ensures var n := PackedWidth(LayoutOf(c.Kind()));
      DecodeCounters(c.Kind(), EncodedRecord(c) + rest, 8, n) == Decoded(c, None, 8 + n)
  {
    DecodeFrame(c, SizePrefix(c.Kind()), rest, PackedWidth(LayoutOf(c.Kind())));
  }

  // ---------------------------------------------------------------------
  // The size word as a record length

  /** The variants whose unsafe.Sizeof on a 64-bit target is their wire
      length. */
  predicate Unpadded(k: CounterKind)
  {
    k in {GenericInterface, Ethernet, TokenRing, HostCPU, HostMemory}
  }

  /** The size word Encode writes is never short of the wire length, and
      equals it exactly for the variants without padding. */
  lemma SizeWordPadding(k: CounterKind)
    ensures SizePrefix(k) as int >= PackedWidth(LayoutOf(k))
    ensures SizePrefix(k) as int == PackedWidth(LayoutOf(k)) <==> Unpadded(k)
  {
    SizeWords(k);
    SizeofIsWireLength(k);
  }

  /** Decoding the record at the start of `input` with the length its own
      size word gives, as a counter-sample reader does. */
  function DecodeWithSizeWord(k: CounterKind, input: seq<bv8>): (d: Decoded)
    requires |input| >= 8
    ensures d.record.Kind() == k
  {
    DecodeCounters(k, input, 8, Word32(input[4..8]) as int)
  }

  /** The record Encode writes, read back with its own size word: for a
      padded variant the length is too long by the padding, so the decoder
      fails when fewer bytes follow, and otherwise takes the padding's worth
      of the bytes after the record. */
  lemma SizeWordOverruns(c: CounterRecord, rest: seq<bv8>)
    requires !Unpadded(c.Kind())
    ensures var input := EncodedRecord(c) + rest;
      var pad := Word32(input[4..8]) as int - PackedWidth(LayoutOf(c.Kind()));
      var d := DecodeWithSizeWord(c.Kind(), input);
      && pad > 0
      && (|rest| < pad ==> d.err == Some(DecodingRecord))
      && (|rest| >= pad ==> d.err.None? && d.record == c && d.next == |EncodedRecord(c)| + pad)
  {
    var k := c.Kind();
    SizeWordPadding(k);
    FrameBytes(c, SizePrefix(k), rest);
    DecodeFrame(c, SizePrefix(k), rest, SizePrefix(k) as int);
  }

  /** The record Encode writes comes back whole, with the cursor just past
      it, from its own size word exactly for the variants without padding. */
  lemma SizeWordRoundTrip(c: CounterRecord, rest: seq<bv8>)
    ensures DecodeWithSizeWord(c.Kind(), EncodedRecord(c) + rest) == Decoded(c, None, |EncodedRecord(c)|)
      <==> Unpadded(c.Kind())
  {
    var d := DecodeWithSizeWord(c.Kind(), EncodedRecord(c) + rest);
    if Unpadded(c.Kind()) {
      UnpaddedRoundTrip(c, rest);
    } else {
      SizeWordOverruns(c, rest);
      assert d.err.Some? || d.next != |EncodedRecord(c)|;
    }
  }

  /** A variant without padding comes back whole from its own size word. */
  lemma UnpaddedRoundTrip(c: CounterRecord, rest: seq<bv8>)
    requires Unpadded(c.Kind())
    ensures DecodeWithSizeWord(c.Kind(), EncodedRecord(c) + rest) == Decoded(c, None, |EncodedRecord(c)|)
  {
    var k := c.Kind();
    SizeWordPadding(k);
    FrameBytes(c, SizePrefix(k), rest);
    DecodeFrame(c, SizePrefix(k), rest, PackedWidth(LayoutOf(k)));
  }

  /** What Encode evidently means to write: the same header and fields with
      the wire length, uint32(binary.Size(c)), as the size word. */
  function EncodedRecordWithWireSize(c: CounterRecord): (out: seq<bv8>)
    ensures |out| == 8 + PackedWidth(LayoutOf(c.Kind()))
  {
    Frame(c, WireSizeWord(c.Kind()))
  }

  /** With the wire length as size word every variant reads back whole,
      the cursor just past it, whatever follows. */
  lemma WireSizeRoundTrip(c: CounterRecord, rest: seq<bv8>)
    ensures var out := EncodedRecordWithWireSize(c);
      DecodeWithSizeWord(c.Kind(), out + rest) == Decoded(c, None, |out|)
  {
    var k := c.Kind();
    SizeWords(k);
    FrameBytes(c, WireSizeWord(k), rest);
    DecodeFrame(c, WireSizeWord(k), rest, PackedWidth(LayoutOf(k)));
  }
}
