/** The snapshot file: one writer and three readers (the restore parser, the clone loader and the
    kernel-module benchmark). */
module SnapshotFile {
  import opened Bytes
  import opened Common
  import R = RegisterFile

  const SNAP_MAGIC: U64 := 0x48594C54534E4150
  const XSAVE_SIZE: nat := 8192
  const HDR_SIZE: nat := 4000
  const KVM_BYTES: nat := 3792
  const CPUID_ENTRY: nat := 40
  const MSR_ENTRY: nat := 16
  const MIB: nat := 1024 * 1024

  /** Saved state of a virtio device: the 64-bit features are split into halves. */
  datatype DevState = DevState(
    status: U32, featuresLo: U32, featuresHi: U32, numVqs: U32, vq0: R.Queue, vq1: R.Queue)

  /** kvm stands for the vCPU, interrupt-chip, clock and timer structures, which are carried as bytes. */
  datatype Header = Header(
    magic: U64, version: U32, ramMb: U32,
    kvm: seq<Byte>,
    tscKhz: U32, cpuidNent: U32, numMsrs: U32, xsaveSize: U32,
    fs: DevState, net: DevState,
    mac: seq<Byte>, macPad: seq<Byte>, bitmapBytes: U32, bitmapPad: U32)

  datatype Snapshot = Snapshot(
    hdr: Header, xsave: seq<Byte>, cpuid: seq<Byte>, msrs: seq<Byte>, bitmap: seq<Byte>, ram: seq<Byte>)

  predicate ValidHeader(h: Header) {
    |h.kvm| == KVM_BYTES && |h.mac| == 6 && |h.macPad| == 2
  }

  /** What save_snapshot and save_snapshot_file put together. */
  predicate ValidSnapshot(s: Snapshot) {
    && ValidHeader(s.hdr)
    && s.hdr.xsaveSize == |s.xsave| == XSAVE_SIZE
    && |s.cpuid| == s.hdr.cpuidNent * CPUID_ENTRY
    && |s.msrs| == s.hdr.numMsrs * MSR_ENTRY
    && |s.bitmap| == s.hdr.bitmapBytes
    && |s.ram| == s.hdr.ramMb * MIB
  }

  // ---- Header codec -------------------------------------------------------

  function EncodeVq(v: R.Queue): (r: seq<Byte>)
    ensures |r| == 32
  {
    Put32(v.num) + Put32(v.ready) + Put64(v.desc) + Put64(v.driver) + Put64(v.device)
  }

  function DecodeVq(s: seq<Byte>, o: nat): R.Queue
    requires o + 32 <= |s|
  {
    R.Queue(Get32(s, o), Get32(s, o + 4), Get64(s, o + 8), Get64(s, o + 16), Get64(s, o + 24))
  }

  function EncodeDev(d: DevState): (r: seq<Byte>)
    ensures |r| == 80
  {
    Put32(d.status) + Put32(d.featuresLo) + Put32(d.featuresHi) + Put32(d.numVqs) + EncodeVq(d.vq0) + EncodeVq(d.vq1)
  }

  function DecodeDev(s: seq<Byte>, o: nat): DevState
    requires o + 80 <= |s|
  {
    DevState(Get32(s, o), Get32(s, o + 4), Get32(s, o + 8), Get32(s, o + 12), DecodeVq(s, o + 16), DecodeVq(s, o + 48))
  }

  function EncodeHeader(h: Header): (r: seq<Byte>)
    requires ValidHeader(h)
    ensures |r| == HDR_SIZE
  {
    (Put64(h.magic) + Put32(h.version) + Put32(h.ramMb)) + h.kvm
    + (Put32(h.tscKhz) + Put32(h.cpuidNent) + Put32(h.numMsrs) + Put32(h.xsaveSize))
    + EncodeDev(h.fs) + EncodeDev(h.net)
    + (h.mac + h.macPad + Put32(h.bitmapBytes) + Put32(h.bitmapPad))
  }

  /** memcpy(&snap.hdr, file, sizeof hdr) */
  function DecodeHeader(s: seq<Byte>): (h: Header)
    requires HDR_SIZE <= |s|
    ensures ValidHeader(h)
  {
    Header(Get64(s, 0), Get32(s, 8), Get32(s, 12), s[16..3808],
           Get32(s, 3808), Get32(s, 3812), Get32(s, 3816), Get32(s, 3820),
           DecodeDev(s, 3824), DecodeDev(s, 3904),
           s[3984..3990], s[3990..3992], Get32(s, 3992), Get32(s, 3996))
  }

  lemma HeaderPieces(s: seq<Byte>, h: Header)
    requires ValidHeader(h) && At(s, 0, EncodeHeader(h))
    ensures At(s, 0, Put64(h.magic) + Put32(h.version) + Put32(h.ramMb))
    ensures At(s, 16, h.kvm)
    ensures At(s, 3808, Put32(h.tscKhz) + Put32(h.cpuidNent) + Put32(h.numMsrs) + Put32(h.xsaveSize))
    ensures At(s, 3824, EncodeDev(h.fs)) && At(s, 3904, EncodeDev(h.net))
    ensures At(s, 3984, h.mac + h.macPad + Put32(h.bitmapBytes) + Put32(h.bitmapPad))
  {
    hide Put32, Put64, EncodeDev;
    var e := EncodeHeader(h);
    AtPart(s, 0, e, 0, Put64(h.magic) + Put32(h.version) + Put32(h.ramMb));
    AtPart(s, 0, e, 16, h.kvm);
    AtPart(s, 0, e, 3808, Put32(h.tscKhz) + Put32(h.cpuidNent) + Put32(h.numMsrs) + Put32(h.xsaveSize));
    AtPart(s, 0, e, 3824, EncodeDev(h.fs));
    AtPart(s, 0, e, 3904, EncodeDev(h.net));
    AtPart(s, 0, e, 3984, h.mac + h.macPad + Put32(h.bitmapBytes) + Put32(h.bitmapPad));
  }

  lemma DevPieces(d: DevState)
    ensures var e := EncodeDev(d);
      && At(e, 0, Put32(d.status)) && At(e, 4, Put32(d.featuresLo)) && At(e, 8, Put32(d.featuresHi))
      && At(e, 12, Put32(d.numVqs)) && At(e, 16, EncodeVq(d.vq0)) && At(e, 48, EncodeVq(d.vq1))
  {
    hide Put32, EncodeVq;
  }

  lemma VqPieces(v: R.Queue)
    ensures var e := EncodeVq(v);
      && At(e, 0, Put32(v.num)) && At(e, 4, Put32(v.ready))
      && At(e, 8, Put64(v.desc)) && At(e, 16, Put64(v.driver)) && At(e, 24, Put64(v.device))
  {
    hide Put32, Put64;
  }

  /** Queue v, saved at offset o of the header. */
  ghost predicate VqAt(e: seq<Byte>, o: nat, v: R.Queue) {
    && At(e, o, Put32(v.num)) && At(e, o + 4, Put32(v.ready))
    && At(e, o + 8, Put64(v.desc)) && At(e, o + 16, Put64(v.driver)) && At(e, o + 24, Put64(v.device))
  }

  /** Device state d, saved at offset o. */
  ghost predicate DevAt(e: seq<Byte>, o: nat, d: DevState) {
    && At(e, o, Put32(d.status)) && At(e, o + 4, Put32(d.featuresLo)) && At(e, o + 8, Put32(d.featuresHi))
    && At(e, o + 12, Put32(d.numVqs)) && VqAt(e, o + 16, d.vq0) && VqAt(e, o + 48, d.vq1)
  }

  lemma VqPlaced(e: seq<Byte>, o: nat, v: R.Queue)
    requires At(e, o, EncodeVq(v))
    ensures VqAt(e, o, v)
  {
    VqPieces(v);
    hide Put32, Put64, EncodeVq, At;
    AtPart(e, o, EncodeVq(v), 0, Put32(v.num));
    AtPart(e, o, EncodeVq(v), 4, Put32(v.ready));
    AtPart(e, o, EncodeVq(v), 8, Put64(v.desc));
    AtPart(e, o, EncodeVq(v), 16, Put64(v.driver));
    AtPart(e, o, EncodeVq(v), 24, Put64(v.device));
  }

  lemma DevPlaced(e: seq<Byte>, o: nat, d: DevState)
    requires At(e, o, EncodeDev(d))
    ensures DevAt(e, o, d)
  {
    DevPieces(d);
    hide Put32, EncodeVq, EncodeDev, At, VqAt;
    AtPart(e, o, EncodeDev(d), 0, Put32(d.status));
    AtPart(e, o, EncodeDev(d), 4, Put32(d.featuresLo));
    AtPart(e, o, EncodeDev(d), 8, Put32(d.featuresHi));
    AtPart(e, o, EncodeDev(d), 12, Put32(d.numVqs));
    AtPart(e, o, EncodeDev(d), 16, EncodeVq(d.vq0));
    AtPart(e, o, EncodeDev(d), 48, EncodeVq(d.vq1));
    VqPlaced(e, o + 16, d.vq0);
    VqPlaced(e, o + 48, d.vq1);
  }

  /** Every field of the header sits at the offset the structure gives it. */
  lemma HeaderLayout(h: Header)
    requires ValidHeader(h)
    ensures var e := EncodeHeader(h);
      && At(e, 0, Put64(h.magic)) && At(e, 8, Put32(h.version)) && At(e, 12, Put32(h.ramMb)) && At(e, 16, h.kvm)
      && At(e, 3808, Put32(h.tscKhz)) && At(e, 3812, Put32(h.cpuidNent)) && At(e, 3816, Put32(h.numMsrs))
      && At(e, 3820, Put32(h.xsaveSize)) && DevAt(e, 3824, h.fs) && DevAt(e, 3904, h.net)
      && At(e, 3984, h.mac) && At(e, 3990, h.macPad)
      && At(e, 3992, Put32(h.bitmapBytes)) && At(e, 3996, Put32(h.bitmapPad))
  {
    hide EncodeDev, Put32, Put64, DevAt;
    var e := EncodeHeader(h);
    assert At(e, 0, e);
    hide EncodeHeader;
    HeaderPieces(e, h);
    HeadFields(e, h);
    MidFields(e, h);
    DevPlaced(e, 3824, h.fs);
    DevPlaced(e, 3904, h.net);
    TailFields(e, h);
  }

  lemma HeadFields(s: seq<Byte>, h: Header)
    requires At(s, 0, Put64(h.magic) + Put32(h.version) + Put32(h.ramMb))
    ensures At(s, 0, Put64(h.magic)) && At(s, 8, Put32(h.version)) && At(s, 12, Put32(h.ramMb))
  {
    hide Put32, Put64, At;
    AtSplit(s, 0, Put64(h.magic) + Put32(h.version), Put32(h.ramMb));
    AtSplit(s, 0, Put64(h.magic), Put32(h.version));
  }

  lemma MidFields(s: seq<Byte>, h: Header)
    requires At(s, 3808, Put32(h.tscKhz) + Put32(h.cpuidNent) + Put32(h.numMsrs) + Put32(h.xsaveSize))
    ensures At(s, 3808, Put32(h.tscKhz)) && At(s, 3812, Put32(h.cpuidNent))
    ensures At(s, 3816, Put32(h.numMsrs)) && At(s, 3820, Put32(h.xsaveSize))
  {
    hide Put32, At;
    AtSplit(s, 3808, Put32(h.tscKhz) + Put32(h.cpuidNent) + Put32(h.numMsrs), Put32(h.xsaveSize));
    AtSplit(s, 3808, Put32(h.tscKhz) + Put32(h.cpuidNent), Put32(h.numMsrs));
    AtSplit(s, 3808, Put32(h.tscKhz), Put32(h.cpuidNent));
  }

  lemma TailFields(s: seq<Byte>, h: Header)
    requires ValidHeader(h) && At(s, 3984, h.mac + h.macPad + Put32(h.bitmapBytes) + Put32(h.bitmapPad))
    ensures At(s, 3984, h.mac) && At(s, 3990, h.macPad)
    ensures At(s, 3992, Put32(h.bitmapBytes)) && At(s, 3996, Put32(h.bitmapPad))
  {
    hide Put32, At;
    AtSplit(s, 3984, h.mac + h.macPad + Put32(h.bitmapBytes), Put32(h.bitmapPad));
    AtSplit(s, 3984, h.mac + h.macPad, Put32(h.bitmapBytes));
    AtSplit(s, 3984, h.mac, h.macPad);
  }

  lemma VqReads(s: seq<Byte>, o: nat, v: R.Queue)
    requires VqAt(s, o, v)
    ensures DecodeVq(s, o) == v
  {
    hide Put32, Get32, Put64, Get64, At;
    At32(s, o, v.num);
    At32(s, o + 4, v.ready);
    At64(s, o + 8, v.desc);
    At64(s, o + 16, v.driver);
    At64(s, o + 24, v.device);
    AtEnds(s, o + 24, Put64(v.device));
  }

  lemma AtEnds(s: seq<Byte>, o: nat, x: seq<Byte>)
    requires At(s, o, x)
    ensures o + |x| <= |s|
  {
  }

  lemma DevReads(s: seq<Byte>, o: nat, d: DevState)
    requires DevAt(s, o, d)
    ensures o + 80 <= |s| && DecodeDev(s, o) == d
  {
    AtEnds(s, o + 72, Put64(d.vq1.device));
    hide Put32, Get32, Put64, VqAt, DecodeVq, At;
    At32(s, o, d.status);
    At32(s, o + 4, d.featuresLo);
    At32(s, o + 8, d.featuresHi);
    At32(s, o + 12, d.numVqs);
    VqReads(s, o + 16, d.vq0);
    VqReads(s, o + 48, d.vq1);
  }

  /** The header survives being written and read back. */
  lemma HeaderRoundTrip(s: seq<Byte>, h: Header)
    requires ValidHeader(h) && HDR_SIZE <= |s| && At(s, 0, EncodeHeader(h))
    ensures DecodeHeader(s) == h
  {
    hide Put32, Get32, Put64, Get64, EncodeDev, DecodeDev, EncodeHeader, At, DevAt;
    HeaderPieces(s, h);
    HeadFields(s, h);
    MidFields(s, h);
    TailFields(s, h);
    At64(s, 0, h.magic);
    At32(s, 8, h.version);
    At32(s, 12, h.ramMb);
    At32(s, 3808, h.tscKhz);
    At32(s, 3812, h.cpuidNent);
    At32(s, 3816, h.numMsrs);
    At32(s, 3820, h.xsaveSize);
    DevPlaced(s, 3824, h.fs);
    DevReads(s, 3824, h.fs);
    DevPlaced(s, 3904, h.net);
    DevReads(s, 3904, h.net);
    At32(s, 3992, h.bitmapBytes);
    At32(s, 3996, h.bitmapPad);
    AtSlice(s, 16, h.kvm);
    AtSlice(s, 3984, h.mac);
    AtSlice(s, 3990, h.macPad);
  }

  // ---- Writer -------------------------------------------------------------

  /** The file, section after section. */
  function FileBytes(s: Snapshot): seq<Byte>
    requires ValidHeader(s.hdr)
  {
    EncodeHeader(s.hdr) + s.xsave + s.cpuid + s.msrs + s.bitmap + s.ram
  }

  // ---- Layout -------------------------------------------------------------

  /** Section boundaries computed from the header, without wrap-around. */
  function CpuidOff(h: Header): nat { HDR_SIZE + h.xsaveSize }
  function MsrOff(h: Header): nat { CpuidOff(h) + h.cpuidNent * CPUID_ENTRY }
  function BitmapOff(h: Header): nat { MsrOff(h) + h.numMsrs * MSR_ENTRY }
  function RamOff(h: Header): nat { BitmapOff(h) + h.bitmapBytes }
  function FileEnd(h: Header): nat { RamOff(h) + h.ramMb * MIB }

  predicate Complete(file: seq<Byte>) {
    HDR_SIZE <= |file| && FileEnd(DecodeHeader(file)) <= |file|
  }

  /** The sections at those boundaries. */
  function Cut(h: Header, file: seq<Byte>): Snapshot
    requires FileEnd(h) <= |file|
  {
    Snapshot(h, file[HDR_SIZE..CpuidOff(h)], file[CpuidOff(h)..MsrOff(h)], file[MsrOff(h)..BitmapOff(h)],
             file[BitmapOff(h)..RamOff(h)], file[RamOff(h)..FileEnd(h)])
  }

  function Sections(file: seq<Byte>): Snapshot
    requires Complete(file)
  {
    Cut(DecodeHeader(file), file)
  }

  // ---- Reader 1: restore_snapshot_file ------------------------------------

  /** Overflow: the xsave copy would run past its 8192-byte buffer. */
  datatype Parsed = Ok(snap: Snapshot) | Truncated | Overflow

  /** Pointer and remaining length advance section by section; any shortage gives up. */
  method ParseFile(file: seq<Byte>) returns (r: Parsed)
    ensures r.Overflow? <==> HDR_SIZE <= |file| && XSAVE_SIZE < DecodeHeader(file).xsaveSize <= |file| - HDR_SIZE
    ensures !r.Overflow? ==> (r.Ok? <==> Complete(file))
    ensures r.Ok? ==> r.snap == Sections(file)
  {
    hide DecodeHeader;
    var p, remain := 0, |file|;
    if remain < HDR_SIZE {
      return Truncated;
    }
    var hdr := DecodeHeader(file);
    p, remain := p + HDR_SIZE, remain - HDR_SIZE;

    if remain < hdr.xsaveSize {
      return Truncated;
    }
    if hdr.xsaveSize > XSAVE_SIZE {
      return Overflow;
    }
    var xsave := file[p..p + hdr.xsaveSize];
    p, remain := p + hdr.xsaveSize, remain - hdr.xsaveSize;

    var csz := hdr.cpuidNent * CPUID_ENTRY;
    if remain < csz {
      return Truncated;
    }
    var cpuid := file[p..p + csz];
    p, remain := p + csz, remain - csz;

    var msz := hdr.numMsrs * MSR_ENTRY;
    if remain < msz {
      return Truncated;
    }
    var msrs := file[p..p + msz];
    p, remain := p + msz, remain - msz;

    var bitmap: seq<Byte> := [];
    if hdr.bitmapBytes > 0 {
      if remain < hdr.bitmapBytes {
        return Truncated;
      }
      bitmap := file[p..p + hdr.bitmapBytes];
      p, remain := p + hdr.bitmapBytes, remain - hdr.bitmapBytes;
    }

    var ramSize := hdr.ramMb * MIB;
    if remain < ramSize {
      return Truncated;
    }
    return Ok(Snapshot(hdr, xsave, cpuid, msrs, bitmap, file[p..p + ramSize]));
  }

  // ---- Reader 2: the clone loader -----------------------------------------

  /** read(fd, buf, n) at offset o into a buffer that is otherwise zero. */
  function ReadAt(file: seq<Byte>, o: nat, n: nat): (r: seq<Byte>)
    ensures |r| == n
    ensures o + n <= |file| ==> r == file[o..o + n]
  {
    if o + n <= |file| then file[o..o + n]
    else if o < |file| then file[o..] + seq(n - (|file| - o), _ => 0)
    else seq(n, _ => 0)
  }

  datatype Loaded = Refused | Clobbered | Loaded(snap: Snapshot)

  /** What one read of n bytes at offset o delivers. */
  function Got(file: seq<Byte>, o: nat, n: nat): nat
    requires o <= |file|
  {
    if o + n <= |file| then n else |file| - o
  }

  /** One read, and the file offset after it. */
  method ReadSection(file: seq<Byte>, pos: nat, n: nat) returns (bytes: seq<Byte>, next: nat)
    requires pos <= |file|
    ensures |bytes| == n && pos <= next <= |file|
    ensures pos + n <= |file| ==> bytes == file[pos..pos + n] && next == pos + n
  {
    bytes, next := ReadAt(file, pos, n), pos + Got(file, pos, n);
  }

  /** One sequential read per section; the file offset advances by what was actually read. Nothing is
      checked but the header: a cut-off file is taken as it is, and a section of xsave bytes longer
      than its buffer is written past its end. */
  method CloneLoad(file: seq<Byte>) returns (r: Loaded)
    ensures r.Refused? <==> |file| < HDR_SIZE
    ensures r.Clobbered? <==>
      HDR_SIZE <= |file| && XSAVE_SIZE < DecodeHeader(file).xsaveSize && XSAVE_SIZE < |file| - HDR_SIZE
    ensures r.Loaded? && Complete(file) ==> r.snap == Sections(file)
    ensures r.Loaded? ==> r.snap.hdr == DecodeHeader(file) && |r.snap.ram| == r.snap.hdr.ramMb * MIB
  {
    hide DecodeHeader;
    if |file| < HDR_SIZE {
      return Refused;
    }
    var hdr := DecodeHeader(file);
    if Got(file, HDR_SIZE, hdr.xsaveSize) > XSAVE_SIZE {
      return Clobbered;
    }
    var xsave, pos := ReadSection(file, HDR_SIZE, hdr.xsaveSize);
    var cpuid, msrs, ram;
    cpuid, pos := ReadSection(file, pos, hdr.cpuidNent * CPUID_ENTRY);
    msrs, pos := ReadSection(file, pos, hdr.numMsrs * MSR_ENTRY);
    var bitmap: seq<Byte> := [];
    if hdr.bitmapBytes > 0 {
      bitmap, pos := ReadSection(file, pos, hdr.bitmapBytes);
    }
    ram, pos := ReadSection(file, pos, hdr.ramMb * MIB);
    return Loaded(Snapshot(hdr, xsave, cpuid, msrs, bitmap, ram));
  }

  // ---- Reader 3: the kernel-module benchmark ------------------------------

  datatype Layout = Layout(bitmapOff: nat, bitmapSize: nat, ramOff: nat, ramSize: nat)
  datatype Located = Found(layout: Layout) | Rejected

  /** Header size plus xsave size is a 32-bit sum, the rest is 64-bit arithmetic. */
  function Locate(magic: U64, ramMb: U32, cpuidNent: U32, numMsrs: U32, xsaveSize: U32, bmBytes: U32, size: nat)
    : Located
  {
    if magic != SNAP_MAGIC then Rejected
    else
      var bmOff := (((HDR_SIZE + xsaveSize) % TWO32 + cpuidNent * CPUID_ENTRY) % TWO64 + numMsrs * MSR_ENTRY) % TWO64;
      var ramOff := (bmOff + bmBytes) % TWO64;
      var ramSize := ramMb * MIB;
      if (ramOff + ramSize) % TWO64 > size then Rejected
      else Found(Layout(bmOff, bmBytes, ramOff, ramSize))
  }

  /** Fields are fetched at fixed byte offsets rather than through the header struct. */
  function LocateSections(file: seq<Byte>): Located {
    if |file| < HDR_SIZE then Rejected
    else
      Locate(Get64(file, 0), Get32(file, 12), Get32(file, 3812), Get32(file, 3816), Get32(file, 3820),
             Get32(file, 3992), |file|)
  }

  /** The layout the writer used. */
  function TrueLayout(h: Header): Layout {
    Layout(BitmapOff(h), h.bitmapBytes, RamOff(h), h.ramMb * MIB)
  }

  /** How much the 32-bit sum loses. */
  function Lost(h: Header): nat {
    if HDR_SIZE + h.xsaveSize < TWO32 then 0 else TWO32
  }

  lemma FileEndFits(h: Header)
    ensures FileEnd(h) < TWO64
  {
  }

  /** Past the first sum nothing wraps. */
  lemma NothingElseWraps(h: Header)
    ensures (HDR_SIZE + h.xsaveSize) % TWO32 == CpuidOff(h) - Lost(h)
    ensures (CpuidOff(h) - Lost(h) + h.cpuidNent * CPUID_ENTRY) % TWO64 == MsrOff(h) - Lost(h)
    ensures (MsrOff(h) - Lost(h) + h.numMsrs * MSR_ENTRY) % TWO64 == BitmapOff(h) - Lost(h)
    ensures (BitmapOff(h) - Lost(h) + h.bitmapBytes) % TWO64 == RamOff(h) - Lost(h)
    ensures (RamOff(h) - Lost(h) + h.ramMb * MIB) % TWO64 == FileEnd(h) - Lost(h)
  {
    FileEndFits(h);
    SmallMod(MsrOff(h) - Lost(h), TWO64);
    SmallMod(BitmapOff(h) - Lost(h), TWO64);
    SmallMod(RamOff(h) - Lost(h), TWO64);
    SmallMod(FileEnd(h) - Lost(h), TWO64);
  }

  lemma LocateIs(h: Header, size: nat)
    requires h.magic == SNAP_MAGIC
    ensures RamOff(h) >= BitmapOff(h) >= Lost(h)
    ensures Locate(h.magic, h.ramMb, h.cpuidNent, h.numMsrs, h.xsaveSize, h.bitmapBytes, size) ==
      if FileEnd(h) - Lost(h) <= size
      then Found(Layout(BitmapOff(h) - Lost(h), h.bitmapBytes, RamOff(h) - Lost(h), h.ramMb * MIB)) else Rejected
  {
    NothingElseWraps(h);
    assert BitmapOff(h) >= CpuidOff(h) >= Lost(h);
    hide CpuidOff, MsrOff, BitmapOff, RamOff, FileEnd, Lost;
  }

  lemma SmallMod(x: nat, n: nat)
    requires x < n
    ensures x % n == x
  {
  }

  lemma LocatorFields(file: seq<Byte>)
    requires HDR_SIZE <= |file|
    ensures var h := DecodeHeader(file);
      LocateSections(file) == Locate(h.magic, h.ramMb, h.cpuidNent, h.numMsrs, h.xsaveSize, h.bitmapBytes, |file|)
  {
    hide Get32, Get64, DecodeDev, Locate;
  }

  /** On a file with the right magic the benchmark accepts exactly the complete files and finds the
      writer's sections in them, as long as header plus xsave fits 32 bits. */
  lemma LocatorsAgree(file: seq<Byte>)
    requires HDR_SIZE <= |file| && DecodeHeader(file).magic == SNAP_MAGIC
    requires HDR_SIZE + DecodeHeader(file).xsaveSize < TWO32
    ensures LocateSections(file) == if Complete(file) then Found(TrueLayout(DecodeHeader(file))) else Rejected
  {
    hide DecodeHeader, LocateSections, Locate;
    LocatorFields(file);
    LocateIs(DecodeHeader(file), |file|);
  }

  /** Beyond that the sum wraps: on a complete file the layout found is the writer's exactly when it fits. */
  lemma LocatorExact(file: seq<Byte>)
    requires Complete(file) && DecodeHeader(file).magic == SNAP_MAGIC
    ensures LocateSections(file) == Found(TrueLayout(DecodeHeader(file))) <==>
      HDR_SIZE + DecodeHeader(file).xsaveSize < TWO32
  {
    hide DecodeHeader, LocateSections, Locate;
    LocatorFields(file);
    LocateIs(DecodeHeader(file), |file|);
  }

  // ---- Round trip ---------------------------------------------------------

  lemma FilePieces(s: Snapshot)
    requires ValidSnapshot(s)
    ensures var f := FileBytes(s);
      var o := HDR_SIZE + |s.xsave|;
      && |f| == o + |s.cpuid| + |s.msrs| + |s.bitmap| + |s.ram|
      && f[..HDR_SIZE] == EncodeHeader(s.hdr)
      && f[HDR_SIZE..o] == s.xsave
      && f[o..o + |s.cpuid|] == s.cpuid
      && f[o + |s.cpuid|..o + |s.cpuid| + |s.msrs|] == s.msrs
      && f[o + |s.cpuid| + |s.msrs|..o + |s.cpuid| + |s.msrs| + |s.bitmap|] == s.bitmap
      && f[o + |s.cpuid| + |s.msrs| + |s.bitmap|..] == s.ram
  {
    hide EncodeHeader;
  }

  /** Reading back a written snapshot gives every section as it was saved. */
  lemma FileRoundTrip(s: Snapshot)
    requires ValidSnapshot(s)
    ensures Complete(FileBytes(s)) && Sections(FileBytes(s)) == s && FileEnd(s.hdr) == |FileBytes(s)|
    ensures DecodeHeader(FileBytes(s)) == s.hdr
  {
    hide EncodeHeader, DecodeHeader, FileBytes;
    HeaderReadsBack(s);
    CutsBack(s);
  }

  lemma HeaderReadsBack(s: Snapshot)
    requires ValidSnapshot(s)
    ensures |FileBytes(s)| >= HDR_SIZE && DecodeHeader(FileBytes(s)) == s.hdr
  {
    hide EncodeHeader, DecodeHeader;
    var f, e := FileBytes(s), EncodeHeader(s.hdr);
    assert At(f, 0, e);
    HeaderRoundTrip(f, s.hdr);
  }

  lemma CutsBack(s: Snapshot)
    requires ValidSnapshot(s)
    ensures FileEnd(s.hdr) == |FileBytes(s)| && Cut(s.hdr, FileBytes(s)) == s
  {
    FilePieces(s);
    hide EncodeHeader, FileBytes;
    var f := FileBytes(s);
    assert f[FileEnd(s.hdr) - |s.ram|..FileEnd(s.hdr)] == f[FileEnd(s.hdr) - |s.ram|..];
  }

  // ---- Device state -------------------------------------------------------

  function SaveDevice(d: R.Regs): DevState
    requires R.ValidRegs(d)
  {
    DevState(d.status, d.drvFeatures % TWO32, d.drvFeatures / TWO32, R.NUM_QUEUES, d.queues[0], d.queues[1])
  }

  function SavedQueue(h: DevState, i: nat): R.Queue
    requires i < R.NUM_QUEUES
  {
    if i == 0 then h.vq0 else h.vq1
  }

  /** restore_snapshot's assignments: selectors, interrupt status and the queues beyond the saved count
      keep what they had. */
  method RestoreDevice(d: R.Regs, h: DevState) returns (r: R.Regs)
    requires R.ValidRegs(d)
    ensures R.ValidRegs(r)
    ensures r == d.(status := h.status, drvFeatures := h.featuresLo + TWO32 * h.featuresHi, queues := r.queues)
    ensures forall i | 0 <= i < R.NUM_QUEUES :: r.queues[i] == if i < h.numVqs then SavedQueue(h, i) else d.queues[i]
  {
    Pow32();
    OrDisjoint(h.featuresLo, h.featuresHi, 32);
    var vqs := d.queues;
    var i := 0;
    while i < R.NUM_QUEUES && i < h.numVqs
      invariant 0 <= i <= R.NUM_QUEUES && i <= h.numVqs && |vqs| == R.NUM_QUEUES
      invariant forall j | 0 <= j < i :: vqs[j] == SavedQueue(h, j)
      invariant forall j | i <= j < R.NUM_QUEUES :: vqs[j] == d.queues[j]
    {
      vqs := vqs[i := SavedQueue(h, i)];
      i := i + 1;
    }
    r := d.(status := h.status, drvFeatures := Or(h.featuresLo, h.featuresHi * TWO32), queues := vqs);
  }

  /** old with what a snapshot carries of d. */
  function Carried(d: R.Regs, prev: R.Regs): R.Regs {
    prev.(status := d.status, drvFeatures := d.drvFeatures, queues := d.queues)
  }

  lemma SameQueues(qs: seq<R.Queue>, qs': seq<R.Queue>)
    requires |qs| == |qs'| == R.NUM_QUEUES && qs[0] == qs'[0] && qs[1] == qs'[1]
    ensures qs == qs'
  {
  }

  /** Save, write, parse and restore: status, features and queue registers of both devices come
      back whatever the restored devices held before. */
  method SaveWriteRestore(s: Snapshot, fs: R.Regs, net: R.Regs, oldFs: R.Regs, oldNet: R.Regs)
    returns (fs': R.Regs, net': R.Regs)
    requires R.ValidRegs(fs) && R.ValidRegs(net) && R.ValidRegs(oldFs) && R.ValidRegs(oldNet)
    requires ValidSnapshot(s) && s.hdr.fs == SaveDevice(fs) && s.hdr.net == SaveDevice(net)
    ensures fs' == Carried(fs, oldFs) && net' == Carried(net, oldNet)
  {
    hide DecodeHeader, FileBytes;
    var parsed := ParseFile(FileBytes(s));
    FileRoundTrip(s);
    fs' := RestoreDevice(oldFs, parsed.snap.hdr.fs);
    net' := RestoreDevice(oldNet, parsed.snap.hdr.net);
    SameQueues(fs'.queues, fs.queues);
    SameQueues(net'.queues, net.queues);
  }
}
