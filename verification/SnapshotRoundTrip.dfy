/** Saving and restoring a whole machine: RAM is scanned, everything goes through the file and the
    parser, RAM is rebuilt by any path, and the devices are restored and re-wired. */
module SnapshotRoundTrip {
  import opened Bytes
  import opened GuestMemory
  import opened DirtyBitmap
  import opened RestoreAgreement
  import LazyRestore
  import opened SnapshotFile
  import R = RegisterFile
  import V = VirtioDevices

  const PAGES_PER_MIB: nat := 256

  /** What a snapshot holds besides RAM, bitmap and the two devices. */
  ghost predicate ValidRest(s: Snapshot, pages: nat) {
    && ValidHeader(s.hdr) && s.hdr.xsaveSize == |s.xsave| == XSAVE_SIZE
    && |s.cpuid| == s.hdr.cpuidNent * CPUID_ENTRY && |s.msrs| == s.hdr.numMsrs * MSR_ENTRY
    && pages == s.hdr.ramMb * PAGES_PER_MIB && (pages + 7) / 8 < TWO32
  }

  /** save_snapshot and save_snapshot_file. */
  method Save(ram: Ram, rest: Snapshot, fs: R.Regs, net: R.Regs) returns (s: Snapshot)
    requires ValidRest(rest, |ram|) && R.ValidRegs(fs) && R.ValidRegs(net)
    ensures ValidSnapshot(s) && s.hdr.fs == SaveDevice(fs) && s.hdr.net == SaveDevice(net)
    ensures s.ram == Flat(ram) && MarksNonZero(s.bitmap, ram, |ram|)
  {
    hide Flat;
    var bitmap, _ := BuildBitmap(ram);
    var hdr := rest.hdr.(fs := SaveDevice(fs), net := SaveDevice(net), bitmapBytes := |bitmap|);
    s := rest.(hdr := hdr, bitmap := bitmap, ram := Flat(ram));
  }

  /** restore_snapshot_file's view of what was written. */
  method WriteAndParse(s: Snapshot) returns (r: Parsed)
    requires ValidSnapshot(s)
    ensures r == Ok(s)
  {
    hide DecodeHeader, FileBytes;
    r := ParseFile(FileBytes(s));
    FileRoundTrip(s);
  }

  /** RAM saved, written, parsed and rebuilt is RAM again, on every path at every moment: what the guest
      sees is the saved RAM with the completed writes on it. Both devices have their registers back,
      and a driver that was up has its rings wired again, from the saved registers. */
  method SaveAndRestore(ram: Ram, rest: Snapshot, fs: R.Regs, net: R.Regs, base: U64, fsBefore: V.Fs, netBefore: R.Regs)
    returns (image: Ram, bitmap: seq<Byte>, fsAfter: V.Fs, netAfter: R.Regs)
    requires ValidRest(rest, |ram|) && R.ValidRegs(fs) && R.ValidRegs(net)
    requires R.ValidRegs(fsBefore.regs) && R.ValidRegs(netBefore)
    ensures image == ram && Covers(bitmap, |ram|)
    ensures forall path, m, log | RestoredBy(path, image, bitmap, m, log) ::
      LoggedInRam(ram, log) && LazyRestore.Faithful(ram, log) && m == LazyRestore.Replay(ram, log)
    ensures fsAfter.regs == Carried(fs, fsBefore.regs) && netAfter == Carried(net, netBefore)
    ensures fsAfter.sent == fsBefore.sent + if V.DriverOk(fs.status) then V.Batch(base, fs.queues) else []
  {
    hide Flat, Pages, V.Batch, RestoredBy;
    var s := Save(ram, rest, fs, net);
    var r := WriteAndParse(s);
    image, bitmap := Pages(r.snap.ram), r.snap.bitmap;
    PagesOfFlat(ram);
    ScannedBitmapSound(ram, bitmap);
    forall path, m, log | RestoredBy(path, image, bitmap, m, log)
      ensures LoggedInRam(ram, log) && LazyRestore.Faithful(ram, log) && m == LazyRestore.Replay(ram, log)
    {
      EveryPathRestores(path, image, bitmap, m, log);
    }
    var regs := RestoreDevice(fsBefore.regs, r.snap.hdr.fs);
    netAfter := RestoreDevice(netBefore, r.snap.hdr.net);
    SameQueues(regs.queues, fs.queues);
    SameQueues(netAfter.queues, net.queues);
    fsAfter := V.Restore(base, true, fsBefore, regs);
  }
}
