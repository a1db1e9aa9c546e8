/** The example monitor's IDE controller: PIO sector reads and writes of a flat disk image. */
module IdeDisk {
  import opened Bytes

  const WORDS: nat := 256

  /** 512 bytes as 256 little-endian words. */
  type Sector = s: seq<U16> | |s| == WORDS witness seq(WORDS, _ => 0)

  const READ: Byte := 0x20
  const WRITE: Byte := 0x30
  const IDENTIFY: Byte := 0xec

  /** The controller's registers, its sector buffer and the image. A trailing part of the image shorter
      than a sector is never addressed and is not represented; without an image there are no sectors. */
  datatype Ide = Ide(
    nsect: Byte, low: Byte, mid: Byte, high: Byte, head: Byte,
    lba: nat, buf: Sector, pos: nat, len: nat, status: Byte, error: Byte,
    disk: seq<Sector>)

  /** The 28-bit address in the registers. */
  function Address(v: Ide): nat {
    0x100_0000 * (v.head % 16) + 0x1_0000 * v.high + 0x100 * v.mid + v.low
  }

  /** Outside the image the buffer is cleared and position and length stay as they were. */
  function Load(v: Ide): Ide {
    if v.lba < |v.disk| then v.(buf := v.disk[v.lba], pos := 0, len := WORDS)
    else v.(buf := seq(WORDS, _ => 0))
  }

  /** Outside the image nothing is written. */
  function Store(v: Ide): Ide {
    if v.lba < |v.disk| then v.(disk := v.disk[v.lba := v.buf]) else v
  }

  function Identity(sectors: nat): Sector {
    seq(WORDS, i =>
      if i == 0 then 0x40 else if i == 49 then 0x200
      else if i == 60 then sectors % TWO16
      else if i == 61 then sectors / TWO16 % TWO16 else 0)
  }

  /** A count of zero is taken as one. */
  function Count(nsect: Byte): Byte {
    if nsect == 0 then 1 else nsect
  }

  function Command(v: Ide, cmd: Byte): Ide {
    if cmd == READ then Load(v.(nsect := Count(v.nsect), lba := Address(v))).(status := 0x58, error := 0)
    else if cmd == WRITE then
      v.(nsect := Count(v.nsect), lba := Address(v), pos := 0, len := WORDS, status := 0x58, error := 0)
    else if cmd == IDENTIFY then v.(buf := Identity(|v.disk|), pos := 0, len := WORDS, status := 0x58, error := 0)
    else if cmd == 0x08 || cmd == 0xef || cmd == 0x00 || cmd == 0x70 then v.(status := 0x50, error := 0)
    else v.(status := 0x51, error := 4)
  }

  datatype Word = Word(value: U16) | Overrun

  function Take(v: Ide): (Ide, Word) {
    (v.(pos := v.pos + 1), if v.pos < WORDS then Word(v.buf[v.pos]) else Overrun)
  }

  /** One word read from the data port; Overrun when the position has left the buffer. */
  function DataIn(v: Ide): (Ide, Word) {
    if v.pos < v.len then Take(v)
    else if v.nsect == 0 then (v, Word(0))
    else if v.nsect == 1 then (v.(nsect := 0, status := 0x50, len := 0), Word(0))
    else Take(Load(v.(nsect := v.nsect - 1, lba := (v.lba + 1) % TWO32)))
  }

  /** A full buffer goes to the image while sectors are due. */
  function Flush(v: Ide): Ide {
    if v.pos != WORDS then v
    else if v.nsect == 0 then v.(status := 0x50, len := 0)
    else
      var w := Store(v).(nsect := v.nsect - 1);
      if w.nsect > 0 then w.(lba := (v.lba + 1) % TWO32, pos := 0, len := WORDS, status := 0x58)
      else w.(status := 0x50, len := 0)
  }

  /** One word written to the data port. */
  function DataOut(v: Ide, x: U16): Ide {
    Flush(if v.pos < WORDS then v.(buf := v.buf[v.pos := x], pos := v.pos + 1) else v)
  }

  // ---- The controller -----------------------------------------------------

  class Controller {
    var nsect: Byte
    var low: Byte
    var mid: Byte
    var high: Byte
    var head: Byte
    var lba: nat
    const data: array<U16>
    var pos: nat
    var len: nat
    var status: Byte
    var error: Byte
    var disk: seq<Sector>

    ghost predicate Valid() reads this {
      data.Length == WORDS && len <= WORDS && lba < TWO32
    }

    ghost function View(): Ide
      requires Valid()
      reads this, data
    {
      Ide(nsect, low, mid, high, head, lba, data[..], pos, len, status, error, disk)
    }

    constructor (disk: seq<Sector>)
      ensures Valid() && fresh(data) && this.disk == disk
    {
      data := new U16[WORDS];
      nsect, low, mid, high, head, lba, pos, len, status, error := 0, 0, 0, 0, 0, 0, 0, 0, 0x50, 0;
      this.disk := disk;
    }

    method LoadSector()
      requires Valid()
      modifies this`pos, this`len, data
      ensures Valid() && View() == Load(old(View()))
    {
      var inside := lba < |disk|;
      for i := 0 to WORDS
        invariant Valid() && pos == old(pos) && len == old(len)
        invariant forall j | 0 <= j < i :: data[j] == if inside then disk[lba][j] else 0
      {
        data[i] := if inside then disk[lba][i] else 0;
      }
      if inside {
        pos, len := 0, WORDS;
        assert data[..] == disk[lba];
      } else {
        assert data[..] == seq(WORDS, _ => 0);
      }
    }

    method StoreSector()
      requires Valid()
      modifies this`disk
      ensures Valid() && View() == Store(old(View()))
    {
      if lba < |disk| {
        disk := disk[lba := data[..]];
      }
    }

    method IdentifyDrive()
      requires Valid()
      modifies this, data
      ensures Valid() && View() == Command(old(View()), IDENTIFY)
    {
      for i := 0 to WORDS
        invariant Valid() && forall j | 0 <= j < i :: data[j] == 0
        invariant unchanged(this)
      {
        data[i] := 0;
      }
      data[0], data[49] := 0x40, 0x200;
      data[60], data[61] := |disk| % TWO16, |disk| / TWO16 % TWO16;
      assert data[..] == Identity(|disk|);
      pos, len, status, error := 0, WORDS, 0x58, 0;
    }

    method IdeCommand(cmd: Byte)
      requires Valid()
      modifies this, data
      ensures Valid() && View() == Command(old(View()), cmd)
    {
      if cmd == READ || cmd == WRITE {
        lba := 0x100_0000 * (head % 16) + 0x1_0000 * high + 0x100 * mid + low;
        if nsect == 0 {
          nsect := 1;
        }
        if cmd == READ {
          LoadSector();
        } else {
          pos, len := 0, WORDS;
        }
        status, error := 0x58, 0;
      } else if cmd == IDENTIFY {
        IdentifyDrive();
      } else if cmd == 0x08 || cmd == 0xef || cmd == 0x00 || cmd == 0x70 {
        status, error := 0x50, 0;
      } else {
        status, error := 0x51, 4;
      }
    }

    method IdeDataIn() returns (w: Word)
      requires Valid()
      modifies this, data
      ensures Valid() && (View(), w) == DataIn(old(View()))
    {
      if pos >= len {
        if nsect == 0 {
          return Word(0);
        }
        nsect := nsect - 1;
        if nsect == 0 {
          status, len := 0x50, 0;
          return Word(0);
        }
        lba := (lba + 1) % TWO32;
        LoadSector();
      }
      w := if pos < WORDS then Word(data[pos]) else Overrun;
      pos := pos + 1;
    }

    method IdeDataOut(x: U16)
      requires Valid()
      modifies this, data
      ensures Valid() && View() == DataOut(old(View()), x)
    {
      if pos < WORDS {
        data[pos] := x;
        pos := pos + 1;
        assert data[..] == old(data[..])[old(pos) := x];
      }
      if pos == WORDS {
        if nsect > 0 {
          StoreSector();
          nsect := nsect - 1;
          if nsect > 0 {
            lba := (lba + 1) % TWO32;
            pos, len, status := 0, WORDS, 0x58;
          } else {
            status, len := 0x50, 0;
          }
        } else {
          status, len := 0x50, 0;
        }
      }
    }
  }

  // ---- Transfers ----------------------------------------------------------

  /** A stream of words written to the data port. */
  function OutAll(v: Ide, words: seq<U16>): Ide {
    if words == [] then v else DataOut(OutAll(v, words[..|words| - 1]), words[|words| - 1])
  }

  /** k words read from the data port. */
  function InAll(v: Ide, k: nat): (r: (Ide, seq<Word>))
    ensures |r.1| == k
  {
    if k == 0 then (v, [])
    else
      var (u, ws) := InAll(v, k - 1);
      var (t, w) := DataIn(u);
      (t, ws + [w])
  }

  /** The i-th sector of a stream of words. */
  function Part(words: seq<U16>, i: nat): Sector
    requires WORDS * (i + 1) <= |words|
  {
    words[WORDS * i..WORDS * (i + 1)]
  }

  /** The first i sectors from start hold the words; every other sector is as before. */
  ghost predicate Wrote(before: seq<Sector>, after: seq<Sector>, start: nat, words: seq<U16>, i: nat) {
    && |after| == |before| && WORDS * i <= |words|
    && forall s | 0 <= s < |before| ::
         after[s] == if start <= s < start + i then Part(words, s - start) else before[s]
  }

  /** The transfer asked for stays inside the image. */
  predicate InImage(v: Ide) {
    Address(v) + Count(v.nsect) <= |v.disk|
  }

  /** What holds after the words so far of a write of n sectors. */
  ghost predicate WriteState(v: Ide, before: seq<Sector>, start: nat, n: nat, words: seq<U16>) {
    var i, p := |words| / WORDS, |words| % WORDS;
    && i <= n
    && Wrote(before, v.disk, start, words, i)
    && v.nsect == n - i
    && if i < n then
         v.lba == start + i && v.pos == p && v.len == WORDS && v.status == 0x58 && v.buf[..p] == words[WORDS * i..]
       else v.pos == WORDS && v.len == 0 && v.status == 0x50
  }

  /** A longer stream still has the sectors of its prefix. */
  lemma WroteExtends(before: seq<Sector>, after: seq<Sector>, start: nat, words: seq<U16>, i: nat, x: U16)
    requires Wrote(before, after, start, words, i)
    ensures Wrote(before, after, start, words + [x], i)
  {
    assert forall j: nat | j < i :: Part(words + [x], j) == Part(words, j);
  }

  /** Storing the next sector extends what was written by one; outside the image there is nothing to
      store it in. */
  lemma WroteNext(before: seq<Sector>, after: seq<Sector>, start: nat, words: seq<U16>, i: nat, sector: Sector)
    requires Wrote(before, after, start, words, i)
    requires |words| == WORDS * (i + 1) && sector == words[WORDS * i..]
    ensures Wrote(before, if start + i < |before| then after[start + i := sector] else after, start, words, i + 1)
  {
    assert sector == Part(words, i);
  }

  /** One more word in the buffer. */
  lemma BufferNext(buf: Sector, words: seq<U16>, i: nat, p: nat, x: U16)
    requires p < WORDS && |words| == WORDS * i + p && buf[..p] == words[WORDS * i..]
    ensures buf[p := x][..p + 1] == (words + [x])[WORDS * i..]
  {
    assert buf[p := x][..p + 1] == buf[..p] + [x];
    assert (words + [x])[WORDS * i..] == words[WORDS * i..] + [x];
  }

  lemma NextWord(k: nat)
    ensures var i, p := k / WORDS, k % WORDS;
      if p + 1 == WORDS then (k + 1) / WORDS == i + 1 && (k + 1) % WORDS == 0
      else (k + 1) / WORDS == i && (k + 1) % WORDS == p + 1
  {
  }

  lemma WriteStep(v: Ide, before: seq<Sector>, start: nat, n: nat, words: seq<U16>, x: U16)
    requires WriteState(v, before, start, n, words) && |words| < WORDS * n
    requires n < 256 && start + n < TWO32
    ensures WriteState(DataOut(v, x), before, start, n, words + [x])
  {
    var i, p, more := |words| / WORDS, |words| % WORDS, words + [x];
    WroteExtends(before, v.disk, start, words, i, x);
    BufferNext(v.buf, words, i, p, x);
    NextWord(|words|);
    if p + 1 == WORDS {
      var buf := v.buf[p := x];
      assert buf == buf[..WORDS];
      WroteNext(before, v.disk, start, more, i, buf);
      hide Wrote;
      assert more[WORDS * (i + 1)..] == [];
    } else {
      hide Wrote;
    }
  }

  /** A write command followed by at most its words. */
  lemma {:induction false} WriteStream(v: Ide, words: seq<U16>)
    requires |words| <= WORDS * Count(v.nsect)
    ensures WriteState(OutAll(Command(v, WRITE), words), v.disk, Address(v), Count(v.nsect), words)
  {
    hide DataOut;
    var n, c := Count(v.nsect), Command(v, WRITE);
    assert Address(v) < 0x1000_0000;
    if words == [] {
      assert c.buf[..0] == words[0..];
    } else {
      var k := |words| - 1;
      WriteStream(v, words[..k]);
      hide Command, WriteState;
      assert words == words[..k] + [words[k]];
      WriteStep(OutAll(c, words[..k]), v.disk, Address(v), n, words[..k], words[k]);
    }
  }

  /** All words of a write put them, sector by sector, where the registers say and change no other sector;
      those for sectors past the end of the image are dropped. The controller is then ready with nothing
      due. */
  lemma WriteStores(v: Ide, words: seq<U16>)
    requires |words| == WORDS * Count(v.nsect)
    ensures var u := OutAll(Command(v, WRITE), words);
      Wrote(v.disk, u.disk, Address(v), words, Count(v.nsect)) && u.nsect == 0 && u.pos == WORDS && u.status == 0x50
  {
    WriteStream(v, words);
  }

  /** Surplus words after that change nothing on the image. */
  lemma {:induction false} SurplusIgnored(v: Ide, words: seq<U16>, extra: seq<U16>)
    requires |words| == WORDS * Count(v.nsect)
    ensures OutAll(Command(v, WRITE), words + extra).disk == OutAll(Command(v, WRITE), words).disk
    ensures OutAll(Command(v, WRITE), words + extra).nsect == 0 && OutAll(Command(v, WRITE), words + extra).pos == WORDS
  {
    hide Command, WriteState;
    if extra == [] {
      WriteStores(v, words);
      assert words + extra == words;
    } else {
      var k := |extra| - 1;
      SurplusIgnored(v, words, extra[..k]);
      var all := words + extra;
      assert all[..|all| - 1] == words + extra[..k];
    }
  }

  /** What holds after k words of a read of due sectors, the first n of which are in the image. */
  ghost predicate ReadState(v: Ide, r: seq<Word>, disk: seq<Sector>, start: nat, n: nat, due: nat) {
    var i := if |r| == 0 then 0 else (|r| - 1) / WORDS;
    && v.disk == disk && i < n <= due && start + n <= |disk| && v.nsect == due - i && v.lba == start + i
    && v.pos == |r| - WORDS * i && v.len == WORDS && v.buf == disk[start + i]
    && v.status == 0x58 && v.error == 0
    && ReadOff(r, disk, start)
  }

  /** The words read are those of the image from a sector on. */
  ghost predicate ReadOff(r: seq<Word>, disk: seq<Sector>, start: nat) {
    forall j | 0 <= j < |r| :: start + j / WORDS < |disk| && r[j] == Word(disk[start + j / WORDS][j % WORDS])
  }

  lemma ReadStep(v: Ide, r: seq<Word>, disk: seq<Sector>, start: nat, n: nat, due: nat)
    requires ReadState(v, r, disk, start, n, due) && |r| < WORDS * n && due < 256 && start + due < TWO32
    ensures var (u, w) := DataIn(v); ReadState(u, r + [w], disk, start, n, due)
  {
    var i := if |r| == 0 then 0 else (|r| - 1) / WORDS;
    var k := |r|;
    if v.pos < WORDS {
      assert k / WORDS == i && k % WORDS == v.pos;
    } else {
      assert k == WORDS * (i + 1);
      assert k / WORDS == i + 1 && k % WORDS == 0;
    }
  }

  /** A read command that starts in the image, followed by at most the words the image has for it. */
  lemma {:induction false} ReadStream(v: Ide, n: nat, k: nat)
    requires 0 < n <= Count(v.nsect) && Address(v) + n <= |v.disk| && k <= WORDS * n
    ensures var (u, r) := InAll(Command(v, READ), k); ReadState(u, r, v.disk, Address(v), n, Count(v.nsect))
  {
    if k > 0 {
      ReadStream(v, n, k - 1);
      assert Address(v) < 0x1000_0000;
      hide Command, ReadState, DataIn, Address;
      var (u, r) := InAll(Command(v, READ), k - 1);
      ReadStep(u, r, v.disk, Address(v), n, Count(v.nsect));
    }
  }

  // ---- Reads that leave the image -----------------------------------------

  lemma {:induction false} WordsStay(v: Ide, k: nat, n: nat, j: nat)
    requires j < k <= n
    ensures InAll(v, n).1[j] == InAll(v, k).1[j]
    decreases n
  {
    hide DataIn;
    if k < n {
      WordsStay(v, k, n - 1, j);
    }
  }

  /** At the end of the image the buffer position stays behind the buffer. */
  lemma LeavesImage(v: Ide, r: seq<Word>, disk: seq<Sector>, start: nat, n: nat, due: nat)
    requires ReadState(v, r, disk, start, n, due) && |r| == WORDS * n && n < due && start + n == |disk| < TWO32
    ensures DataIn(v).1 == Overrun
  {
    assert (WORDS * n - 1) / WORDS == n - 1;
    hide ReadOff;
  }

  /** A read that starts in the image delivers a word every time, and the image's, exactly when the whole
      transfer lies in the image; otherwise the first word past its end is fetched from beyond the
      sector buffer. */
  lemma ReadsWordsIff(v: Ide)
    requires Address(v) < |v.disk|
    ensures var r := InAll(Command(v, READ), WORDS * Count(v.nsect)).1;
      (forall j | 0 <= j < |r| :: r[j] != Overrun) <==> Address(v) + Count(v.nsect) <= |v.disk|
  {
    var c, n := Count(v.nsect), |v.disk| - Address(v);
    if c <= n {
      ReadStream(v, c, WORDS * c);
      hide InAll, Command, Address;
    } else {
      ReadStream(v, n, WORDS * n);
      assert |v.disk| < TWO32;
      hide Command, DataIn, ReadState;
      var (u, r) := InAll(Command(v, READ), WORDS * n);
      LeavesImage(u, r, v.disk, Address(v), n, c);
      var k := WORDS * n;
      assert InAll(Command(v, READ), k + 1).1[k] == Overrun;
      hide InAll;
      WordsStay(Command(v, READ), k + 1, WORDS * c, k);
    }
  }

  /** The buffer is cleared and no sector still to come is in the image. */
  ghost predicate Outside(v: Ide) {
    (forall i | 0 <= i < WORDS :: v.buf[i] == 0) && |v.disk| <= v.lba && v.lba + v.nsect < TWO32
  }

  lemma OutsideStep(v: Ide)
    requires Outside(v)
    ensures Outside(DataIn(v).0) && (DataIn(v).1 == Word(0) || DataIn(v).1 == Overrun)
  {
  }

  lemma {:induction false} OutsideStream(v: Ide, k: nat)
    requires Outside(v)
    ensures var (u, r) := InAll(v, k); Outside(u) && forall j | 0 <= j < k :: r[j] == Word(0) || r[j] == Overrun
  {
    hide DataIn, Outside;
    if k > 0 {
      OutsideStream(v, k - 1);
      OutsideStep(InAll(v, k - 1).0);
    }
  }

  /** A read that starts past the end of the image delivers nothing of the image nor of an earlier
      transfer, however many words are taken. */
  lemma ReadsNothingOutside(v: Ide, k: nat, j: nat)
    requires |v.disk| <= Address(v) && j < k
    ensures var w := InAll(Command(v, READ), k).1[j]; w == Word(0) || w == Overrun
  {
    OutsideStream(Command(v, READ), k);
  }

  // ---- What the guest polls ------------------------------------------------

  /** Bits of the status register. */
  const ERR: nat := 0
  const DRQ: nat := 3
  const RDY: nat := 6

  lemma StatusBits()
    ensures TestBit(0x58, RDY) && TestBit(0x58, DRQ) && !TestBit(0x58, ERR)
    ensures TestBit(0x50, RDY) && !TestBit(0x50, DRQ) && !TestBit(0x50, ERR)
    ensures TestBit(0x51, RDY) && !TestBit(0x51, DRQ) && TestBit(0x51, ERR)
  {
    assert 0x58 / 2 / 2 / 2 % 2 == 1 && 0x58 / 2 / 2 / 2 / 2 / 2 / 2 % 2 == 1;
  }

  /** After a command the drive is ready; it asks for data exactly after a read, a write or an identify,
      and reports an error, with the abort bit of the error register, exactly for a command it does not
      know. No command touches the image. */
  lemma CommandOutcome(v: Ide, cmd: Byte)
    ensures var u := Command(v, cmd);
      && TestBit(u.status, RDY)
      && (TestBit(u.status, DRQ) <==> cmd in {0x20, 0x30, 0xec})
      && (TestBit(u.status, ERR) <==> cmd !in {0x20, 0x30, 0xec, 0x08, 0xef, 0x00, 0x70})
      && u.error == (if TestBit(u.status, ERR) then 4 else 0)
      && u.disk == v.disk
  {
    StatusBits();
    hide TestBit, Identity, Address;
  }

  /** A sector count of zero means one sector; any other count means itself. */
  lemma ZeroMeansOne(v: Ide, cmd: Byte)
    requires cmd == READ || cmd == WRITE
    ensures v.nsect == 0 ==> Command(v, cmd) == Command(v.(nsect := 1), cmd)
    ensures v.nsect != 0 ==> Command(v, cmd).nsect == v.nsect
  {
    hide Identity;
  }

  /** A read asks for data from the command until its last word has been taken, however many words that
      is, and not after the read that follows. */
  lemma ReadAsksForData(v: Ide, k: nat)
    requires InImage(v) && k <= WORDS * Count(v.nsect)
    ensures TestBit(InAll(Command(v, READ), k).0.status, DRQ)
    ensures !TestBit(InAll(Command(v, READ), WORDS * Count(v.nsect) + 1).0.status, DRQ)
  {
    StatusBits();
    hide TestBit;
    ReadStream(v, Count(v.nsect), k);
    ReadEnds(v);
    hide Command, DataIn;
  }

  /** The same for a write: until its last word has been given, and not from then on. */
  lemma WriteAsksForData(v: Ide, words: seq<U16>)
    requires |words| <= WORDS * Count(v.nsect)
    ensures TestBit(OutAll(Command(v, WRITE), words).status, DRQ) <==> |words| < WORDS * Count(v.nsect)
  {
    StatusBits();
    hide TestBit;
    WriteStream(v, words);
    hide OutAll, Command, Wrote;
  }

  // ---- Identification -----------------------------------------------------

  lemma {:induction false} IdentifyStream(v: Ide, k: nat)
    requires k <= WORDS
    ensures var (u, r) := InAll(Command(v, IDENTIFY), k);
      && u == Command(v, IDENTIFY).(pos := k)
      && forall j | 0 <= j < k :: r[j] == Word(Identity(|v.disk|)[j])
  {
    hide Identity;
    if k > 0 {
      IdentifyStream(v, k - 1);
    }
  }

  /** The words after an identify command say: a fixed ATA drive, addressed by sector number, with as many
      sectors as the image has, as far as 32 bits can say so; all others are zero. */
  lemma IdentifyDelivers(v: Ide)
    ensures var r := InAll(Command(v, IDENTIFY), WORDS).1;
      && (forall j | 0 <= j < WORDS :: r[j].Word?)
      && r[0].value == 0x40 && r[49].value == 0x200
      && (r[60].value as int + 0x1_0000 * r[61].value as int == |v.disk| <==> |v.disk| < 0x1_0000_0000)
      && (forall j | 0 <= j < WORDS && j !in {0, 49, 60, 61} :: r[j].value == 0)
  {
    IdentifyStream(v, WORDS);
    hide InAll, Command;
  }

  // ---- Whole transfers ----------------------------------------------------

  /** All words of a read are the image's, sector by sector, and reading changes no sector. */
  lemma ReadDelivers(v: Ide)
    requires InImage(v)
    ensures var (u, r) := InAll(Command(v, READ), WORDS * Count(v.nsect));
      ReadOff(r, v.disk, Address(v)) && u.disk == v.disk
  {
    ReadStream(v, Count(v.nsect), WORDS * Count(v.nsect));
  }

  /** Reads after that yield zero and change nothing. */
  lemma {:induction false} SurplusReadsZero(v: Ide, k: nat)
    requires InImage(v)
    ensures var n := WORDS * Count(v.nsect);
      var (u, r) := InAll(Command(v, READ), n + 1 + k);
      && r[n + k] == Word(0) && u == InAll(Command(v, READ), n + 1).0
  {
    hide Command, Count, Address, DataIn, InImage;
    ReadEnds(v);
    var n := WORDS * Count(v.nsect);
    var c := Command(v, READ);
    if k > 0 {
      SurplusReadsZero(v, k - 1);
      Ended(InAll(c, n).0);
      assert InAll(c, n + 1).0 == DataIn(InAll(c, n).0).0;
      assert InAll(c, n + 1 + (k - 1)).0 == InAll(c, n + 1).0;
    }
  }

  lemma Ended(u: Ide)
    requires DataIn(u) == (u.(nsect := 0, status := 0x50, len := 0), Word(0))
    ensures DataIn(DataIn(u).0) == (DataIn(u).0, Word(0))
  {
  }

  /** From any state, the word that fills the buffer: if sectors are due the buffer goes to the image and
      either the next sector is asked for or the transfer is over; if none is, nothing is stored. */
  lemma BufferFull(v: Ide, x: U16)
    requires v.pos == WORDS - 1
    ensures var u, full := DataOut(v, x), v.buf[WORDS - 1 := x];
      && u.disk == (if v.nsect > 0 && v.lba < |v.disk| then v.disk[v.lba := full] else v.disk)
      && (if v.nsect > 1 then
            u.nsect == v.nsect - 1 && u.lba == (v.lba + 1) % TWO32 && u.pos == 0 && u.len == WORDS && u.status == 0x58
          else u.nsect == 0 && u.len == 0 && u.status == 0x50)
  {
  }

  /** Data writes leave the address registers alone. */
  lemma {:induction false} OutKeepsAddress(v: Ide, words: seq<U16>)
    ensures Address(OutAll(v, words)) == Address(v)
  {
    if words != [] {
      OutKeepsAddress(v, words[..|words| - 1]);
    }
  }

  /** Reading off what was written gives the words. */
  lemma WroteReadsOff(before: seq<Sector>, after: seq<Sector>, start: nat, words: seq<U16>, n: nat, r: seq<Word>)
    requires Wrote(before, after, start, words, n) && ReadOff(r, after, start)
    requires |r| == |words| == WORDS * n
    ensures forall j | 0 <= j < |r| :: r[j] == Word(words[j])
  {
    forall j | 0 <= j < |r| ensures r[j] == Word(words[j]) {
      var i, p := j / WORDS, j % WORDS;
      assert after[start + i] == Part(words, i);
      assert Part(words, i)[p] == words[WORDS * i + p];
    }
  }

  /** Setting the four address registers to the parts of a 28-bit sector number addresses that sector,
      whatever the drive bits of the head register are. */
  lemma RegistersAddress(v: Ide, sector: nat, drive: nat)
    requires sector < 0x1000_0000 && drive < 16
    ensures Address(v.(low := sector % 0x100, mid := sector / 0x100 % 0x100, high := sector / 0x1_0000 % 0x100,
                       head := 16 * drive + sector / 0x100_0000)) == sector
  {
    var t, u, a := sector / 0x100, sector / 0x1_0000, sector / 0x100_0000;
    assert u == t / 0x100 && a == u / 0x100;
    assert sector == 0x100 * t + sector % 0x100 && t == 0x100 * u + t % 0x100 && u == 0x100 * a + u % 0x100;
    assert (16 * drive + a) % 16 == a by {
      DivModUnique(16, drive, a);
    }
  }

  /** The read after the last word ends the transfer: it yields zero and drops the data request. */
  lemma ReadEnds(v: Ide)
    requires InImage(v)
    ensures var (u, r) := InAll(Command(v, READ), WORDS * Count(v.nsect));
      DataIn(u) == (u.(nsect := 0, status := 0x50, len := 0), Word(0))
  {
    ReadStream(v, Count(v.nsect), WORDS * Count(v.nsect));
    hide InAll, Command;
    var n := Count(v.nsect);
    assert (WORDS * n - 1) / WORDS == n - 1;
  }

  /** What was written reads back: with the same address and the count set again, the words come back
      in order. */
  lemma WriteThenRead(v: Ide, words: seq<U16>)
    requires InImage(v) && |words| == WORDS * Count(v.nsect)
    ensures var r := InAll(Command(OutAll(Command(v, WRITE), words).(nsect := v.nsect), READ), |words|).1;
      forall j | 0 <= j < |words| :: r[j] == Word(words[j])
  {
    hide OutAll, InAll, Command, Wrote, ReadOff, Address, Count;
    var w := OutAll(Command(v, WRITE), words);
    var u := w.(nsect := v.nsect);
    WriteStores(v, words);
    AddressStays(v, words);
    WroteLength(v.disk, w.disk, Address(v), words, Count(v.nsect));
    ReadDelivers(u);
    WroteReadsOff(v.disk, w.disk, Address(v), words, Count(v.nsect), InAll(Command(u, READ), |words|).1);
  }

  lemma AddressStays(v: Ide, words: seq<U16>)
    ensures Address(OutAll(Command(v, WRITE), words).(nsect := v.nsect)) == Address(v)
  {
    OutKeepsAddress(Command(v, WRITE), words);
  }

  lemma WroteLength(before: seq<Sector>, after: seq<Sector>, start: nat, words: seq<U16>, i: nat)
    requires Wrote(before, after, start, words, i)
    ensures |after| == |before|
  {
  }
}
