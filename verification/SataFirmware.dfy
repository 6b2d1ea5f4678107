/** The firmware's code for the SATA protocol, on its context and the registers
    of the SATA hardware. */
module SataFirmware {
  import opened Common
  import Division
  import opened SataCommand
  import opened SataProtocol

  /** The branches of the interrupt handler are those of the verdict. */
  lemma Branches(numSectors: u32, g: Chs, f: Fis, lba: u32, count: nat)
    requires Extent(lba, count) == DecodeFis(g, f)
    ensures var a, v := AttrOf(f.code), Judge(numSectors, g, f);
      && (Wrap32(lba + count) > numSectors && !a.noSect ==> v == Reject)
      && (!(Wrap32(lba + count) > numSectors && !a.noSect) ==>
            v == if a.kind == HostToDevice then Transfer(Write(lba, count))
                 else if a.kind == DeviceToHost then Transfer(Read(lba, count))
                 else if f.code == ATA_DATA_SET_MANAGEMENT then Transfer(Trim(count))
                 else Slow(Extent(lba, count)))
    ensures StartOf(ATA_DATA_SET_MANAGEMENT) == DmaWrite
  {
  }

  class Firmware {
    const maxLba: u32             // last logical sector
    const maxAddr: nat            // highest address of a CHS geometry

    // the context shared by interrupt handler and main loop
    var slow: SlowCmd
    var eqFull: bool
    var chs: Chs
    var actionFlags: Start

    // registers: the last FIS received, and the arguments of an insertion
    var fis: Fis
    var sataLba: u32
    var sataSectCnt: nat
    var eventQueue: seq<Entry>

    // what the hardware and the FTL are told to do
    var starts: seq<Start>
    var replies: seq<Reply>
    var calls: seq<Call>

    ghost var received: nat
    ghost var accepted: seq<Accepted>

    ghost function Now(): State
      reads this
    {
      State(eventQueue, eqFull, actionFlags, slow, chs, fis.d1, received, accepted, starts, replies, calls)
    }

    ghost function NumSectors(): u32
      requires maxLba < TWO_TO_32 - 1
    {
      maxLba + 1
    }

    /** A write to the insertion register for reads or writes. */
    method InsertEq(write: bool)
      modifies this`eventQueue
      ensures eventQueue == old(eventQueue) + [Insert(sataLba, sataSectCnt, write)]
    {
      eventQueue := eventQueue + [Insert(sataLba, sataSectCnt, write)];
    }

    /** Address and count of a command, by the layout of its fields. */
    method DecodeCommand(f: Fis) returns (lba: u32, sectorCount: nat)
      ensures Extent(lba, sectorCount) == DecodeFis(chs, f)
    {
      var cmdType := AttrOf(f.code);
      lba, sectorCount := 0, 0;
      if cmdType.layout == Short {
        if !LbaBit(f.d1) {
          lba := Wrap32(ChsNumber(chs, f.d1) - 1);
        } else {
          lba := f.d1 % 0x1000_0000;
        }
        sectorCount := f.d3 % 0x100;
        if sectorCount == 0 && !cmdType.noSect { sectorCount := 0x100; }
      } else if cmdType.layout == Ext {
        lba := f.d1 % 0x100_0000 + f.d2 % 0x100 * 0x100_0000;
        sectorCount := f.d3 % 0x1_0000;
        if sectorCount == 0 && !cmdType.noSect { sectorCount := 0x1_0000; }
      } else if cmdType.layout == LbaAndCount {
        lba := f.d1 % 0x1000_0000;
        sectorCount := f.d3 % 0x1_0000;
      }
    }

    /** A read or write within range: enqueue it, and start it or leave the start
        to the main loop. */
    method BeginTransfer(code: nat, lba: u32, sectorCount: nat, full: bool)
      requires AttrOf(code).kind != Other
      modifies this`sataLba, this`sataSectCnt, this`eventQueue, this`accepted
      modifies this`eqFull, this`actionFlags, this`starts
      ensures var req := if AttrOf(code).kind == HostToDevice then Write(lba, sectorCount) else Read(lba, sectorCount);
        var t := old(Now()).(queue := old(eventQueue) + [EntryOf(req)],
                             accepted := old(accepted) + [Accepted(req, StartOf(code), fis)]);
        Now() == if full then t.(eqFull := true, flags := StartOf(code))
                 else t.(starts := old(starts) + [StartOf(code)])
    {
      var flags;
      sataLba := lba;
      sataSectCnt := sectorCount;
      if AttrOf(code).kind == HostToDevice {
        InsertEq(true);
        flags := if code == ATA_WRITE_DMA || code == ATA_WRITE_DMA_EXT then DmaWrite else PioWrite;
        accepted := accepted + [Accepted(Write(lba, sectorCount), flags, fis)];
      } else {
        InsertEq(false);
        flags := if code == ATA_READ_DMA || code == ATA_READ_DMA_EXT then DmaRead else PioRead;
        accepted := accepted + [Accepted(Read(lba, sectorCount), flags, fis)];
      }
      if full {
        eqFull := true;
        actionFlags := flags;
      } else {
        starts := starts + [flags];
      }
    }

    /** A trim: its marker is enqueued, and its list of ranges is transferred at
        once, however full the queue is. */
    method BeginTrim(sectorCount: nat)
      modifies this`sataLba, this`sataSectCnt, this`eventQueue, this`accepted, this`starts
      ensures Now() == old(Now()).(queue := old(eventQueue) + [EntryOf(Trim(sectorCount))],
                                   accepted := old(accepted) + [Accepted(Trim(sectorCount), DmaWrite, fis)],
                                   starts := old(starts) + [DmaWrite])
    {
      sataLba := TRIM_MARKER;
      sataSectCnt := sectorCount;
      InsertEq(true);
      starts := starts + [DmaWrite];
      accepted := accepted + [Accepted(Trim(sectorCount), DmaWrite, fis)];
    }

    /** The FIS registers take the values that the host has sent. */
    method ReceiveFis(f: Fis)
      modifies this`fis, this`received
      ensures fis == f && Now() == old(Now()).(fisD1 := f.d1, received := old(received) + 1)
    {
      received := received + 1;
      fis := f;
    }

    /** The interrupt handler. `f` has arrived in the FIS registers; `full` is what
        the queue status shows after the insertion. */
    method HandleGotCfis(f: Fis, full: bool)
      requires maxLba < TWO_TO_32 - 1
      modifies this
      ensures Now() == OnCommand(NumSectors(), old(Now()), f, full)
    {
      ReceiveFis(f);
      var lba, sectorCount := DecodeCommand(f);
      Branches(NumSectors(), chs, f, lba, sectorCount);
      if Wrap32(lba + sectorCount) > maxLba + 1 && !AttrOf(f.code).noSect {
        replies := replies + [NotFound];
      } else if AttrOf(f.code).kind != Other {
        BeginTransfer(f.code, lba, sectorCount, full);
      } else if f.code == ATA_DATA_SET_MANAGEMENT {
        BeginTrim(sectorCount);
      } else {
        slow := Pending(f.code, Extent(lba, sectorCount));
      }
    }

    /** Take the next entry from the event queue, and release a deferred start, all
        with interrupts disabled. */
    method EventqGet(linkUp: bool) returns (lba: nat, count: nat, write: bool)
      requires eventQueue != []
      modifies this`eventQueue, this`eqFull, this`starts
      ensures eventQueue == old(eventQueue)[1..] && !eqFull
      ensures lba == old(eventQueue)[0].lba30 && write == old(eventQueue)[0].write
      ensures count == if old(eventQueue)[0].count16 == 0 then 0x1_0000 else old(eventQueue)[0].count16
      ensures starts == old(starts) + if old(eqFull) && linkUp then [actionFlags] else []
    {
      lba, count, write := eventQueue[0].lba30, eventQueue[0].count16, eventQueue[0].write;
      eventQueue := eventQueue[1..];
      if count == 0 { count := 0x1_0000; }
      if eqFull {
        eqFull := false;
        if linkUp { starts := starts + [actionFlags]; }
      }
    }

    /** The host's choice of heads and sectors per track. */
    method InitializeDeviceParameters(sectorCount: nat)
      modifies this`chs, this`replies
      ensures sectorCount % 0x100 == 0 ==> chs == old(chs) && replies == old(replies) + [Aborted]
      ensures sectorCount % 0x100 != 0 ==>
        chs == NewGeometry(maxAddr, fis.d1, sectorCount) && replies == old(replies) + [Done(ATA_INITIALIZE_DEV_PARA)]
    {
      if sectorCount % 0x100 == 0 {
        replies := replies + [Aborted];
      } else {
        var heads, sectors := Head(fis.d1) + 1, sectorCount % 0x100;
        Division.MulGrows(heads, sectors);
        var cylinders := maxAddr / (heads * sectors);
        chs := Chs(if cylinders < 65535 then cylinders else 65535, heads, sectors);
        replies := replies + [Done(ATA_INITIALIZE_DEV_PARA)];
      }
    }

    /** One turn of the main loop. */
    method MainStep(linkUp: bool)
      modifies this
      ensures Now() == OnServe(maxAddr, old(Now()), linkUp)
    {
      if eventQueue != [] {
        var lba, count, write := EventqGet(linkUp);
        if !write {
          calls := calls + [FtlRead(lba, count)];
        } else if lba == TRIM_MARKER {
          calls := calls + [FtlTrim(0, count)];
        } else {
          calls := calls + [FtlWrite(lba, count)];
        }
      } else if slow.Pending? {
        if slow.code == ATA_INITIALIZE_DEV_PARA {
          InitializeDeviceParameters(slow.x.count);
        } else {
          replies := replies + [Done(slow.code)];
        }
        slow := Nothing;
      }
    }
  }
}
