/** ATA taskfiles: 28/48-bit address packing (src/ata_utils.cc, src/plat-linux/sgio.cc) and the native maximum. */
module AtaTaskfile {
  import opened DparmTypes

  type u8 = bv8
  type u32 = bv32
  type u64 = bv64

  const OP_DSM: u8 := 0x06
  const OP_READ_PIO_EXT: u8 := 0x24
  const OP_READ_DMA_EXT: u8 := 0x25
  const OP_READ_NATIVE_MAX_EXT: u8 := 0x27
  const OP_WRITE_PIO_EXT: u8 := 0x34
  const OP_WRITE_DMA_EXT: u8 := 0x35
  const OP_SET_MAX_EXT: u8 := 0x37
  const OP_READ_VERIFY_EXT: u8 := 0x42
  const OP_WRITE_UNC_EXT: u8 := 0x45
  const OP_VENDOR_SPECIFIC_0X80: u8 := 0x80
  const OP_SMART: u8 := 0xb0
  const OP_FLUSHCACHE_EXT: u8 := 0xea
  const OP_SECURITY_ERASE_PREPARE: u8 := 0xf3
  const OP_SECURITY_ERASE_UNIT: u8 := 0xf4
  const OP_READ_NATIVE_MAX: u8 := 0xf8

  const USING_LBA: u8 := 0x40
  const LBA28_LIMIT: u64 := 0x0fff_ffff

  /** Operations that always use 48-bit addressing. */
  predicate Forced48(op: u8) {
    op in {OP_DSM, OP_READ_PIO_EXT, OP_READ_DMA_EXT, OP_WRITE_PIO_EXT, OP_WRITE_DMA_EXT, OP_READ_VERIFY_EXT,
           OP_WRITE_UNC_EXT, OP_READ_NATIVE_MAX_EXT, OP_SET_MAX_EXT, OP_FLUSHCACHE_EXT}
  }

  /** Operations that never do. */
  predicate Forced28(op: u8) {
    op in {OP_SECURITY_ERASE_PREPARE, OP_SECURITY_ERASE_UNIT, OP_VENDOR_SPECIFIC_0X80, OP_SMART}
  }

  /** needs_lba48. */
  predicate NeedsLba48(op: u8, lba: u64, nsect: u32) {
    if Forced48(op) then true
    else if Forced28(op) then false
    else if lba >= LBA28_LIMIT then true
    else if nsect != 0 then nsect > 0xff || lba + nsect as u64 - 1 >= LBA28_LIMIT
    else false
  }

  /**
   * In the operations' codes. For those on neither list 48 bits are used exactly if the address, the count or the end
   * of the run asks for them: the first sector behind a run may not lie above the limit.
   */
  lemma NeedsLba48Iff(op: u8, lba: u64, nsect: u32)
    ensures Forced48(op) <==> op in {0x06, 0x24, 0x25, 0x27, 0x34, 0x35, 0x37, 0x42, 0x45, 0xea}
    ensures Forced28(op) <==> op in {0x80, 0xb0, 0xf3, 0xf4}
    ensures NeedsLba48(op, lba, nsect) <==>
      Forced48(op) || (!Forced28(op) && (lba >= 0x0fff_ffff || nsect > 255
                                         || (nsect > 0 && lba > 0x0fff_ffff - nsect as u64)))
  {
    if lba < 0x0fff_ffff && 0 < nsect <= 255 {
      RunEnd(lba, nsect);
    }
  }

  lemma RunEnd(lba: u64, nsect: u32)
    requires lba < 0x0fff_ffff && 0 < nsect <= 255
    ensures lba + nsect as u64 - 1 >= 0x0fff_ffff <==> lba > 0x0fff_ffff - nsect as u64
  {}

  datatype LbaRegs = LbaRegs(feat: u8, nsect: u8, lbal: u8, lbam: u8, lbah: u8)

  const ZERO_REGS := LbaRegs(0, 0, 0, 0, 0)

  /** A narrowing cast to uint8_t. */
  function Low8(x: u64): u8 {
    (x & 0xff) as u8
  }

  /** The value of a taskfile. */
  datatype Regs = Regs(dev: u8, command: u8, isLba48: bool, lob: LbaRegs, hob: LbaRegs)

  function Low24(r: LbaRegs): u32 {
    (r.lbah as u32 << 16) | (r.lbam as u32 << 8) | (r.lbal as u32)
  }

  /** tf_to_lba. */
  function TfToLba(tf: Regs): u64 {
    var high: u32 := if tf.isLba48 then Low24(tf.hob) else (tf.dev & 0x0f) as u32;
    (high as u64 << 24) | (Low24(tf.lob) as u64)
  }

  class TaskFile {
    var dev: u8
    var command: u8
    var isLba48: bool
    var lob: LbaRegs
    var hob: LbaRegs

    constructor ()
    {
      dev, command, isLba48 := 0, 0, false;
      lob, hob := ZERO_REGS, ZERO_REGS;
    }

    ghost function View(): Regs
      reads this
    {
      Regs(dev, command, isLba48, lob, hob)
    }

    /**
     * tf_init. The registers address lba modulo 2^48, or modulo 2^28 without 48-bit addressing, and carry the low
     * 16 or 8 bits of the sector count.
     */
    method TfInit(op: u8, lba: u64, nsect: u32)
      modifies this
      ensures command == op && isLba48 == NeedsLba48(op, lba, nsect) && lob.feat == hob.feat == 0
      ensures dev & 0xf0 == USING_LBA && (isLba48 ==> dev == USING_LBA)
      ensures TfToLba(View()) == if isLba48 then lba & 0xffff_ffff_ffff else lba & 0x0fff_ffff
      ensures (hob.nsect as u32 << 8) | lob.nsect as u32 == if isLba48 then nsect & 0xffff else nsect & 0xff
      ensures lob.lbal == (lba & 0xff) as u8 && lob.lbam == ((lba >> 8) & 0xff) as u8
      ensures lob.lbah == ((lba >> 16) & 0xff) as u8
      ensures if isLba48
              then hob.lbal == ((lba >> 24) & 0xff) as u8 && hob.lbam == ((lba >> 32) & 0xff) as u8
                   && hob.lbah == ((lba >> 40) & 0xff) as u8
              else dev & 0x0f == ((lba >> 24) & 0x0f) as u8 && hob == ZERO_REGS
    {
      hide NeedsLba48, TfToLba;
      dev, command, isLba48 := 0, 0, false;
      lob, hob := ZERO_REGS, ZERO_REGS;
      command := op;
      dev := USING_LBA;
      lob := lob.(lbal := Low8(lba));
      lob := lob.(lbam := Low8(lba >> 8));
      lob := lob.(lbah := Low8(lba >> 16));
      lob := lob.(nsect := (nsect & 0xff) as u8);
      if NeedsLba48(op, lba, nsect) {
        isLba48 := true;
        hob := hob.(nsect := ((nsect >> 8) & 0xff) as u8);
        hob := hob.(lbal := Low8(lba >> 24));
        hob := hob.(lbam := Low8(lba >> 32));
        hob := hob.(lbah := Low8(lba >> 40));
        Address48(View(), lba);
        Count16(nsect);
      } else {
        dev := dev | Low8((lba >> 24) & 0x0f);
        DeviceNibble(lba);
        NibbleSurvives(lba);
        Address28(View(), lba);
      }
    }
  }

  lemma Address48(tf: Regs, lba: u64)
    requires tf.isLba48
    requires tf.lob.lbal == Low8(lba) && tf.lob.lbam == Low8(lba >> 8) && tf.lob.lbah == Low8(lba >> 16)
    requires tf.hob.lbal == Low8(lba >> 24) && tf.hob.lbam == Low8(lba >> 32) && tf.hob.lbah == Low8(lba >> 40)
    ensures TfToLba(tf) == lba & 0xffff_ffff_ffff
  {}

  lemma Address28(tf: Regs, lba: u64)
    requires !tf.isLba48 && tf.dev & 0x0f == Low8((lba >> 24) & 0x0f)
    requires tf.lob.lbal == Low8(lba) && tf.lob.lbam == Low8(lba >> 8) && tf.lob.lbah == Low8(lba >> 16)
    ensures TfToLba(tf) == lba & 0x0fff_ffff
  {}

  lemma NibbleSurvives(lba: u64)
    ensures (USING_LBA | Low8((lba >> 24) & 0x0f)) & 0x0f == Low8((lba >> 24) & 0x0f)
  {}

  lemma DeviceNibble(lba: u64)
    ensures (USING_LBA | Low8((lba >> 24) & 0x0f)) & 0xf0 == USING_LBA
  {}

  lemma Count16(nsect: u32)
    ensures (((nsect >> 8) & 0xff) as u8 as u32 << 8) | (nsect & 0xff) as u8 as u32 == nsect & 0xffff
  {}

  /** The address that survives tf_init and tf_to_lba. */
  function Addressed(op: u8, lba: u64, nsect: u32): u64 {
    if NeedsLba48(op, lba, nsect) then lba & 0xffff_ffff_ffff else lba & 0x0fff_ffff
  }

  /** The address is preserved exactly below 2^48, and below 2^28 for the operations without 48-bit addressing. */
  lemma AddressPreservedIff(op: u8, lba: u64, nsect: u32)
    ensures Addressed(op, lba, nsect) == lba <==> lba < 0x1_0000_0000_0000 && (Forced28(op) ==> lba < 0x1000_0000)
  {
    hide NeedsLba48;
    MasksKeep(lba);
    if !NeedsLba48(op, lba, nsect) && !Forced28(op) {
      TwentyEightBitIsEnough(op, lba, nsect, lba);
      BelowLimit(lba);
    }
    if Forced28(op) {
      ForcedIsExclusive(op, lba, nsect);
      if lba < 0x1000_0000 {
        Below48(lba);
      }
    }
  }

  lemma Below48(lba: u64)
    requires lba < 0x1000_0000
    ensures lba < 0x1_0000_0000_0000
  {}

  lemma MasksKeep(lba: u64)
    ensures lba & 0xffff_ffff_ffff == lba <==> lba < 0x1_0000_0000_0000
    ensures lba & 0x0fff_ffff == lba <==> lba < 0x1000_0000
  {}

  lemma BelowLimit(lba: u64)
    requires lba < LBA28_LIMIT
    ensures lba < 0x1000_0000 && lba < 0x1_0000_0000_0000
  {}

  lemma ForcedIsExclusive(op: u8, lba: u64, nsect: u32)
    requires Forced28(op)
    ensures !NeedsLba48(op, lba, nsect)
  {}

  /** Without 48-bit addressing every addressed sector lies below the 28-bit limit. */
  lemma TwentyEightBitIsEnough(op: u8, lba: u64, nsect: u32, sector: u64)
    requires !NeedsLba48(op, lba, nsect) && !Forced28(op)
    requires lba <= sector && (sector == lba || sector < lba + nsect as u64)
    ensures nsect <= 0xff && sector < LBA28_LIMIT
  {}

  /** How many sectors a drive transfers for the count of a 28-bit command: zero stands for 256. */
  function DriveCount(nsect: u32): u64 {
    if nsect & 0xff == 0 then 256 else (nsect & 0xff) as u64
  }

  /** The last of so many sectors lies below the 28-bit limit. */
  predicate RunsBelow(lba: u64, count: u64) {
    lba + count - 1 < LBA28_LIMIT
  }

  /** As the drive reads the count, it does exactly if the count is not zero or 256 sectors fit. */
  lemma DriveCountFitsIff(op: u8, lba: u64, nsect: u32)
    requires !NeedsLba48(op, lba, nsect) && !Forced28(op)
    ensures RunsBelow(lba, DriveCount(nsect)) <==> nsect != 0 || lba <= LBA28_LIMIT - 256
  {
    hide NeedsLba48, RunsBelow, DriveCount;
    NotNeeded(op, lba, nsect);
    CountRead(nsect);
    if nsect == 0 {
      WholeCount(lba);
    }
  }

  lemma NotNeeded(op: u8, lba: u64, nsect: u32)
    requires !NeedsLba48(op, lba, nsect) && !Forced28(op)
    ensures lba < LBA28_LIMIT && (nsect != 0 ==> nsect <= 0xff && RunsBelow(lba, nsect as u64))
  {}

  lemma WholeCount(lba: u64)
    requires lba < LBA28_LIMIT
    ensures RunsBelow(lba, 256) <==> lba <= LBA28_LIMIT - 256
  {}

  lemma CountRead(nsect: u32)
    ensures nsect == 0 ==> DriveCount(nsect) == 256
    ensures 0 < nsect <= 0xff ==> DriveCount(nsect) == nsect as u64
  {}

  /** The last sector of 28 bits with a count of zero stays a 28-bit command and runs over the limit. */
  lemma ZeroCountRunsOver(op: u8)
    requires !Forced48(op) && !Forced28(op)
    ensures !NeedsLba48(op, LBA28_LIMIT - 1, 0) && !RunsBelow(LBA28_LIMIT - 1, DriveCount(0))
  {}

  // ---- The 16-byte ATA PASS-THROUGH CDB ---------------------------------------------------------------

  /** The address a SATL reads from a CDB: the extend bit selects the previous registers or the device nibble. */
  function CdbLba(cdb: seq<u8>): u64
    requires |cdb| == 16
  {
    TfToLba(Regs(cdb[13], cdb[14], cdb[1] & 1 == 1, LowRegs(cdb), HighRegs(cdb)))
  }

  function LowRegs(cdb: seq<u8>): LbaRegs
    requires |cdb| == 16
  {
    LbaRegs(cdb[4], cdb[6], cdb[8], cdb[10], cdb[12])
  }

  function HighRegs(cdb: seq<u8>): LbaRegs
    requires |cdb| == 16
  {
    LbaRegs(cdb[3], cdb[5], cdb[7], cdb[9], cdb[11])
  }

  function Protocol(dma: bool, rw: bool, data: bool): u8 {
    if !data then 3 << 1 else if dma then 6 << 1 else if rw then 5 << 1 else 4 << 1
  }

  /**
   * Byte 2 of the CDB: with data, the length is in the sector count, in blocks, and the direction bit says from
   * the device; without, the check-condition bit asks for the registers back.
   */
  predicate TransferFlags(b: u8, rw: bool, data: bool) {
    && b & 0x03 == (if data then 2 else 0) && (b & 0x04 != 0 <==> data)
    && (b & 0x08 != 0 <==> data && !rw) && (b & 0x20 != 0 <==> !data) && b & 0xd0 == 0
  }

  /**
   * Byte 1 of the CDB: bit 0 extends, bits 1 to 4 are the protocol, of which 3 is for no data, 4 for PIO data-in,
   * 5 for PIO data-out and 6 for DMA.
   */
  predicate ProtocolByte(b: u8, extend: bool, dma: bool, rw: bool, data: bool) {
    && (b & 1 == 1 <==> extend)
    && ((b >> 1) & 0x0f == 3 <==> !data)
    && ((b >> 1) & 0x0f == 4 <==> data && !dma && !rw)
    && ((b >> 1) & 0x0f == 5 <==> data && !dma && rw)
    && ((b >> 1) & 0x0f == 6 <==> data && dma)
    && b >> 5 == 0
  }

  lemma ProtocolBits(dma: bool, rw: bool, data: bool)
    ensures var p := Protocol(dma, rw, data);
            ProtocolByte(p, false, dma, rw, data) && ProtocolByte(p | 1, true, dma, rw, data)
  {}

  lemma DeviceNibbleIgnoresPrevious(tf: Regs, hob: LbaRegs)
    requires !tf.isLba48
    ensures TfToLba(tf.(hob := hob)) == TfToLba(tf)
  {}

  /** The packing part of sg16: prefer12 is never set, so the 16-byte form is always used. */
  method PackCdb(tf: TaskFile, rw: bool, dma: bool, data: bool) returns (cdb: array<u8>)
    ensures fresh(cdb) && cdb.Length == 16
    ensures cdb[0] == 0x85 && cdb[14] == tf.command
    ensures ProtocolByte(cdb[1], tf.isLba48, dma, rw, data)
    ensures TransferFlags(cdb[2], rw, data) && cdb[15] == 0
    // The direction bit agrees with the protocol.
    ensures ((cdb[1] >> 1) & 0x0f == 4 ==> cdb[2] & 8 == 8) && ((cdb[1] >> 1) & 0x0f == 5 ==> cdb[2] & 8 == 0)
    ensures cdb[4] == tf.lob.feat && cdb[6] == tf.lob.nsect
    ensures cdb[8] == tf.lob.lbal && cdb[10] == tf.lob.lbam && cdb[12] == tf.lob.lbah
    ensures tf.isLba48 ==> cdb[3] == tf.hob.feat && cdb[5] == tf.hob.nsect
    ensures tf.isLba48 ==> cdb[7] == tf.hob.lbal && cdb[9] == tf.hob.lbam && cdb[11] == tf.hob.lbah
    ensures cdb[13] == tf.dev && LowRegs(cdb[..]) == tf.lob
    ensures HighRegs(cdb[..]) == if tf.isLba48 then tf.hob else ZERO_REGS
  {
    hide Protocol, LowRegs, HighRegs, TransferFlags, ProtocolByte;
    cdb := new u8[16](_ => 0);
    cdb[1] := Protocol(dma, rw, data);
    PackTransfer(cdb, rw, data);
    NoPrevious(cdb[..]);
    PackRegisters(tf, cdb);
    ProtocolBits(dma, rw, data);
    DirectionAgrees(cdb[1], cdb[2], tf.isLba48, dma, rw, data);
    RegisterBytes(cdb[..]);
  }

  lemma DirectionAgrees(b: u8, c: u8, extend: bool, dma: bool, rw: bool, data: bool)
    requires ProtocolByte(b, extend, dma, rw, data) && TransferFlags(c, rw, data)
    ensures ((b >> 1) & 0x0f == 4 ==> c & 8 == 8) && ((b >> 1) & 0x0f == 5 ==> c & 8 == 0)
  {}

  lemma RegisterBytes(cdb: seq<u8>)
    requires |cdb| == 16
    ensures LowRegs(cdb) == LbaRegs(cdb[4], cdb[6], cdb[8], cdb[10], cdb[12])
    ensures HighRegs(cdb) == LbaRegs(cdb[3], cdb[5], cdb[7], cdb[9], cdb[11])
  {}

  lemma NoPrevious(cdb: seq<u8>)
    requires |cdb| == 16 && forall k :: 3 <= k < 16 ==> cdb[k] == 0
    ensures HighRegs(cdb) == ZERO_REGS
  {}

  method PackTransfer(cdb: array<u8>, rw: bool, data: bool)
    requires cdb.Length == 16 && cdb[2] == 0
    modifies cdb
    ensures TransferFlags(cdb[2], rw, data)
    ensures forall k :: 0 <= k < 16 && k != 2 ==> cdb[k] == old(cdb[k])
  {
    if data {
      cdb[2] := cdb[2] | 2 | 4;
      cdb[2] := cdb[2] | if rw then 0 else 8;
    } else {
      cdb[2] := 0x20;
    }
  }

  /** The 16-byte branch: current registers always, previous registers and the extend bit for 48-bit addressing. */
  method PackRegisters(tf: TaskFile, cdb: array<u8>)
    requires cdb.Length == 16 && HighRegs(cdb[..]) == ZERO_REGS
    modifies cdb
    ensures cdb[0] == 0x85 && cdb[14] == tf.command && cdb[13] == tf.dev
    ensures cdb[2] == old(cdb[2]) && cdb[15] == old(cdb[15])
    ensures cdb[1] == if tf.isLba48 then old(cdb[1]) | 1 else old(cdb[1])
    ensures LowRegs(cdb[..]) == tf.lob && HighRegs(cdb[..]) == if tf.isLba48 then tf.hob else ZERO_REGS
  {
    hide LowRegs, HighRegs;
    PackCurrent(tf, cdb);
    if tf.isLba48 {
      PackPrevious(tf, cdb);
    }
  }

  method PackCurrent(tf: TaskFile, cdb: array<u8>)
    requires cdb.Length == 16
    modifies cdb
    ensures cdb[0] == 0x85 && cdb[14] == tf.command && cdb[13] == tf.dev && cdb[1] == old(cdb[1])
    ensures cdb[2] == old(cdb[2]) && cdb[15] == old(cdb[15])
    ensures LowRegs(cdb[..]) == tf.lob && HighRegs(cdb[..]) == HighRegs(old(cdb[..]))
  {
    ghost var before := cdb[..];
    cdb[0] := 0x85;
    cdb[4] := tf.lob.feat;
    cdb[6] := tf.lob.nsect;
    cdb[8] := tf.lob.lbal;
    cdb[10] := tf.lob.lbam;
    cdb[12] := tf.lob.lbah;
    cdb[13] := tf.dev;
    cdb[14] := tf.command;
    assert cdb[..] == before[0 := 0x85][4 := tf.lob.feat][6 := tf.lob.nsect][8 := tf.lob.lbal][10 := tf.lob.lbam]
                            [12 := tf.lob.lbah][13 := tf.dev][14 := tf.command];
  }

  method PackPrevious(tf: TaskFile, cdb: array<u8>)
    requires cdb.Length == 16
    modifies cdb
    ensures cdb[1] == old(cdb[1]) | 1 && HighRegs(cdb[..]) == tf.hob
    ensures LowRegs(cdb[..]) == LowRegs(old(cdb[..]))
    ensures cdb[2] == old(cdb[2]) && cdb[15] == old(cdb[15])
    ensures cdb[0] == old(cdb[0]) && cdb[13] == old(cdb[13]) && cdb[14] == old(cdb[14])
  {
    cdb[1] := cdb[1] | 1;
    cdb[3] := tf.hob.feat;
    cdb[5] := tf.hob.nsect;
    cdb[7] := tf.hob.lbal;
    cdb[9] := tf.hob.lbam;
    cdb[11] := tf.hob.lbah;
  }

  /** A CDB packed from a taskfile addresses the same sector. */
  lemma PackedLba(cdb: seq<u8>, tf: Regs, dma: bool, rw: bool, data: bool)
    requires |cdb| == 16 && cdb[13] == tf.dev && cdb[14] == tf.command && LowRegs(cdb) == tf.lob
    requires ProtocolByte(cdb[1], tf.isLba48, dma, rw, data)
    requires HighRegs(cdb) == if tf.isLba48 then tf.hob else ZERO_REGS
    ensures CdbLba(cdb) == TfToLba(tf)
  {
    hide TfToLba;
    if !tf.isLba48 {
      DeviceNibbleIgnoresPrevious(tf, ZERO_REGS);
    }
  }

  /** From the operation to the CDB: the device is addressed where the caller asked, under the exact condition. */
  method AddressCommand(op: u8, lba: u64, nsect: u32, rw: bool, dma: bool, data: bool) returns (cdb: array<u8>)
    ensures cdb.Length == 16 && fresh(cdb)
    ensures CdbLba(cdb[..]) == lba <==> lba < 0x1_0000_0000_0000 && (Forced28(op) ==> lba < 0x1000_0000)
    ensures cdb[14] == op && ProtocolByte(cdb[1], NeedsLba48(op, lba, nsect), dma, rw, data)
    ensures cdb[6] == (nsect & 0xff) as u8
    ensures NeedsLba48(op, lba, nsect) ==> cdb[5] == ((nsect >> 8) & 0xff) as u8
  {
    hide CdbLba, TfToLba, NeedsLba48, Forced28, ProtocolByte;
    var tf := new TaskFile();
    tf.TfInit(op, lba, nsect);
    AddressPreservedIff(op, lba, nsect);
    cdb := PackCdb(tf, rw, dma, data);
    PackedLba(cdb[..], tf.View(), dma, rw, data);
  }

  // ---- The native maximum -------------------------------------------------------------------------------

  /** The previous registers, above the 24 bits of the current ones. */
  function Previous24(hob: LbaRegs): u64 {
    ((hob.lbah as u64 << 16) | (hob.lbam as u64 << 8) | hob.lbal as u64) << 24
  }

  /** The register reassembly of readNativeMaxSectors, with the source's operator precedence. */
  function NativeMax(tf: Regs): u64 {
    if tf.command == OP_READ_NATIVE_MAX then
      ((tf.dev as u64 & 0x0f) << 24) | (tf.lob.lbah as u64 << 16) | (tf.lob.lbam as u64 << 8) | (tf.lob.lbal as u64 + 1)
    else
      Previous24(tf.hob) | ((tf.lob.lbah as u64 << 16) | (tf.lob.lbam as u64 << 8) | (tf.lob.lbal as u64 + 1))
  }

  /** The address the registers hold: the last sector of the drive. */
  function LastSector(tf: Regs): u64 {
    TfToLba(tf.(isLba48 := tf.command != OP_READ_NATIVE_MAX))
  }

  /** The low byte does not carry over, or it carries into a clear bit. */
  predicate CarryIsSafe(tf: Regs) {
    tf.lob.lbal != 0xff || tf.lob.lbam & 1 == 0
  }

  /** The sector count is right exactly when the increment does not carry into a set bit. */
  lemma NativeMaxIsRightIff(tf: Regs)
    ensures NativeMax(tf) == LastSector(tf) + 1 <==> CarryIsSafe(tf)
  {
    hide NativeMax, LastSector, CarryIsSafe, Succ;
    if CarryIsSafe(tf) {
      NativeMaxCarries(tf);
      SuccIsPlusOne(LastSector(tf));
    } else {
      NativeMaxLosesCarry(tf);
      TooSmall(NativeMax(tf), LastSector(tf) + 1);
    }
  }

  lemma TooSmall(n: u64, t: u64)
    requires n + 256 == t
    ensures n != t
  {}

  lemma NativeMaxCarries(tf: Regs)
    requires CarryIsSafe(tf)
    ensures NativeMax(tf) == Succ(LastSector(tf))
  {
    hide NativeMax, LastSector, HighPart, Join, JoinNext, Succ;
    NativeShape(tf);
    LastShape(tf);
    HighAligned(tf);
    IncrementSafe(HighPart(tf), tf.lob.lbam, tf.lob.lbal);
  }

  /** Otherwise it is 256 too small. */
  lemma NativeMaxLosesCarry(tf: Regs)
    requires !CarryIsSafe(tf)
    ensures NativeMax(tf) + 256 == LastSector(tf) + 1
  {
    hide NativeMax, LastSector, CarryIsSafe;
    CarryIsLost(tf);
  }

  lemma CarryIsLost(tf: Regs)
    requires !CarryIsSafe(tf)
    ensures Plus256(NativeMax(tf)) == Succ(LastSector(tf))
  {
    hide NativeMax, LastSector, HighPart, Join, JoinNext, Succ, Plus256;
    NativeShape(tf);
    LastShape(tf);
    HighAligned(tf);
    IncrementLost(HighPart(tf), tf.lob.lbam, tf.lob.lbal);
  }

  /** The address bits above the two low bytes. */
  function HighPart(tf: Regs): u64 {
    if tf.command == OP_READ_NATIVE_MAX then ((tf.dev as u64 & 0x0f) << 24) | (tf.lob.lbah as u64 << 16)
    else Previous24(tf.hob) | (tf.lob.lbah as u64 << 16)
  }

  function Join(h: u64, m: u8, l: u8): u64 { h | (m as u64 << 8) | l as u64 }

  function JoinNext(h: u64, m: u8, l: u8): u64 { h | (m as u64 << 8) | (l as u64 + 1) }

  lemma HighAligned(tf: Regs)
    ensures HighPart(tf) & 0xffff == 0
  {}

  lemma NativeShape(tf: Regs)
    ensures NativeMax(tf) == JoinNext(HighPart(tf), tf.lob.lbam, tf.lob.lbal)
  {
    hide Previous24;
    if tf.command != OP_READ_NATIVE_MAX {
      OrAssociates(Previous24(tf.hob), tf.lob.lbah, tf.lob.lbam, tf.lob.lbal);
    }
  }

  lemma OrAssociates(p: u64, h: u8, m: u8, l: u8)
    ensures p | ((h as u64 << 16) | (m as u64 << 8) | (l as u64 + 1)) == JoinNext(p | (h as u64 << 16), m, l)
  {}

  lemma LastShape(tf: Regs)
    ensures LastSector(tf) == Join(HighPart(tf), tf.lob.lbam, tf.lob.lbal)
  {
    hide LastSector, Join, HighPart;
    if tf.command == OP_READ_NATIVE_MAX {
      NibbleShape(tf);
    } else {
      HighShape(tf);
    }
  }

  lemma HighShape(tf: Regs)
    requires tf.command != OP_READ_NATIVE_MAX
    ensures LastSector(tf) == Join(HighPart(tf), tf.lob.lbam, tf.lob.lbal)
  {}

  lemma NibbleShape(tf: Regs)
    requires tf.command == OP_READ_NATIVE_MAX
    ensures LastSector(tf) == Join(HighPart(tf), tf.lob.lbam, tf.lob.lbal)
  {}

  /** Incrementing the low byte before the OR, against incrementing the whole. */
  lemma IncrementSafe(h: u64, m: u8, l: u8)
    requires h & 0xffff == 0 && (l != 0xff || m & 1 == 0)
    ensures JoinNext(h, m, l) == Succ(Join(h, m, l))
  {}

  function Succ(x: u64): u64 { x + 1 }

  function Plus256(x: u64): u64 { x + 256 }

  lemma SuccIsPlusOne(x: u64)
    ensures Succ(x) == x + 1
  {}

  lemma IncrementLost(h: u64, m: u8, l: u8)
    requires h & 0xffff == 0 && l == 0xff && m & 1 != 0
    ensures Plus256(JoinNext(h, m, l)) == Succ(Join(h, m, l))
  {}

  /** The decoded number of sectors, or 256 less when the carry is lost. */
  predicate CountsSectors(n: u64, tf: Regs) {
    if CarryIsSafe(tf) then n == Succ(LastSector(tf)) else Plus256(n) == Succ(LastSector(tf))
  }

  lemma NativeMaxCounts(tf: Regs)
    ensures CountsSectors(NativeMax(tf), tf)
  {
    hide LastSector, NativeMax, CarryIsSafe, Succ, Plus256;
    if CarryIsSafe(tf) {
      NativeMaxCarries(tf);
    } else {
      CarryIsLost(tf);
    }
  }

  lemma NativeMaxNeeds()
    ensures NeedsLba48(OP_READ_NATIVE_MAX_EXT, 0, 0) && !NeedsLba48(OP_READ_NATIVE_MAX, 0, 0)
  {}

  /** A drive of 0x200 sectors reads as one of 0x100. */
  lemma NativeMaxFails()
    ensures var tf := Regs(0x40, OP_READ_NATIVE_MAX_EXT, true, LbaRegs(0, 0, 0xff, 0x01, 0), ZERO_REGS);
            LastSector(tf) + 1 == 0x200 && NativeMax(tf) == 0x100
  {}

  /** The driver behind doTaskfileCmd: the registers come back with anything. */
  class AtaDriver {
    ghost var issued: seq<Regs>
    ghost var last: DparmResult
    ghost var left: Regs

    /** The ghost fields record the registers issued, the result and the registers left behind. */
    method DoTaskfileCmd(tf: TaskFile) returns (r: DparmResult)
      modifies this, tf
      ensures issued == old(issued) + [old(tf.View())] && last == r && left == tf.View()
    {
      r := *;
      issued, last := issued + [tf.View()], r;
      modify tf;
      left := tf.View();
    }
  }

  /** readNativeMaxSectors: the registers the drive left are decoded even when the command failed. */
  method ReadNativeMaxSectors(driver: AtaDriver, isAtapi: bool, bigLba: bool)
    returns (r: DparmResult, maxSectors: u64)
    modifies driver
    ensures !isAtapi ==> r == DparmResult(NOT_SUPPORTED, 0, 0) && maxSectors == 0 && driver.issued == old(driver.issued)
    ensures isAtapi ==> r == driver.last && |driver.issued| == |old(driver.issued)| + 1
                        && old(driver.issued) <= driver.issued
    ensures isAtapi ==> var sent := driver.issued[|old(driver.issued)|];
      if bigLba then sent.command == 0x27 && sent.isLba48 && sent.dev == 0x40
      else sent.command == 0xf8 && !sent.isLba48 && sent.dev == 0x01
    ensures isAtapi ==> CountsSectors(maxSectors, driver.left)
  {
    hide LastSector, NativeMax, CarryIsSafe, TfToLba, CountsSectors, NeedsLba48;
    NativeMaxNeeds();
    var tf := new TaskFile();
    if !isAtapi {
      return DparmResult(NOT_SUPPORTED, 0, 0), 0;
    }
    if bigLba {
      tf.TfInit(OP_READ_NATIVE_MAX_EXT, 0, 0);
      tf.dev := 0x40;
    } else {
      tf.TfInit(OP_READ_NATIVE_MAX, 0, 0);
      tf.dev := 0x01;
    }
    r := driver.DoTaskfileCmd(tf);
    maxSectors := NativeMax(Regs(tf.dev, tf.command, tf.isLba48, tf.lob, tf.hob));
    NativeMaxCounts(tf.View());
  }
}
