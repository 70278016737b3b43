/** The NVMe Get Log Page chunking of src/drive_handle_base.cc. */
module LogPage {
  import opened DparmTypes

  const TWO32: nat := 0x1_0000_0000
  const MAX_TRANSFER: nat := 4096
  const OP_GET_LOG_PAGE: uint8 := 0x02

  datatype AdminCmd = AdminCmd(opcode: uint8, nsid: uint32, dataLen: uint32,
                               cdw10: uint32, cdw11: uint32, cdw12: uint32, cdw13: uint32, cdw14: uint32)

  /** doNvmeGetLogPageCmd: the command it issues. Bit 15 of dword 10 is shared by the rae flag and the top lsp bit. */
  function GetLogPageCmd(nsid: uint32, logId: uint8, lsp: uint8, lpo: uint64, lsi: uint16, rae: bool, uuidIx: uint8,
                         dataLen: uint32): AdminCmd {
    var numd: nat := (dataLen / 4 - 1) % TWO32;
    var numdh: nat, numdl: nat := numd / 0x1_0000, numd % 0x1_0000;
    var low: nat, bit15: nat := lsp % 128, if rae || lsp >= 128 then 1 else 0;
    var subtype: nat, id: nat := lsi, logId;
    AdminCmd(OP_GET_LOG_PAGE, nsid, dataLen,
             id + 0x100 * low + 0x8000 * bit15 + 0x1_0000 * numdl,
             numdh + 0x1_0000 * subtype,
             lpo % TWO32, lpo / TWO32, uuidIx)
  }

  // ---- The fields as section 5.14 of NVMe 1.3 defines them ------------------------------------------------

  /** NUMDU and NUMDL: a zero-based count of dwords. */
  function RequestedBytes(c: AdminCmd): nat {
    4 * (c.cdw11 % 0x1_0000 * 0x1_0000 + c.cdw10 / 0x1_0000 + 1)
  }

  /** LPOU and LPOL: a byte offset. */
  function RequestedOffset(c: AdminCmd): nat {
    var low: nat, high: nat := c.cdw12, c.cdw13;
    high * TWO32 + low
  }

  function RequestedLogId(c: AdminCmd): nat { c.cdw10 % 0x100 }

  function RequestedRae(c: AdminCmd): bool { c.cdw10 / 0x8000 % 2 == 1 }

  /** The four bits of the log specific field. */
  function RequestedLsp(c: AdminCmd): nat { c.cdw10 / 0x100 % 16 }

  /** The upper half of dword 11, the log specific identifier of later revisions. */
  function RequestedLsi(c: AdminCmd): nat { c.cdw11 / 0x1_0000 }

  /**
   * A controller decodes offset, page and identifier as the caller meant them. The shared bit 15 and the width of
   * the lsp field make the flag and the lsp right exactly under the conditions given.
   */
  lemma FieldsDecode(nsid: uint32, logId: uint8, lsp: uint8, lpo: uint64, lsi: uint16, rae: bool, uuidIx: uint8,
                     dataLen: uint32)
    ensures var c := GetLogPageCmd(nsid, logId, lsp, lpo, lsi, rae, uuidIx, dataLen);
            && RequestedOffset(c) == lpo && RequestedLogId(c) == logId && RequestedLsi(c) == lsi
            && c.cdw14 == uuidIx && c.nsid == nsid && c.dataLen == dataLen && c.opcode == OP_GET_LOG_PAGE
            && (RequestedRae(c) == rae <==> rae || lsp < 128)
            && (RequestedLsp(c) == lsp <==> lsp < 16)
  {
    var numd := (dataLen / 4 - 1) % TWO32;
    var c := GetLogPageCmd(nsid, logId, lsp, lpo, lsi, rae, uuidIx, dataLen);
    DwordTen(logId, lsp % 128, if rae || lsp >= 128 then 1 else 0, numd % 0x1_0000, c.cdw10);
    DwordEleven(numd / 0x1_0000, lsi, c.cdw11);
    DwordsOffset(lpo);
  }

  /** One command, dword by dword: the second piece of 0x8_1000 bytes of page 2 with every field in use. */
  lemma KnownCommand()
    ensures GetLogPageCmd(0xffff_ffff, 0x02, 0x03, 0x5_0000_1000, 0x0006, true, 0x07, 0x8_1000)
         == AdminCmd(0x02, 0xffff_ffff, 0x8_1000, 0x03ff_8302, 0x0006_0002, 0x1000, 0x5, 0x07)
  {}

  /** A log specific field of 128 sets the retain flag, and is itself gone. */
  lemma TopBitRetains(nsid: uint32, logId: uint8, lpo: uint64, lsi: uint16, uuidIx: uint8, dataLen: uint32)
    ensures var c := GetLogPageCmd(nsid, logId, 128, lpo, lsi, false, uuidIx, dataLen);
            RequestedRae(c) && RequestedLsp(c) == 0
  {
    var c := GetLogPageCmd(nsid, logId, 128, lpo, lsi, false, uuidIx, dataLen);
    DwordTen(logId, 0, 1, (dataLen / 4 - 1) % TWO32 % 0x1_0000, c.cdw10);
  }

  /**
   * How much a command asks for: the length exactly when it is a positive multiple of four, too much exactly below
   * four bytes, where the dword count underflows, and otherwise the whole dwords of it.
   */
  lemma LengthDecodes(nsid: uint32, logId: uint8, lsp: uint8, lpo: uint64, lsi: uint16, rae: bool, uuidIx: uint8,
                      dataLen: uint32)
    ensures var c := GetLogPageCmd(nsid, logId, lsp, lpo, lsi, rae, uuidIx, dataLen);
            && (RequestedBytes(c) == dataLen <==> dataLen > 0 && dataLen % 4 == 0)
            && (RequestedBytes(c) > dataLen <==> dataLen < 4)
            && RequestedBytes(c) == if dataLen < 4 then 0x4_0000_0000 else dataLen / 4 * 4
  {
    var numd := (dataLen / 4 - 1) % TWO32;
    var c := GetLogPageCmd(nsid, logId, lsp, lpo, lsi, rae, uuidIx, dataLen);
    DwordTen(logId, lsp % 128, if rae || lsp >= 128 then 1 else 0, numd % 0x1_0000, c.cdw10);
    DwordEleven(numd / 0x1_0000, lsi, c.cdw11);
    assert RequestedBytes(c) == 4 * (numd + 1) by {
      assert numd / 0x1_0000 * 0x1_0000 + numd % 0x1_0000 == numd;
    }
    CountUnderflows(dataLen);
  }

  lemma CountUnderflows(dataLen: uint32)
    ensures (dataLen / 4 - 1) % TWO32 == if dataLen < 4 then TWO32 - 1 else dataLen / 4 - 1
  {}

  lemma DwordTen(id: nat, low: nat, bit15: nat, numdl: nat, dw: nat)
    requires id < 256 && low < 128 && bit15 < 2 && dw == id + 0x100 * low + 0x8000 * bit15 + 0x1_0000 * numdl
    ensures dw / 0x1_0000 == numdl && dw % 0x100 == id && dw / 0x8000 % 2 == bit15 && dw / 0x100 % 16 == low % 16
  {
    assert dw / 0x8000 == bit15 + 2 * numdl;
    assert dw / 0x100 == low + 0x80 * bit15 + 0x100 * numdl;
  }

  lemma DwordEleven(numdh: nat, lsi: nat, dw: nat)
    requires numdh < 0x1_0000 && dw == numdh + 0x1_0000 * lsi
    ensures dw % 0x1_0000 == numdh && dw / 0x1_0000 == lsi
  {}

  lemma DwordsOffset(lpo: uint64)
    ensures lpo / TWO32 * TWO32 + lpo % TWO32 == lpo
  {}

  /** The length of piece j. */
  function PieceLength(dataLen: uint32, j: nat): nat {
    if MAX_TRANSFER * j >= dataLen then 0
    else if dataLen - MAX_TRANSFER * j > MAX_TRANSFER then MAX_TRANSFER
    else dataLen - MAX_TRANSFER * j
  }

  /** The number of pieces: the ceiling of dataLen / 4096, but one for an empty request. */
  function PieceCount(dataLen: uint32): (n: nat)
    ensures n >= 1 && MAX_TRANSFER * (n - 1) <= dataLen <= MAX_TRANSFER * n
    ensures dataLen > 0 ==> MAX_TRANSFER * (n - 1) < dataLen
  {
    if dataLen == 0 then 1 else (dataLen + MAX_TRANSFER - 1) / MAX_TRANSFER
  }

  /** The command for piece j. */
  function PieceCmd(nsid: uint32, logId: uint8, rae: bool, dataLen: uint32, j: nat): AdminCmd
    requires j < PieceCount(dataLen)
  {
    GetLogPageCmd(nsid, logId, 0, MAX_TRANSFER * j, 0, rae, 0, PieceLength(dataLen, j))
  }

  /** The commands for the first n pieces. */
  function Pieces(nsid: uint32, logId: uint8, rae: bool, dataLen: uint32, n: nat): (cs: seq<AdminCmd>)
    requires n <= PieceCount(dataLen)
    ensures |cs| == n && forall j :: 0 <= j < n ==> cs[j] == PieceCmd(nsid, logId, rae, dataLen, j)
  {
    if n == 0 then []
    else Pieces(nsid, logId, rae, dataLen, n - 1) + [PieceCmd(nsid, logId, rae, dataLen, n - 1)]
  }

  lemma NoPieces(nsid: uint32, logId: uint8, rae: bool, dataLen: uint32)
    ensures Pieces(nsid, logId, rae, dataLen, 0) == []
  {}

  lemma MorePieces(nsid: uint32, logId: uint8, rae: bool, dataLen: uint32, n: nat)
    requires n < PieceCount(dataLen)
    ensures Pieces(nsid, logId, rae, dataLen, n + 1)
         == Pieces(nsid, logId, rae, dataLen, n)
            + [GetLogPageCmd(nsid, logId, 0, MAX_TRANSFER * n, 0, rae, 0, PieceLength(dataLen, n))]
  {
    hide GetLogPageCmd;
  }

  /** Whether command c asks for byte i. */
  predicate Covers(c: AdminCmd, i: nat) {
    RequestedOffset(c) <= i < RequestedOffset(c) + RequestedBytes(c)
  }

  /** For a positive multiple of four, the commands ask for every byte once and for no byte beyond the end. */
  lemma PiecesTile(nsid: uint32, logId: uint8, rae: bool, dataLen: uint32, i: nat, j: nat)
    requires dataLen > 0 && dataLen % 4 == 0 && j < PieceCount(dataLen)
    ensures Covers(PieceCmd(nsid, logId, rae, dataLen, j), i) <==> i < dataLen && i / MAX_TRANSFER == j
    ensures RequestedBytes(PieceCmd(nsid, logId, rae, dataLen, j)) == PieceLength(dataLen, j) <= MAX_TRANSFER
  {
    hide PieceCmd, PieceCount, PieceLength, RequestedBytes, RequestedOffset;
    PieceDecodes(nsid, logId, rae, dataLen, j);
    PieceSpan(dataLen, j);
    PieceOf(i, j);
  }

  /** The bytes of a piece are those of the request in its 4096. */
  lemma PieceSpan(dataLen: uint32, j: nat)
    requires dataLen > 0 && dataLen % 4 == 0 && j < PieceCount(dataLen)
    ensures var len := PieceLength(dataLen, j);
            4 <= len <= MAX_TRANSFER && len % 4 == 0 && (len < MAX_TRANSFER ==> MAX_TRANSFER * j + len == dataLen)
            && MAX_TRANSFER * j + len <= dataLen
  {}

  lemma PieceOf(i: nat, j: nat)
    ensures i / MAX_TRANSFER == j <==> MAX_TRANSFER * j <= i < MAX_TRANSFER * (j + 1)
  {}

  lemma PieceDecodes(nsid: uint32, logId: uint8, rae: bool, dataLen: uint32, j: nat)
    requires j < PieceCount(dataLen)
    ensures var c, len := PieceCmd(nsid, logId, rae, dataLen, j), PieceLength(dataLen, j);
            RequestedOffset(c) == MAX_TRANSFER * j
            && RequestedBytes(c) == if len < 4 then 0x4_0000_0000 else len / 4 * 4
  {
    hide GetLogPageCmd, RequestedBytes, RequestedOffset, RequestedLogId, RequestedRae, RequestedLsp, RequestedLsi;
    FieldsDecode(nsid, logId, 0, MAX_TRANSFER * j, 0, rae, 0, PieceLength(dataLen, j));
    LengthDecodes(nsid, logId, 0, MAX_TRANSFER * j, 0, rae, 0, PieceLength(dataLen, j));
  }

  /** The commands ask for every byte of the request in one piece, and for no byte beyond the end. */
  ghost predicate Tiles(nsid: uint32, logId: uint8, rae: bool, dataLen: uint32) {
    forall i: nat, j: nat :: j < PieceCount(dataLen) ==>
      (Covers(PieceCmd(nsid, logId, rae, dataLen, j), i) <==> i < dataLen && i / MAX_TRANSFER == j)
  }

  /** They do exactly for positive multiples of four. */
  lemma TilesIff(nsid: uint32, logId: uint8, rae: bool, dataLen: uint32)
    ensures Tiles(nsid, logId, rae, dataLen) <==> dataLen > 0 && dataLen % 4 == 0
  {
    hide PieceCmd, PieceCount, RequestedBytes, RequestedOffset;
    if dataLen > 0 && dataLen % 4 == 0 {
      forall i: nat, j: nat | j < PieceCount(dataLen)
        ensures Covers(PieceCmd(nsid, logId, rae, dataLen, j), i) <==> i < dataLen && i / MAX_TRANSFER == j
      {
        PiecesTile(nsid, logId, rae, dataLen, i, j);
      }
    } else {
      var j := PieceCount(dataLen) - 1;
      var len := PieceLength(dataLen, j);
      LastPiece(dataLen);
      PieceDecodes(nsid, logId, rae, dataLen, j);
      // The first byte beyond the end is asked for, or the last byte of the request is not.
      var i := if len < 4 then dataLen else dataLen - 1;
      assert Covers(PieceCmd(nsid, logId, rae, dataLen, j), i) <==> len < 4;
    }
  }

  lemma LastPiece(dataLen: uint32)
    requires dataLen == 0 || dataLen % 4 != 0
    ensures var j := PieceCount(dataLen) - 1; var len := PieceLength(dataLen, j);
            dataLen == MAX_TRANSFER * j + len && (len == 0 <==> dataLen == 0) && (len > 0 ==> len % 4 != 0)
            && (dataLen > 0 ==> (dataLen - 1) / MAX_TRANSFER == j)
  {}

  /** Some command asks for more than its piece, namely for 2^34 bytes, exactly at these lengths. */
  lemma SomePieceUnderflowsIff(nsid: uint32, logId: uint8, rae: bool, dataLen: uint32)
    ensures (exists j: nat :: j < PieceCount(dataLen)
              && RequestedBytes(PieceCmd(nsid, logId, rae, dataLen, j)) > PieceLength(dataLen, j))
       <==> dataLen == 0 || 1 <= dataLen % MAX_TRANSFER <= 3
  {
    hide PieceCmd, PieceLength, PieceCount, RequestedBytes, RequestedOffset;
    var last := PieceCount(dataLen) - 1;
    PieceDecodes(nsid, logId, rae, dataLen, last);
    forall j: nat | j < PieceCount(dataLen)
      ensures RequestedBytes(PieceCmd(nsid, logId, rae, dataLen, j)) > PieceLength(dataLen, j) ==> j == last
    {
      PieceDecodes(nsid, logId, rae, dataLen, j);
      EarlierPieceIsWhole(dataLen, j);
    }
    LastPieceIsShortIff(dataLen);
  }

  lemma EarlierPieceIsWhole(dataLen: uint32, j: nat)
    requires j < PieceCount(dataLen)
    ensures j < PieceCount(dataLen) - 1 ==> PieceLength(dataLen, j) == MAX_TRANSFER
    ensures PieceLength(dataLen, j) >= 4 ==> PieceLength(dataLen, j) / 4 * 4 <= PieceLength(dataLen, j)
  {}

  lemma LastPieceIsShortIff(dataLen: uint32)
    ensures PieceLength(dataLen, PieceCount(dataLen) - 1) < 4 <==> dataLen == 0 || 1 <= dataLen % MAX_TRANSFER <= 3
  {
    var last := PieceCount(dataLen) - 1;
    assert dataLen > 0 ==> MAX_TRANSFER * last < dataLen <= MAX_TRANSFER * last + MAX_TRANSFER;
  }

  /** A request of 4097 bytes makes the second command ask for 2^34. */
  lemma SecondPieceUnderflows(nsid: uint32, logId: uint8, rae: bool)
    ensures PieceCount(4097) == 2 && PieceLength(4097, 1) == 1
    ensures RequestedBytes(PieceCmd(nsid, logId, rae, 4097, 1)) == 0x4_0000_0000
  {
    hide PieceCmd, RequestedBytes, RequestedOffset;
    PieceDecodes(nsid, logId, rae, 4097, 1);
  }

  /** An empty request underflows the dword count: the controller is asked for 2^34 bytes. */
  lemma EmptyRequestUnderflows(nsid: uint32, logId: uint8, rae: bool)
    ensures RequestedBytes(PieceCmd(nsid, logId, rae, 0, 0)) == 0x4_0000_0000
  {
    hide PieceCmd, RequestedBytes, RequestedOffset;
    PieceDecodes(nsid, logId, rae, 0, 0);
  }

  function Min(a: nat, b: nat): nat { if a < b then a else b }

  /** The driver and the controller behind it. The log page has contents; whether a command succeeds is open. */
  class NvmeDriver {
    const page: nat -> uint8
    ghost var cmds: seq<AdminCmd>
    ghost var last: DparmResult

    constructor (page: nat -> uint8)
      ensures this.page == page && cmds == []
    {
      this.page := page;
      cmds := [];
    }

    /** A success delivers the bytes the command asks for, within the transfer length; nothing else is written. */
    method DoNvmeAdminPassthru(cmd: AdminCmd, data: array<uint8>, at: nat) returns (r: DparmResult)
      requires at + cmd.dataLen <= data.Length
      modifies `cmds, `last, data
      ensures cmds == old(cmds) + [cmd] && last == r
      ensures data[..at] == old(data[..at]) && data[at + cmd.dataLen..] == old(data[at + cmd.dataLen..])
      ensures r.IsOk() ==>
        forall i :: at <= i < at + Min(RequestedBytes(cmd), cmd.dataLen) ==>
          data[i] == page(RequestedOffset(cmd) + (i - at))
    {
      r := *;
      cmds, last := cmds + [cmd], r;
      if r.IsOk() {
        forall i | at <= i < at + Min(RequestedBytes(cmd), cmd.dataLen) {
          data[i] := page(RequestedOffset(cmd) + (i - at));
        }
      }
    }
  }

  /** doNvmeGetLogPageCmd: one transfer of a piece of the page, to the place at in the buffer. */
  method DoNvmeGetLogPageCmd(driver: NvmeDriver, nsid: uint32, logId: uint8, lsp: uint8, lpo: uint64, lsi: uint16,
                             rae: bool, uuidIx: uint8, dataLen: uint32, data: array<uint8>, at: nat)
    returns (r: DparmResult)
    requires at + dataLen <= data.Length
    modifies driver`cmds, driver`last, data
    ensures r == driver.last
    ensures driver.cmds == old(driver.cmds) + [GetLogPageCmd(nsid, logId, lsp, lpo, lsi, rae, uuidIx, dataLen)]
    ensures forall i :: 0 <= i < data.Length && (i < at || at + dataLen <= i) ==> data[i] == old(data[i])
    ensures r.IsOk() && dataLen % 4 == 0 ==>
      forall i :: at <= i < at + dataLen ==> data[i] == driver.page(lpo + (i - at))
  {
    hide GetLogPageCmd, RequestedBytes, RequestedOffset, RequestedLogId, RequestedRae, RequestedLsp, RequestedLsi;
    var cmd := GetLogPageCmd(nsid, logId, lsp, lpo, lsi, rae, uuidIx, dataLen);
    FieldsDecode(nsid, logId, lsp, lpo, lsi, rae, uuidIx, dataLen);
    LengthDecodes(nsid, logId, lsp, lpo, lsi, rae, uuidIx, dataLen);
    ghost var before := data[..];
    r := driver.DoNvmeAdminPassthru(cmd, data, at);
    forall i | 0 <= i < data.Length && (i < at || at + dataLen <= i)
      ensures data[i] == before[i]
    {
      if i < at {
        assert data[..at][i] == before[..at][i];
      } else {
        assert data[at + dataLen..][i - at - dataLen] == before[at + dataLen..][i - at - dataLen];
      }
    }
  }

  /**
   * doNvmeGetLogPage without a driver-specific routine. count is the number of commands issued, all of them
   * successful but possibly the last.
   */
  method DoNvmeGetLogPage(driver: NvmeDriver, nsid: uint32, logId: uint8, rae: bool, dataLen: uint32,
                          data: array<uint8>)
    returns (r: DparmResult, ghost count: nat)
    requires dataLen <= data.Length
    modifies driver`cmds, driver`last, data
    ensures r == driver.last
    ensures 1 <= count <= PieceCount(dataLen) && (r.IsOk() ==> count == PieceCount(dataLen))
    ensures driver.cmds == old(driver.cmds) + Pieces(nsid, logId, rae, dataLen, count)
    // What the buffer holds: the completed prefix of the page, and nothing past the piece that failed.
    ensures dataLen % 4 == 0 ==>
      forall i :: 0 <= i < (if r.IsOk() then dataLen else MAX_TRANSFER * (count - 1)) ==> data[i] == driver.page(i)
    ensures forall i :: Min(MAX_TRANSFER * count, dataLen) <= i < data.Length ==> data[i] == old(data[i])
  {
    hide GetLogPageCmd, Pieces, PieceCmd, RequestedBytes, RequestedOffset;
    NoPieces(nsid, logId, rae, dataLen);
    var offset := 0;
    count := 0;
    var again := true;
    r := DparmResult(OK, 0, 0);
    while again
      invariant offset == Min(MAX_TRANSFER * count, dataLen)
      invariant count <= PieceCount(dataLen) && r.IsOk() && (count > 0 ==> r == driver.last)
      invariant again <==> (count == 0 || offset < dataLen)
      invariant !again ==> count == PieceCount(dataLen)
      invariant driver.cmds == old(driver.cmds) + Pieces(nsid, logId, rae, dataLen, count)
      invariant dataLen % 4 == 0 ==> forall i :: 0 <= i < offset ==> data[i] == driver.page(i)
      invariant forall i :: offset <= i < data.Length ==> data[i] == old(data[i])
      decreases dataLen - offset, again
    {
      var xferLen := dataLen - offset;
      if xferLen > MAX_TRANSFER {
        xferLen := MAX_TRANSFER;
      }
      assert offset == MAX_TRANSFER * count && xferLen == PieceLength(dataLen, count);
      MorePieces(nsid, logId, rae, dataLen, count);
      r := DoNvmeGetLogPageCmd(driver, nsid, logId, 0, offset, 0, rae, 0, xferLen, data, offset);
      count := count + 1;
      if !r.IsOk() {
        break;
      }
      offset := offset + xferLen;
      again := offset < dataLen;
    }
  }
}
