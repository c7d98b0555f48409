/** The boards the shipped backends describe, run through the flash core. */
module Boards {
  import opened Words
  import opened Arith
  import opened Nor
  import opened FlashSpec
  import opened Walk
  import opened FlashResults
  import opened SectorMap
  import opened MockBackend

  /** On the mock, every update and every patch with no or a true old image succeeds, whatever the
      region inside its flash and whatever the flash holds. */
  lemma MockRunsSucceed(j: Job, f: seq<byte>)
    requires |f| == FLASH_SIZE && Honest(MockBoard(), j, f)
    ensures Succeeds(MockBoard(), j, f)
  {
    hide Succeeds, Honest;
    HonestAlwaysSucceeds(MockBoard(), j, f);
  }

  /** stlink_flash_write_granularity. */
  function WriteGranularity(ty: FlashType): (m: nat)
    ensures m > 0 && 1024 % m == 0
    ensures m == 32 <==> ty.H7?
    ensures m == 8 <==> ty.G0? || ty.G4? || ty.L4? || ty.L5U5H5? || ty.WbWl?
    ensures m == 2 <==> ty.F0F1F3? || ty.F1Xl?
    ensures m == 4 <==> ty.F2F4? || ty.F7? || ty.OtherFlash?
  {
    match ty
    case H7 => 32
    case G0 | G4 | L4 | L5U5H5 | WbWl => 8
    case F0F1F3 | F1Xl => 2
    case _ => 4
  }

  lemma {:induction false} StartIsKilobytes(table: seq<nat>, i: nat)
    requires i <= |table|
    ensures SectorStart(table, i) % 1024 == 0
  {
    if i == 0 {
    } else {
      StartIsKilobytes(table, i - 1);
    }
  }

  /** The unit a layout's block bounds are multiples of. */
  function BlockUnit(l: Layout): nat { if l.Uniform? then l.page else 1024 }

  lemma BankedStart(table: seq<nat>, off: nat, n: nat)
    requires FillsBank(table) && BlockAt(Banked(table), off, off, n)
    ensures off % 1024 == 0
  {
    hide SectorStart, FillsBank;
    var i: nat :| Holds(table, off % BANK, i) && off == off - off % BANK + SectorStart(table, i)
                  && n == SectorStart(table, i + 1) - SectorStart(table, i);
    StartIsKilobytes(table, i);
    KilobytesInBank(off);
  }

  lemma KilobytesInBank(off: nat)
    requires (off % BANK) % 1024 == 0
    ensures off % 1024 == 0
  {
  }

  lemma StartsAreMultiples(l: Layout, off: nat, m: nat)
    requires l.Valid() && IsStart(l, off) && m > 0 && BlockUnit(l) % m == 0
    ensures off % m == 0
  {
    match l
    case Uniform(page) =>
      RoundsToMultiples(off, page);
      MultipleOfMultiple(off, page, m);
    case Banked(table) =>
      var n: nat :| BlockAt(l, off, off, n);
      BankedStart(table, off, n);
      MultipleOfMultiple(off, 1024, m);
  }

  /** The cuts of a board that follows a layout are the layout's block starts. */
  lemma CutIsStart(b: Board, l: Layout, i: nat)
    requires b.Valid() && l.Valid() && i + 1 < |b.cuts|
    requires AnswersAreBlocks(b, l)
    ensures b.Base() <= b.cuts[i] && IsStart(l, b.cuts[i] - b.Base())
  {
    hide BlockAt;
    HullOfBlock(b, i);
    IndexUnique(b, b.cuts[i], i);
    var s, n := BlockExists(l, b.cuts[i] - b.Base());
    assert Answers(l, b.Base(), b.cuts[i], b.Base() + s, n);
  }

  /**
    A part behind an ST-Link, of any family: when its flash ends on a block boundary below 2^32,
    the table's granularity is whole program units of the part, and so are the base and, for a
    uniform family, the page, the backend's lookups describe a board on which every update and
    every patch with no or a true old image succeeds.
   */
  lemma StlinkRunsSucceed(ty: FlashType, base: nat, size: nat, pgsz: nat, unit: pos, ops: Ops)
    returns (b: Board)
    requires pgsz > 0 && 0 < size && base + size < LIMIT32 && pgsz < LIMIT32
    requires LayoutOf(ty, pgsz).Valid() && IsStart(LayoutOf(ty, pgsz), size)
    requires WriteGranularity(ty) % unit == 0
    requires base % unit == 0 && BlockUnit(LayoutOf(ty, pgsz)) % unit == 0
    requires ops.flashInfo && ops.flashSector && ops.flashRead && ops.flashWrite && ops.flashErase
    ensures b.Valid() && b.Base() == base && b.Limit() == base + size
    ensures b.writeAlign == WriteGranularity(ty) && b.unit == unit
    ensures AnswersAreBlocks(b, LayoutOf(ty, pgsz))
    ensures HonestJobsSucceed(b)
  {
    hide Succeeds, BlockAt, IsStart, AnswersAreBlocks;
    var l := LayoutOf(ty, pgsz);
    b := LayoutIsBoard(l, base, size, pgsz, WriteGranularity(ty), unit, ops);
    forall i | 0 <= i < |b.cuts| ensures b.cuts[i] % unit == 0 {
      if i + 1 < |b.cuts| { CutIsStart(b, l, i); }
      StartsAreMultiples(l, b.cuts[i] - base, unit);
      SumOfMultiples(base, b.cuts[i] - base, unit);
    }
    ServedBoardsSucceed(b);
  }

  /** Every update and every patch with no or a true old image succeeds. */
  ghost predicate HonestJobsSucceed(b: Board)
    requires b.Valid()
  {
    forall j: Job, f: seq<byte> :: |f| == b.Size() && Honest(b, j, f) ==> Succeeds(b, j, f)
  }

  lemma ServedBoardsSucceed(b: Board)
    requires b.Valid() && Served(b) && b.Limit() < LIMIT32
    ensures HonestJobsSucceed(b)
  {
    hide Succeeds;
    forall j: Job, f: seq<byte> | |f| == b.Size() && Honest(b, j, f) ensures Succeeds(b, j, f) {
      HonestAlwaysSucceeds(b, j, f);
    }
  }

  /** In particular, on every F2/F4 or F7 part of whole banks at the usual base. */
  lemma WholeBankPartsSucceed(ty: FlashType, banks: nat, pgsz: nat) returns (b: Board)
    requires (ty.F2F4? || ty.F7?) && 0 < banks <= 4 && 0 < pgsz < LIMIT32
    ensures b.Valid() && b.Base() == 0x0800_0000 && b.Size() == banks * BANK
    ensures HonestJobsSucceed(b)
  {
    hide HonestJobsSucceed, IsStart, FillsBank;
    TablesFillBank(ty);
    WholeBanksAreStarts(BankMap(ty), banks);
    b := StlinkRunsSucceed(ty, 0x0800_0000, banks * BANK, pgsz, 4,
                           Ops(true, true, true, true, true, true, true, true, true));
  }

  /**
    OpenOCD does not know the part's program unit and reports the size of the first sector instead.
    That is safe whatever the other sectors are, also where it does not divide them: all that the
    part has to provide is sectors of whole units.
   */
  lemma OpenocdRunsSucceed(b: Board)
    requires b.Valid() && b.Aligned() && b.Limit() < LIMIT32
    requires b.pageSize == b.writeAlign == BlockSize(b, 0)
    requires b.ops.flashInfo && b.ops.flashRead && b.ops.flashWrite && b.ops.flashErase
    ensures HonestJobsSucceed(b)
  {
    hide HonestJobsSucceed;
    HullOfBlock(b, 0);
    SumOfMultiples(b.cuts[0], b.cuts[1], b.unit);
    ServedBoardsSucceed(b);
  }
}
