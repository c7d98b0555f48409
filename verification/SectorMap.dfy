/** The erase-block layouts of the ST-Link backend: the F2/F4 and F7 bank tables and uniform pages. */
module SectorMap {
  import opened Words
  import opened Arith
  import opened Nor

  const BANK: nat := 1024 * 1024

  datatype FlashType = F2F4 | F7 | H7 | G0 | G4 | L4 | L5U5H5 | WbWl | F0F1F3 | F1Xl | OtherFlash

  /** Sector sizes of one bank, in KB; families without a table are uniform. */
  function BankMap(ty: FlashType): seq<nat> {
    match ty
    case F2F4 => [16, 16, 16, 16, 64, 128, 128, 128, 128, 128, 128, 128]
    case F7 => [32, 32, 32, 32, 128, 256, 256, 256]
    case _ => []
  }

  /** Where sector i of a bank starts. */
  ghost function SectorStart(table: seq<nat>, i: nat): nat
    requires i <= |table|
  {
    if i == 0 then 0 else SectorStart(table, i - 1) + table[i - 1] * 1024
  }

  /** A table of non-empty sectors that fill one bank exactly. */
  ghost predicate FillsBank(table: seq<nat>) {
    && (forall i :: 0 <= i < |table| ==> table[i] > 0)
    && SectorStart(table, |table|) == BANK
  }

  /** The F7 table, summed up. */
  lemma F7Starts(table: seq<nat>)
    requires table == BankMap(F7)
    ensures SectorStart(table, 6) == 512 * 1024 && SectorStart(table, 7) == 768 * 1024 && SectorStart(table, 8) == BANK
  {
    assert SectorStart(table, 1) == 32 * 1024;
    assert SectorStart(table, 2) == 64 * 1024;
    assert SectorStart(table, 3) == 96 * 1024;
    assert SectorStart(table, 4) == 128 * 1024;
    assert SectorStart(table, 5) == 256 * 1024;
  }

  /** The small sectors of the F2/F4 table, summed up. */
  lemma F2F4Starts(table: seq<nat>)
    requires table == BankMap(F2F4)
    ensures SectorStart(table, 4) == 64 * 1024
  {
    assert SectorStart(table, 1) == 16 * 1024;
    assert SectorStart(table, 2) == 32 * 1024;
    assert SectorStart(table, 3) == 48 * 1024;
  }

  /** Both tables total exactly one bank. */
  lemma TablesFillBank(ty: FlashType)
    requires BankMap(ty) != []
    ensures FillsBank(BankMap(ty))
  {
    var table := BankMap(ty);
    if ty.F7? {
      F7Starts(table);
    } else {
      F2F4Starts(table);
      LargeSectors(table, 12);
    }
  }

  /** From sector 5 on, the F2/F4 table goes in steps of 128 KB. */
  lemma {:induction false} LargeSectors(table: seq<nat>, i: nat)
    requires table == BankMap(F2F4) && 5 <= i <= 12 && SectorStart(table, 4) == 64 * 1024
    ensures SectorStart(table, i) == (i - 4) * 128 * 1024
  {
    if i == 5 {
    } else {
      LargeSectors(table, i - 1);
    }
  }

  lemma {:induction false} StartsGrow(table: seq<nat>, i: nat, k: nat)
    requires FillsBank(table) && i <= k <= |table|
    ensures SectorStart(table, i) <= SectorStart(table, k) && (i < k ==> SectorStart(table, i) < SectorStart(table, k))
    decreases k
  {
    if i == k {
    } else {
      StartsGrow(table, i, k - 1);
    }
  }

  /** Entry i of the table holds offset x of the bank. */
  ghost predicate Holds(table: seq<nat>, x: nat, i: nat) {
    i < |table| && SectorStart(table, i) <= x < SectorStart(table, i + 1)
  }

  /** The scan of the table: every offset of the bank hits an entry. */
  method ScanBank(table: seq<nat>, inBank: nat) returns (hit: bool, cursor: nat, size: nat, ghost i: nat)
    requires FillsBank(table)
    ensures hit <==> inBank < BANK
    ensures hit ==> Holds(table, inBank, i) && cursor == SectorStart(table, i) && size == table[i] * 1024
    ensures hit ==> size == SectorStart(table, i + 1) - SectorStart(table, i)
  {
    cursor, i := 0, 0;
    var n := 0;
    while n < |table|
      invariant 0 <= n <= |table| && cursor == SectorStart(table, n) <= inBank
    {
      size := U32(table[n] * 1024);
      StartsGrow(table, n + 1, |table|);
      if inBank < cursor + size {
        return true, cursor, size, n;
      }
      cursor := U32(cursor + size);
      n := n + 1;
    }
    return false, 0, 0, 0;
  }

  /** The entry that holds an offset, in closed form: an F7 bank is four sectors of 32 KB, one of
      128 KB and three of 256 KB. */
  lemma F7Sector(table: seq<nat>, o: nat, i: nat)
    requires table == BankMap(F7) && Holds(table, o, i)
    ensures var ss := if o < 0x2_0000 then 0x8000 else if o < 0x4_0000 then 0x2_0000 else 0x4_0000;
            table[i] * 1024 == ss && SectorStart(table, i) == o - o % ss
  {
    F7Starts(table);
    StartsOfSmall(table, 32, 4);
    assert SectorStart(table, 5) == SectorStart(table, 4) + 128 * 1024;
    hide SectorStart;
    if i < 4 {
      QuotientUnique(o, 0x8000, i);
    } else if i == 4 {
      QuotientUnique(o, 0x2_0000, 1);
    } else {
      QuotientUnique(o, 0x4_0000, i - 4);
    }
  }

  /** An F2/F4 bank is four sectors of 16 KB, one of 64 KB and seven of 128 KB. */
  lemma F2F4Sector(table: seq<nat>, o: nat, i: nat)
    requires table == BankMap(F2F4) && Holds(table, o, i)
    ensures var ss := if o < 0x1_0000 then 0x4000 else if o < 0x2_0000 then 0x1_0000 else 0x2_0000;
            table[i] * 1024 == ss && SectorStart(table, i) == o - o % ss
  {
    F2F4Starts(table);
    StartsOfSmall(table, 16, 4);
    LargeSectors(table, 5);
    if i >= 5 {
      LargeSectors(table, i);
      LargeSectors(table, i + 1);
    }
    hide SectorStart;
    if i < 4 {
      QuotientUnique(o, 0x4000, i);
    } else if i == 4 {
      QuotientUnique(o, 0x1_0000, 1);
    } else {
      QuotientUnique(o, 0x2_0000, i - 4);
    }
  }

  /** Equal sectors at the start of a bank lie at the multiples of their size. */
  lemma {:induction false} StartsOfSmall(table: seq<nat>, kb: nat, n: nat)
    requires n <= |table| && forall i :: 0 <= i < n ==> table[i] == kb
    ensures forall i :: 0 <= i <= n ==> SectorStart(table, i) == i * (kb * 1024)
  {
    if n == 0 {
    } else {
      StartsOfSmall(table, kb, n - 1);
      assert n * (kb * 1024) == (n - 1) * (kb * 1024) + kb * 1024;
    }
  }

  // ----- Layouts -----

  /** How a family lays its flash out, from the base of the flash on. */
  datatype Layout = Uniform(page: nat) | Banked(table: seq<nat>) {
    ghost predicate Valid() {
      match this
      case Uniform(page) => page > 0
      case Banked(table) => FillsBank(table)
    }
  }

  /** The block at offset off has start s and size n. */
  ghost predicate BlockAt(l: Layout, off: nat, s: nat, n: nat)
    requires l.Valid()
  {
    match l
    case Uniform(page) => s == RoundDown(off, page) && n == page
    case Banked(table) =>
      exists i: nat ::
        && Holds(table, off % BANK, i)
        && s == off - off % BANK + SectorStart(table, i)
        && n == SectorStart(table, i + 1) - SectorStart(table, i)
  }

  lemma {:induction false} SomeEntryHolds(table: seq<nat>, x: nat, k: nat) returns (i: nat)
    requires FillsBank(table) && k <= |table| && x < SectorStart(table, k)
    ensures i < k && Holds(table, x, i)
  {
    if SectorStart(table, k - 1) <= x {
      i := k - 1;
    } else {
      i := SomeEntryHolds(table, x, k - 1);
    }
  }

  /** Every offset has a block, and the block contains it. */
  lemma BlockExists(l: Layout, off: nat) returns (s: nat, n: nat)
    requires l.Valid()
    ensures BlockAt(l, off, s, n) && s <= off < s + n
  {
    match l
    case Uniform(page) =>
      s, n := RoundDown(off, page), page;
    case Banked(table) =>
      var i := SomeEntryHolds(table, off % BANK, |table|);
      s, n := off - off % BANK + SectorStart(table, i), SectorStart(table, i + 1) - SectorStart(table, i);
  }

  /** Sector lookup is a partition: every offset inside the block found for off finds that same
      block, so two blocks are equal or disjoint. */
  lemma BlocksPartition(l: Layout, off: nat, s: nat, n: nat, off': nat, s': nat, n': nat)
    requires l.Valid() && BlockAt(l, off, s, n) && BlockAt(l, off', s', n')
    ensures s <= off < s + n
    ensures s <= off' < s + n <==> (s', n') == (s, n)
    ensures (s', n') == (s, n) || s' + n' <= s || s + n <= s'
  {
    match l
    case Uniform(page) =>
      PagesPartition(off, off', page);
    case Banked(table) =>
      BankBlocksPartition(table, off, s, n, off', s', n');
  }

  lemma PagesPartition(x: nat, y: nat, p: nat)
    requires p > 0
    ensures var s, t := RoundDown(x, p), RoundDown(y, p);
            && (s <= y < s + p <==> s == t)
            && (s == t || s + p <= t || t + p <= s)
  {
    RoundsToMultiples(x, p);
    RoundsToMultiples(y, p);
    var s, t := RoundDown(x, p), RoundDown(y, p);
    if s < t { MultipleGap(s, t, p); }
    if t < s { MultipleGap(t, s, p); }
  }

  /** Two multiples of p are equal or at least p apart. */
  lemma MultipleGap(s: nat, t: nat, p: nat)
    requires p > 0 && s % p == 0 && t % p == 0 && s < t
    ensures s + p <= t
  {
    DivisionLaw(s, p);
    DivisionLaw(t, p);
    if t / p <= s / p {
      MulLe(t / p, s / p, p);
    } else {
      MulLe(s / p + 1, t / p, p);
    }
    assert (s / p + 1) * p == (s / p) * p + p;
  }

  lemma EndsInBank(table: seq<nat>, i: nat)
    requires FillsBank(table) && i < |table|
    ensures SectorStart(table, i) < SectorStart(table, i + 1) <= BANK
  {
    StartsGrow(table, i, i + 1);
    StartsGrow(table, i + 1, |table|);
  }

  lemma BankBlocksPartition(table: seq<nat>, off: nat, s: nat, n: nat, off': nat, s': nat, n': nat)
    requires FillsBank(table)
    requires BlockAt(Banked(table), off, s, n) && BlockAt(Banked(table), off', s', n')
    ensures s <= off < s + n
    ensures s <= off' < s + n <==> (s', n') == (s, n)
    ensures (s', n') == (s, n) || s' + n' <= s || s + n <= s'
  {
    hide SectorStart, FillsBank;
    SameBankOrApart(off, off');
    var x, y := off % BANK, off' % BANK;
    var i: nat :| Holds(table, x, i) && s == off - x + SectorStart(table, i)
                  && n == SectorStart(table, i + 1) - SectorStart(table, i);
    var k: nat :| Holds(table, y, k) && s' == off' - y + SectorStart(table, k)
                  && n' == SectorStart(table, k + 1) - SectorStart(table, k);
    EndsInBank(table, i);
    EndsInBank(table, k);
    if i < k { StartsGrow(table, i + 1, k); }
    if k < i { StartsGrow(table, k + 1, i); }
  }

  lemma SameBankOrApart(off: nat, off': nat)
    ensures var p, q := off - off % BANK, off' - off' % BANK; p == q || p + BANK <= q || q + BANK <= p
  {
  }

  // ----- The backend's lookup -----

  function LayoutOf(ty: FlashType, pgsz: nat): Layout {
    if BankMap(ty) != [] then Banked(BankMap(ty)) else Uniform(pgsz)
  }

  /** The block of an address of a flash at `base` has start sb and size ss. */
  ghost predicate Answers(l: Layout, base: nat, addr: nat, sb: nat, ss: nat)
    requires l.Valid()
  {
    base <= addr && base <= sb && BlockAt(l, addr - base, sb - base, ss)
  }

  /** stlink_flash_sector_map: fails for the uniform families. */
  method StlinkFlashSectorMap(ty: FlashType, flashBase: nat, addr: nat)
    returns (ok: bool, sb: nat, ss: nat)
    requires flashBase <= addr < LIMIT32
    ensures ok <==> ty.F2F4? || ty.F7?
    ensures ok ==>
              var o := (addr - flashBase) % 0x10_0000;
              && ss == (if ty.F7? then
                          if o < 0x2_0000 then 0x8000 else if o < 0x4_0000 then 0x2_0000 else 0x4_0000
                        else
                          if o < 0x1_0000 then 0x4000 else if o < 0x2_0000 then 0x1_0000 else 0x2_0000)
              && sb == addr - o % ss
    ensures ok ==> FillsBank(BankMap(ty)) && Answers(Banked(BankMap(ty)), flashBase, addr, sb, ss)
  {
    ok, sb, ss := false, 0, 0;
    var table := BankMap(ty);
    if table == [] { return; }
    TablesFillBank(ty);
    var offset := addr - flashBase;
    var bankBase := U32((offset / BANK) * BANK);
    var inBank := offset - bankBase;
    assert inBank == offset % BANK;
    var cursor;
    ghost var i;
    ok, cursor, ss, i := ScanBank(table, inBank);
    if ty.F7? { F7Sector(table, inBank, i); } else { F2F4Sector(table, inBank, i); }
    sb := U32(flashBase + bankBase + cursor);
  }

  /** stlink_impl_flash_sector: every address of the flash gets its block, and no other address. */
  method StlinkImplFlashSector(ty: FlashType, flashBase: nat, flashSize: nat, pgsz: nat, addr: nat)
    returns (ok: bool, sb: nat, ss: nat)
    requires flashBase < LIMIT32 && flashSize < LIMIT32 && pgsz < LIMIT32 && addr < LIMIT32
    ensures ok <==> flashBase <= addr < flashBase + flashSize && (ty.F2F4? || ty.F7? || pgsz > 0)
    ensures ok ==>
              var o := (addr - flashBase) % 0x10_0000;
              && ss == (if ty.F7? then
                          if o < 0x2_0000 then 0x8000 else if o < 0x4_0000 then 0x2_0000 else 0x4_0000
                        else if ty.F2F4? then
                          if o < 0x1_0000 then 0x4000 else if o < 0x2_0000 then 0x1_0000 else 0x2_0000
                        else pgsz)
              && ss > 0
              && sb == (if ty.F7? || ty.F2F4? then addr - o % ss else addr - (addr - flashBase) % pgsz)
    ensures ok ==> LayoutOf(ty, pgsz).Valid() && Answers(LayoutOf(ty, pgsz), flashBase, addr, sb, ss)
  {
    ok, sb, ss := false, 0, 0;
    if addr < flashBase || addr - flashBase >= flashSize { return; }
    ok, sb, ss := StlinkFlashSectorMap(ty, flashBase, addr);
    if ok || pgsz == 0 { return; }
    DivisionLaw(addr - flashBase, pgsz);
    RoundDownIs(addr - flashBase, pgsz);
    sb := U32(flashBase + ((addr - flashBase) / pgsz) * pgsz);
    return true, sb, pgsz;
  }

  // ----- The layout as a board of the flash core -----

  /** A block starts at this offset. */
  ghost predicate IsStart(l: Layout, off: nat)
    requires l.Valid()
  {
    exists n: nat :: BlockAt(l, off, off, n)
  }

  /** The cuts are the starts of consecutive blocks of the layout. */
  ghost predicate FollowsLayout(l: Layout, base: nat, cuts: seq<nat>)
    requires l.Valid()
  {
    forall i :: 0 <= i < |cuts| - 1 ==> BlockBetween(l, base, cuts, i)
  }

  ghost predicate BlockBetween(l: Layout, base: nat, cuts: seq<nat>, i: nat)
    requires l.Valid() && i + 1 < |cuts|
  {
    base <= cuts[i] < cuts[i + 1] && BlockAt(l, cuts[i] - base, cuts[i] - base, cuts[i + 1] - cuts[i])
  }

  /** Where one block ends the next one starts. */
  lemma NextStart(l: Layout, off: nat, n: nat)
    requires l.Valid() && BlockAt(l, off, off, n)
    ensures n > 0 && IsStart(l, off + n)
  {
    BlocksPartition(l, off, off, n, off, off, n);
    var s, m := BlockExists(l, off + n);
    BlocksPartition(l, off, off, n, off + n, s, m);
  }

  /** A flash that ends on a block boundary is cut by the layout into whole blocks. */
  lemma {:induction false} CutsExist(l: Layout, base: nat, off: nat, size: nat) returns (cuts: seq<nat>)
    requires l.Valid() && off <= size && IsStart(l, off) && IsStart(l, size)
    ensures 1 <= |cuts| && cuts[0] == base + off && cuts[|cuts| - 1] == base + size
    ensures FollowsLayout(l, base, cuts)
    decreases size - off
  {
    hide BlockAt;
    if off == size {
      cuts := [base + off];
    } else {
      var n: nat :| BlockAt(l, off, off, n);
      var m: nat :| BlockAt(l, size, size, m);
      NextStart(l, off, n);
      BlocksPartition(l, off, off, n, size, size, m);
      BlocksPartition(l, size, size, m, off, off, n);
      var rest := CutsExist(l, base, off + n, size);
      cuts := [base + off] + rest;
      forall i | 0 <= i < |cuts| - 1 ensures BlockBetween(l, base, cuts, i) {
        if i > 0 { assert BlockBetween(l, base, rest, i - 1); }
      }
    }
  }

  lemma {:induction false} CutsGrow(l: Layout, base: nat, cuts: seq<nat>, i: nat, k: nat)
    requires l.Valid() && FollowsLayout(l, base, cuts) && i < k < |cuts|
    ensures cuts[i] < cuts[k]
    decreases k
  {
    hide BlockAt;
    assert BlockBetween(l, base, cuts, k - 1);
    if i < k - 1 { CutsGrow(l, base, cuts, i, k - 1); }
  }

  /** For every address of the flash, the lookup answers with the bounds of the board's block. */
  ghost predicate AnswersAreBlocks(b: Board, l: Layout)
    requires b.Valid() && l.Valid()
  {
    forall addr: nat, sb: nat, ss: nat ::
      Answers(l, b.Base(), addr, sb, ss) && addr < b.Limit() ==>
        b.cuts[b.Index(addr)] == sb && b.cuts[b.Index(addr) + 1] == sb + ss
  }

  /**
    The layout gives a board of the flash core: its erase blocks partition the flash, and for
    every address the backend's lookup answers with the bounds of the board's block.
   */
  lemma LayoutIsBoard(l: Layout, base: nat, size: nat, pgsz: nat, align: nat, unit: pos, ops: Ops)
    returns (b: Board)
    requires l.Valid() && IsStart(l, size) && 0 < size < LIMIT32 && base + size <= LIMIT32
    requires pgsz < LIMIT32 && align < LIMIT32 && ops.flashSector
    ensures b.Valid() && b.Base() == base && b.Limit() == base + size && b.ops == ops
    ensures b.pageSize == pgsz && b.writeAlign == align && b.unit == unit
    ensures AnswersAreBlocks(b, l)
  {
    hide BlockAt;
    FirstStart(l);
    var cuts := CutsExist(l, base, 0, size);
    b := Board(cuts, pgsz, align, unit, ops);
    forall i, k | 0 <= i < k < |cuts| ensures b.Before(i, k) {
      CutsGrow(l, base, cuts, i, k);
    }
    forall addr: nat, sb: nat, ss: nat | Answers(l, base, addr, sb, ss) && addr < base + size
      ensures b.cuts[b.Index(addr)] == sb && b.cuts[b.Index(addr) + 1] == sb + ss
    {
      var i := b.Index(addr);
      assert BlockBetween(l, base, cuts, i);
      var at := cuts[i] - base;
      BlocksPartition(l, at, at, cuts[i + 1] - cuts[i], addr - base, sb - base, ss);
    }
  }

  lemma FirstStart(l: Layout)
    requires l.Valid()
    ensures IsStart(l, 0)
  {
    var s, n := BlockExists(l, 0);
  }

  /** Flash sizes of whole banks, of either table, end on a block boundary. */
  lemma WholeBanksAreStarts(table: seq<nat>, banks: nat)
    requires FillsBank(table)
    ensures IsStart(Banked(table), banks * BANK)
  {
    var i := SomeEntryHolds(table, 0, |table|);
    StartsGrow(table, 0, i);
    assert (banks * BANK) % BANK == 0;
    assert BlockAt(Banked(table), banks * BANK, banks * BANK, SectorStart(table, i + 1) - SectorStart(table, i));
  }

  lemma InFirstBank(off: nat)
    requires off < BANK
    ensures off % BANK == off
  {
  }

  /** The block of an offset, from the entry that holds it. */
  lemma BlockOfEntry(table: seq<nat>, off: nat, i: nat)
    requires FillsBank(table) && Holds(table, off % BANK, i)
    ensures SectorStart(table, i) < SectorStart(table, i + 1)
    ensures BlockAt(Banked(table), off, off - off % BANK + SectorStart(table, i),
                    SectorStart(table, i + 1) - SectorStart(table, i))
  {
    hide SectorStart, FillsBank;
  }

  /** Every entry of the table starts a block of the first bank. */
  lemma EntryIsStart(table: seq<nat>, i: nat)
    requires FillsBank(table) && i < |table|
    ensures IsStart(Banked(table), SectorStart(table, i))
  {
    hide SectorStart, FillsBank, BlockAt;
    EndsInBank(table, i);
    var off := SectorStart(table, i);
    InFirstBank(off);
    BlockOfEntry(table, off, i);
  }

  /** The common half-bank parts too. */
  lemma HalfBanksAreStarts(ty: FlashType)
    requires ty.F2F4? || ty.F7?
    ensures FillsBank(BankMap(ty)) && IsStart(Banked(BankMap(ty)), 512 * 1024)
  {
    TablesFillBank(ty);
    var table := BankMap(ty);
    var i := if ty.F7? then 6 else 8;
    if ty.F7? {
      F7Starts(table);
    } else {
      F2F4Starts(table);
      LargeSectors(table, 8);
      LargeSectors(table, 9);
    }
    EntryIsStart(table, i);
  }
}
