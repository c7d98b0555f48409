/** The in-memory mock backend: a sparse page table for RAM and a flash window with NOR semantics. */
module MockBackend {
  import opened Words
  import opened Nor

  const MAX_MEM_PAGES: nat := 256
  const PAGE_SIZE: nat := 4096
  const FLASH_BASE: nat := 0x0800_0000
  const FLASH_SIZE: nat := 256 * 1024
  const FLASH_PAGE: nat := 1024
  const FLASH_ALIGN: nat := 4

  /** The mock as a board of the flash core: uniform pages, no sector operation. */
  function MockBoard(): (b: Board)
    ensures b.Valid() && b.Base() == FLASH_BASE && b.Size() == FLASH_SIZE && b.Aligned()
    ensures b.Align() == b.unit == FLASH_ALIGN && |b.cuts| == FLASH_SIZE / FLASH_PAGE + 1
    ensures forall i :: 0 <= i < |b.cuts| ==> b.cuts[i] == FLASH_BASE + i * FLASH_PAGE
  {
    Board(seq(257, i requires i >= 0 => FLASH_BASE + i * FLASH_PAGE), FLASH_PAGE, FLASH_ALIGN, FLASH_ALIGN,
          Ops(true, false, true, true, true, true, true, true, true))
  }

  predicate InFlashWindow(addr: nat) {
    FLASH_BASE <= addr && addr - FLASH_BASE < FLASH_SIZE
  }

  /** mock_flash_range_ok. */
  predicate FlashRangeOk(addr: nat, len: nat)
    requires addr < LIMIT32
    ensures FlashRangeOk(addr, len) <==> MockBoard().InFlash(addr, len)
  {
    if len == 0 || len > FLASH_SIZE then false
    else if addr < FLASH_BASE then false
    else addr - FLASH_BASE <= FLASH_SIZE - U32(len)
  }

  /** The erase arithmetic finds the pages that meet the range, and its clamp never fires. */
  lemma EraseBounds(addr: nat, len: nat)
    requires MockBoard().InFlash(addr, len)
    ensures var b := MockBoard();
            var first := ((addr - FLASH_BASE) / FLASH_PAGE) * FLASH_PAGE;
            var last := ((addr - FLASH_BASE + len - 1) / FLASH_PAGE + 1) * FLASH_PAGE;
            && last <= FLASH_SIZE
            && b.HullLo(addr, len) == FLASH_BASE + first && b.HullHi(addr, len) == FLASH_BASE + last
  {
    hide MockBoard;
    var b := MockBoard();
    IndexUnique(b, addr, (addr - FLASH_BASE) / FLASH_PAGE);
    IndexUnique(b, addr + len - 1, (addr - FLASH_BASE + len - 1) / FLASH_PAGE);
  }

  /** The bytes between the erase bounds are those whose page meets the range. */
  lemma PagesBetween(addr: nat, len: nat)
    requires MockBoard().InFlash(addr, len)
    ensures var first := ((addr - FLASH_BASE) / FLASH_PAGE) * FLASH_PAGE;
            var last := ((addr - FLASH_BASE + len - 1) / FLASH_PAGE + 1) * FLASH_PAGE;
            forall x: nat :: InFlashWindow(x) ==>
              (first <= x - FLASH_BASE < last <==> x - x % 1024 < addr + len && addr < x - x % 1024 + 1024)
  {
    hide MockBoard;
  }

  /** What storing a byte leaves at the address: flash can only lose bits. */
  function Stored(addr: nat, was: byte, value: byte): byte {
    if InFlashWindow(addr) then was & value else value
  }

  /** The k-th byte address of a word access; it may wrap. */
  function Lane(addr: nat, k: nat): nat { U32(addr + k) }

  /** x is among the first n lanes. */
  predicate Covers(addr: nat, n: nat, x: nat) {
    || (n > 0 && x == Lane(addr, 0)) || (n > 1 && x == Lane(addr, 1))
    || (n > 2 && x == Lane(addr, 2)) || (n > 3 && x == Lane(addr, 3))
  }

  lemma LanesApart(addr: nat)
    ensures forall i, k :: 0 <= i < k < 4 ==> Lane(addr, i) != Lane(addr, k)
    ensures forall n: nat, x :: n < 4 ==> (Covers(addr, n + 1, x) <==> Covers(addr, n, x) || x == Lane(addr, n))
  {
  }

  lemma NoLanes(addr: nat)
    ensures forall x :: !Covers(addr, 0, x)
  {
  }

  lemma LanesAre(addr: nat)
    requires addr < LIMIT32
    ensures Lane(addr, 0) == addr
    ensures forall k :: 0 <= k < 4 ==> Lane(addr, k) == (addr + k) % 0x1_0000_0000
  {
  }

  /** The first n lanes are the addresses less than n after `addr`. */
  lemma CoveredOffset(addr: nat, n: nat)
    requires addr < LIMIT32
    ensures forall x: nat ::
              x < 0x1_0000_0000 && (x + 0x1_0000_0000 - addr) % 0x1_0000_0000 >= n ==> !Covers(addr, n, x)
  {
  }

  /** In RAM a stored word reads back as it was; in flash it reads back masked by what was there. */
  lemma StoredWord(addr: nat, was: bv32, value: bv32, now: bv32)
    requires forall k :: 0 <= k < 4 ==>
               ByteOf(now, k) == Stored(Lane(addr, k), ByteOf(was, k), ByteOf(value, k))
    ensures (forall k :: 0 <= k < 4 ==> !InFlashWindow(Lane(addr, k))) ==> now == value
    ensures (forall k :: 0 <= k < 4 ==> InFlashWindow(Lane(addr, k))) ==> now == was & value
  {
    WordOfBytes(now);
    WordOfBytes(value);
    WordOfBytes(was);
    assert ByteOf(now, 0) == Stored(Lane(addr, 0), ByteOf(was, 0), ByteOf(value, 0));
    assert ByteOf(now, 1) == Stored(Lane(addr, 1), ByteOf(was, 1), ByteOf(value, 1));
    assert ByteOf(now, 2) == Stored(Lane(addr, 2), ByteOf(was, 2), ByteOf(value, 2));
    assert ByteOf(now, 3) == Stored(Lane(addr, 3), ByteOf(was, 3), ByteOf(value, 3));
  }

  /** The first entry of the table for a page, or the length of the table. */
  ghost function Entry(pages: seq<nat>, page: nat): (i: nat)
    ensures i <= |pages|
    ensures i < |pages| ==> pages[i] == page
    ensures forall n :: 0 <= n < i ==> pages[n] != page
  {
    if pages == [] || pages[0] == page then 0 else 1 + Entry(pages[1..], page)
  }

  lemma EntryIs(pages: seq<nat>, page: nat, i: nat)
    requires i <= |pages| && (i < |pages| ==> pages[i] == page)
    requires forall n :: 0 <= n < i ==> pages[n] != page
    ensures Entry(pages, page) == i
  {
  }

  /** A new page at the end of the table moves no other page. */
  lemma EntryAfterAppend(pages: seq<nat>, page: nat, other: nat)
    requires Entry(pages, page) == |pages|
    ensures Entry(pages + [page], other)
            == if other == page then |pages|
               else if Entry(pages, other) < |pages| then Entry(pages, other) else |pages| + 1
  {
    hide Entry;
    var i := Entry(pages, other);
    if i < |pages| {
      EntryIs(pages + [page], other, i);
    } else if other == page {
      EntryIs(pages + [page], other, |pages|);
    } else {
      EntryIs(pages + [page], other, |pages| + 1);
    }
  }

  lemma OneByteProgram(f: seq<byte>, addr: nat, value: byte)
    requires |f| == FLASH_SIZE && InFlashWindow(addr)
    ensures Program(addr, [value]).InRange(MockBoard())
    ensures var x := addr - FLASH_BASE;
            Apply(MockBoard(), f, Program(addr, [value])) == f[x := Stored(addr, f[x], value)]
  {
    hide MockBoard;
    var x, g := addr - FLASH_BASE, Apply(MockBoard(), f, Program(addr, [value]));
    SameElements(g, f[x := f[x] & value]);
  }

  class Mock {
    const flash: array<byte>
    const pageAddr: array<nat>
    const pageData: array2<byte>
    var numPages: nat

    /** Every program and erase the flash has seen since it was blank. */
    ghost var history: seq<Event>

    /** Page addresses are aligned and unique; the flash is what its history makes of a blank one. */
    ghost predicate Valid()
      reads this, flash, pageAddr
    {
      && flash.Length == FLASH_SIZE && pageAddr.Length == MAX_MEM_PAGES
      && pageData.Length0 == MAX_MEM_PAGES && pageData.Length1 == PAGE_SIZE
      && numPages <= MAX_MEM_PAGES
      && (forall i :: 0 <= i < numPages ==> pageAddr[i] % PAGE_SIZE == 0)
      && (forall i, k :: 0 <= i < k < numPages ==> pageAddr[i] != pageAddr[k])
      && AllInRange(MockBoard(), history)
      && flash[..] == Replay(MockBoard(), Blank(FLASH_SIZE), history)
    }

    constructor ()
      ensures Valid() && fresh(flash) && fresh(pageAddr) && fresh(pageData)
      ensures history == [] && numPages == 0
      ensures forall x: nat :: At(x) == if 0x0800_0000 <= x < 0x0804_0000 then 0xFF else 0
    {
      flash := new byte[FLASH_SIZE](_ => ERASED);
      pageAddr := new nat[MAX_MEM_PAGES];
      pageData := new byte[MAX_MEM_PAGES, PAGE_SIZE];
      numPages, history := 0, [];
      new;
      assert flash[..] == Blank(FLASH_SIZE);
    }

    ghost function Pages(): seq<nat>
      requires numPages <= pageAddr.Length
      reads this`numPages, pageAddr
    {
      pageAddr[..numPages]
    }

    /** The flat view of memory: a byte for every address, zero where RAM was never written. */
    ghost function RamAt(addr: nat): byte
      requires numPages <= pageAddr.Length <= pageData.Length0 && pageData.Length1 == PAGE_SIZE
      reads this`numPages, pageAddr, pageData
    {
      var i := Entry(Pages(), addr - addr % PAGE_SIZE);
      if i < numPages then pageData[i, addr % PAGE_SIZE] else 0
    }

    ghost function At(addr: nat): byte
      requires numPages <= pageAddr.Length <= pageData.Length0 && pageData.Length1 == PAGE_SIZE
      requires flash.Length == FLASH_SIZE
      reads this`numPages, flash, pageAddr, pageData
    {
      if InFlashWindow(addr) then flash[addr - FLASH_BASE] else RamAt(addr)
    }

    /** The entry of an address's page, or numPages. */
    ghost function EntryOf(addr: nat): nat
      requires numPages <= pageAddr.Length
      reads this`numPages, pageAddr
    {
      Entry(Pages(), addr - addr % PAGE_SIZE)
    }

    /** The table has a page for the address. */
    ghost predicate HasPage(addr: nat)
      requires numPages <= pageAddr.Length
      reads this`numPages, pageAddr
    {
      exists i :: 0 <= i < numPages && pageAddr[i] == addr - addr % 4096
    }

    lemma HasPageIff(addr: nat)
      requires numPages <= pageAddr.Length
      ensures HasPage(addr) <==> EntryOf(addr) < numPages
    {
      hide Entry;
      if HasPage(addr) {
        var i :| 0 <= i < numPages && pageAddr[i] == addr - addr % 4096;
        assert Pages()[i] == addr - addr % PAGE_SIZE;
      }
    }

    /** get_or_create_page: the entry of an address's page; a new page starts out zero. */
    method GetOrCreatePage(addr: nat, create: bool) returns (found: bool, i: nat)
      requires Valid()
      modifies this`numPages, pageAddr, pageData
      ensures Valid()
      ensures forall x :: RamAt(x) == old(RamAt(x))
      ensures found ==> i < numPages && i == EntryOf(addr) && pageAddr[i] == addr - addr % 4096
      ensures found <==> old(HasPage(addr)) || (create && old(numPages) < 256)
      ensures numPages <= 256
      ensures numPages == old(numPages) + if found && !old(HasPage(addr)) then 1 else 0
    {
      hide Entry, RamAt, HasPage;
      HasPageIff(addr);
      var page := addr - addr % PAGE_SIZE;
      i := 0;
      while i < numPages
        invariant 0 <= i <= numPages
        invariant forall n :: 0 <= n < i ==> Pages()[n] != page
      {
        if pageAddr[i] == page {
          EntryIs(Pages(), page, i);
          return true, i;
        }
        i := i + 1;
      }
      EntryIs(Pages(), page, i);
      if !create || numPages >= MAX_MEM_PAGES { return false, 0; }
      AddPage(page);
      return true, numPages - 1;
    }

    method AddPage(page: nat)
      requires Valid() && numPages < MAX_MEM_PAGES && page % PAGE_SIZE == 0
      requires Entry(Pages(), page) == numPages
      modifies this`numPages, pageAddr, pageData
      ensures Valid() && numPages == old(numPages) + 1
      ensures Entry(Pages(), page) == numPages - 1
      ensures forall x :: RamAt(x) == old(RamAt(x))
    {
      hide Entry;
      ghost var pages := Pages();
      pageAddr[numPages] := page;
      var n := numPages;
      forall k | 0 <= k < PAGE_SIZE { pageData[n, k] := 0; }
      numPages := numPages + 1;
      assert Pages() == pages + [page];
      forall x: nat ensures RamAt(x) == old(RamAt(x)) {
        EntryAfterAppend(pages, page, x - x % PAGE_SIZE);
      }
      EntryAfterAppend(pages, page, page);
    }

    /** mock_impl_write8: one byte of the flat view changes, or, with the page table full, none. */
    method Write8(addr: nat, value: byte) returns (ok: bool)
      requires Valid() && addr < LIMIT32
      modifies this`numPages, this`history, pageAddr, pageData, flash
      ensures Valid()
      ensures ok ==> At(addr) == if 0x0800_0000 <= addr < 0x0804_0000 then old(At(addr)) & value else value
      ensures ok ==> At(addr) == Stored(addr, old(At(addr)), value)
      ensures forall x :: x != addr || !ok ==> At(x) == old(At(x))
      ensures ok <==> 0x0800_0000 <= addr < 0x0804_0000 || old(HasPage(addr)) || old(numPages) < 256
      ensures history == old(history) +
                         if 0x0800_0000 <= addr < 0x0804_0000 then [Program(addr, [value])] else []
      ensures !ok ==> numPages == 256
    {
      if InFlashWindow(addr) {
        StoreFlash(addr, value);
        assert forall x: nat :: InFlashWindow(x) ==> flash[x - FLASH_BASE] == flash[..][x - FLASH_BASE];
        return true;
      }
      var i;
      ok, i := GetOrCreatePage(addr, true);
      if ok {
        StoreRam(addr, i, value);
      }
    }

    /** mock_impl_read8: the flat view, without side effects. */
    method Read8(addr: nat) returns (v: byte)
      requires Valid() && addr < LIMIT32
      ensures v == At(addr)
    {
      if InFlashWindow(addr) { return flash[addr - FLASH_BASE]; }
      var i := 0;
      var page := addr - addr % PAGE_SIZE;
      while i < numPages && pageAddr[i] != page
        invariant 0 <= i <= numPages
        invariant forall n :: 0 <= n < i ==> Pages()[n] != page
      {
        i := i + 1;
      }
      EntryIs(Pages(), page, i);
      v := if i < numPages then pageData[i, addr % PAGE_SIZE] else 0;
    }

    /** From entry k on, the history holds no erase. */
    ghost predicate OnlyPrograms(k: nat)
      reads this`history
    {
      forall i :: k <= i < |history| ==> history[i].Program?
    }

    /** The first n lanes of a word have been stored over the view `was`. */
    ghost predicate StoredLanes(was: imap<nat, byte>, addr: nat, value: bv32, n: nat)
      requires numPages <= pageAddr.Length <= pageData.Length0 && pageData.Length1 == PAGE_SIZE
      requires flash.Length == FLASH_SIZE && n <= 4
      reads this`numPages, flash, pageAddr, pageData
    {
      && (forall x: nat :: x in was)
      && (forall k :: 0 <= k < n ==> At(Lane(addr, k)) == Stored(Lane(addr, k), was[Lane(addr, k)], ByteOf(value, k)))
      && (forall x :: !Covers(addr, n, x) ==> At(x) == was[x])
    }

    /** One more lane. */
    method StoreLane(addr: nat, k: nat, value: bv32, ghost was: imap<nat, byte>) returns (ok: bool)
      requires Valid() && addr < LIMIT32 && k < 4 && StoredLanes(was, addr, value, k)
      modifies this`numPages, this`history, pageAddr, pageData, flash
      ensures Valid() && old(history) <= history && OnlyPrograms(|old(history)|)
      ensures StoredLanes(was, addr, value, if ok then k + 1 else k)
      ensures !ok ==> numPages == MAX_MEM_PAGES
    {
      hide At, Stored, ByteOf;
      LanesApart(addr);
      ok := Write8(Lane(addr, k), ByteOf(value, k));
    }

    /** mock_impl_write32: byte by byte, lowest first; it may stop after n of the four digits. */
    method Write32(addr: nat, value: bv32) returns (ok: bool, ghost n: nat, ghost digits: seq<byte>)
      requires Valid() && addr < LIMIT32
      modifies this`numPages, this`history, pageAddr, pageData, flash
      ensures Valid() && old(history) <= history && OnlyPrograms(|old(history)|)
      ensures n <= 4 && (ok <==> n == 4)
      ensures |digits| == 4 &&
              value == (digits[0] as bv32) + 0x100 * (digits[1] as bv32) + 0x1_0000 * (digits[2] as bv32)
                       + 0x100_0000 * (digits[3] as bv32)
      ensures forall k :: 0 <= k < n ==>
                var a, d := (addr + k) % 0x1_0000_0000, digits[k];
                At(a) == if 0x0800_0000 <= a < 0x0804_0000 then old(At(a)) & d else d
      ensures forall x: nat :: x < 0x1_0000_0000 && (x + 0x1_0000_0000 - addr) % 0x1_0000_0000 >= n ==>
                At(x) == old(At(x))
      ensures !ok ==> numPages == 256
      ensures forall k :: 0 <= k < n ==>
                At(Lane(addr, k)) == Stored(Lane(addr, k), old(At(Lane(addr, k))), ByteOf(value, k))
    {
      hide At, ByteOf, Word, Lane, Covers, StoredLanes;
      ghost var was := imap x: nat :: At(x);
      ok, n := StoreLanes(addr, value, was);
      LanesAre(addr);
      LanesFrame(was, addr, value, n);
      digits := [ByteOf(value, 0), ByteOf(value, 1), ByteOf(value, 2), ByteOf(value, 3)];
      WordOfBytes(value);
      WordIsSum(digits[0], digits[1], digits[2], digits[3]);
      forall k | 0 <= k < n
        ensures var a, d := (addr + k) % 0x1_0000_0000, digits[k];
                At(a) == if 0x0800_0000 <= a < 0x0804_0000 then old(At(a)) & d else d
      {
        assert digits[k] == ByteOf(value, k);
        assert Lane(addr, k) == (addr + k) % 0x1_0000_0000;
      }
    }

    /** Stored lanes, address by address. */
    lemma LanesFrame(was: imap<nat, byte>, addr: nat, value: bv32, n: nat)
      requires Valid() && addr < LIMIT32 && n <= 4 && StoredLanes(was, addr, value, n)
      ensures forall x: nat :: x < 0x1_0000_0000 && (x + 0x1_0000_0000 - addr) % 0x1_0000_0000 >= n ==>
                x in was && At(x) == was[x]
      ensures forall k :: 0 <= k < n ==>
                Lane(addr, k) in was &&
                At(Lane(addr, k)) == Stored(Lane(addr, k), was[Lane(addr, k)], ByteOf(value, k))
    {
      hide At, Stored, ByteOf, Lane, Covers;
      CoveredOffset(addr, n);
    }

    /** The four byte writes of a word, up to the first that fails. */
    method StoreLanes(addr: nat, value: bv32, ghost was: imap<nat, byte>) returns (ok: bool, ghost n: nat)
      requires Valid() && addr < LIMIT32 && forall x: nat :: x in was && was[x] == At(x)
      modifies this`numPages, this`history, pageAddr, pageData, flash
      ensures Valid() && old(history) <= history && OnlyPrograms(|old(history)|)
      ensures n <= 4 && (ok <==> n == 4)
      ensures StoredLanes(was, addr, value, n)
      ensures !ok ==> numPages == 256
    {
      hide At, Stored, ByteOf, Covers;
      NoLanes(addr);
      n := 0;
      ok := StoreLane(addr, 0, value, was);
      if !ok { return; }
      n := 1;
      ok := StoreLane(addr, 1, value, was);
      if !ok { return; }
      n := 2;
      ok := StoreLane(addr, 2, value, was);
      if !ok { return; }
      n := 3;
      ok := StoreLane(addr, 3, value, was);
      if !ok { return; }
      n := 4;
    }

    /** mock_impl_read32. */
    method Read32(addr: nat) returns (w: bv32)
      requires Valid() && addr < LIMIT32
      ensures w == (At(addr) as bv32) + 0x100 * (At((addr + 1) % 0x1_0000_0000) as bv32)
                   + 0x1_0000 * (At((addr + 2) % 0x1_0000_0000) as bv32)
                   + 0x100_0000 * (At((addr + 3) % 0x1_0000_0000) as bv32)
      ensures forall k :: 0 <= k < 4 ==> ByteOf(w, k) == At(Lane(addr, k))
    {
      hide At, Lane, Word, ByteOf;
      LanesAre(addr);
      var b0 := Read8(addr);
      var b1 := Read8(Lane(addr, 1));
      var b2 := Read8(Lane(addr, 2));
      var b3 := Read8(Lane(addr, 3));
      w := Word(b0, b1, b2, b3);
      BytesOfWord(b0, b1, b2, b3);
      WordIsSum(b0, b1, b2, b3);
    }

    /** A word written and read back, wherever it lies: across pages, or across the flash boundary. */
    method WriteThenRead32(addr: nat, value: bv32) returns (ok: bool, was: bv32, now: bv32)
      requires Valid() && addr < LIMIT32
      modifies this`numPages, this`history, pageAddr, pageData, flash
      ensures Valid()
      ensures forall k :: 0 <= k < 4 ==> ByteOf(was, k) == old(At(Lane(addr, k)))
      ensures ok ==> forall k :: 0 <= k < 4 ==>
                ByteOf(now, k) == Stored(Lane(addr, k), ByteOf(was, k), ByteOf(value, k))
      ensures ok && (forall k :: 0 <= k < 4 ==> !InFlashWindow(Lane(addr, k))) ==> now == value
      ensures ok && (forall k :: 0 <= k < 4 ==> InFlashWindow(Lane(addr, k))) ==> now == was & value
    {
      hide At, Stored, ByteOf, Mock.Valid;
      was := Read32(addr);
      ghost var n, digits;
      ok, n, digits := Write32(addr, value);
      now := Read32(addr);
      if ok { StoredWord(addr, was, value, now); }
    }

    // ----- The flash operations -----

    /** mock_impl_flash_read. */
    method FlashRead(addr: nat, buf: array<byte>, len: nat) returns (ok: bool)
      requires Valid() && addr < LIMIT32 && len <= buf.Length && buf != flash
      modifies buf
      ensures ok <==> len == 0 || (0x0800_0000 <= addr && addr + len <= 0x0804_0000)
      ensures ok ==> forall k :: 0 <= k < len ==> buf[k] == At(addr + k)
      ensures forall k :: len <= k < buf.Length ==> buf[k] == old(buf[k])
    {
      if len == 0 { return true; }
      if !FlashRangeOk(addr, len) { return false; }
      forall k | 0 <= k < len { buf[k] := flash[addr - FLASH_BASE + k]; }
      ok := true;
    }

    /** mock_impl_flash_write. */
    method FlashWrite(addr: nat, data: seq<byte>) returns (ok: bool)
      requires Valid() && addr < LIMIT32
      modifies this`history, flash
      ensures Valid()
      ensures ok <==> || data == []
                      || (0x0800_0000 <= addr && addr + |data| <= 0x0804_0000 && addr % 4 == 0 && |data| % 4 == 0)
      ensures forall x: nat ::
                At(x) == if ok && addr <= x < addr + |data| then old(At(x)) & data[x - addr] else old(At(x))
      ensures !ok || data == [] ==> flash[..] == old(flash[..]) && history == old(history)
      ensures ok && data != [] ==>
                flash[..] == Programmed(MockBoard(), old(flash[..]), addr, data) &&
                history == old(history) + [Program(addr, data)]
    {
      hide Replay, MockBoard, RamAt, Programmed;
      if |data| == 0 { return true; }
      if !FlashRangeOk(addr, |data|) { return false; }
      if addr % FLASH_ALIGN != 0 || |data| % FLASH_ALIGN != 0 { return false; }
      ProgramFlash(addr, data);
      ok := true;
      ghost var f := old(flash[..]);
      forall x: nat | InFlashWindow(x)
        ensures At(x) == if addr <= x < addr + |data| then old(At(x)) & data[x - addr] else old(At(x))
      {
        ProgrammedByte(MockBoard(), f, addr, data, x - FLASH_BASE);
        assert flash[x - FLASH_BASE] == flash[..][x - FLASH_BASE] && f[x - FLASH_BASE] == old(At(x));
      }
    }

    /** The loop of mock_impl_flash_write. */
    method ProgramFlash(addr: nat, data: seq<byte>)
      requires Valid() && MockBoard().InFlash(addr, |data|)
      modifies this`history, flash
      ensures Valid() && flash[..] == Programmed(MockBoard(), old(flash[..]), addr, data)
      ensures history == old(history) + [Program(addr, data)]
    {
      hide Replay, MockBoard, Programmed;
      ghost var f := flash[..];
      Burn(addr - FLASH_BASE, data);
      forall x | 0 <= x < FLASH_SIZE ensures flash[..][x] == Programmed(MockBoard(), f, addr, data)[x] {
        ProgrammedByte(MockBoard(), f, addr, data, x);
      }
      SameElements(flash[..], Programmed(MockBoard(), f, addr, data));
      Record(Program(addr, data), f);
    }

    method Burn(at: nat, data: seq<byte>)
      requires at + |data| <= flash.Length
      modifies flash
      ensures forall k :: 0 <= k < flash.Length ==>
                flash[k] == if at <= k < at + |data| then old(flash[k]) & data[k - at] else old(flash[k])
    {
      for i := 0 to |data|
        invariant forall k :: 0 <= k < flash.Length ==>
                    flash[k] == if at <= k < at + i then old(flash[k]) & data[k - at] else old(flash[k])
      {
        flash[at + i] := flash[at + i] & data[i];
      }
    }

    /** mock_impl_flash_erase: exactly the pages that meet the range become blank. */
    method FlashErase(addr: nat, len: nat) returns (ok: bool)
      requires Valid() && addr < LIMIT32
      modifies this`history, flash
      ensures Valid()
      ensures ok <==> len == 0 || (0x0800_0000 <= addr && addr + len <= 0x0804_0000)
      ensures forall x: nat ::
                At(x) == if ok && len > 0 && 0x0800_0000 <= x < 0x0804_0000
                            && x - x % 1024 < addr + len && addr < x - x % 1024 + 1024 then 0xFF
                         else old(At(x))
      ensures !ok || len == 0 ==> flash[..] == old(flash[..]) && history == old(history)
      ensures ok && len > 0 ==>
                flash[..] == Wiped(MockBoard(), old(flash[..]), addr, len) &&
                history == old(history) + [Erase(addr, len)]
    {
      hide Replay, MockBoard, Board.HullLo, Board.HullHi, RamAt, Wiped;
      if len == 0 { return true; }
      if !FlashRangeOk(addr, len) { return false; }
      EraseBounds(addr, len);
      var first := ((addr - FLASH_BASE) / FLASH_PAGE) * FLASH_PAGE;
      var last := ((addr - FLASH_BASE + len - 1) / FLASH_PAGE + 1) * FLASH_PAGE;
      if last > FLASH_SIZE { last := FLASH_SIZE; }
      EraseFlash(addr, len, first, last);
      ok := true;
      PagesBetween(addr, len);
    }

    /** The memset of mock_impl_flash_erase. */
    method EraseFlash(addr: nat, len: nat, first: nat, last: nat)
      requires Valid() && MockBoard().InFlash(addr, len) && first <= last <= FLASH_SIZE
      requires MockBoard().HullLo(addr, len) == FLASH_BASE + first
      requires MockBoard().HullHi(addr, len) == FLASH_BASE + last
      modifies this`history, flash
      ensures Valid() && flash[..] == Wiped(MockBoard(), old(flash[..]), addr, len)
      ensures forall k :: 0 <= k < FLASH_SIZE ==> flash[k] == if first <= k < last then 0xFF else old(flash[k])
      ensures history == old(history) + [Erase(addr, len)]
    {
      hide Replay, MockBoard, Board.HullLo, Board.HullHi, Wiped;
      ghost var f := flash[..];
      forall k | first <= k < last { flash[k] := ERASED; }
      forall x | 0 <= x < FLASH_SIZE ensures flash[..][x] == Wiped(MockBoard(), f, addr, len)[x] {
        WipedByte(MockBoard(), f, addr, len, x);
      }
      SameElements(flash[..], Wiped(MockBoard(), f, addr, len));
      Record(Erase(addr, len), f);
    }

    /** mock_impl_flash_mass_erase. */
    method FlashMassErase()
      requires Valid()
      modifies this`history, flash
      ensures Valid() && flash[..] == Blank(FLASH_SIZE)
      ensures forall x: nat :: At(x) == if 0x0800_0000 <= x < 0x0804_0000 then 0xFF else old(At(x))
      ensures history == old(history) + [Erase(FLASH_BASE, FLASH_SIZE)]
    {
      hide Replay, MockBoard, Board.HullLo, Board.HullHi;
      ghost var f := flash[..];
      EraseBounds(FLASH_BASE, FLASH_SIZE);
      forall k | 0 <= k < FLASH_SIZE { flash[k] := ERASED; }
      SameElements(flash[..], Wiped(MockBoard(), f, FLASH_BASE, FLASH_SIZE));
      Record(Erase(FLASH_BASE, FLASH_SIZE), f);
    }

    method StoreRam(addr: nat, i: nat, value: byte)
      requires Valid() && i == EntryOf(addr) < numPages
      modifies pageData
      ensures Valid()
      ensures forall x :: RamAt(x) == if x == addr then value else old(RamAt(x))
    {
      hide Entry;
      pageData[i, addr % PAGE_SIZE] := value;
    }

    method StoreFlash(addr: nat, value: byte)
      requires Valid() && InFlashWindow(addr)
      modifies this`history, flash
      ensures Valid() && history == old(history) + [Program(addr, [value])]
      ensures var x := addr - FLASH_BASE; flash[..] == old(flash[..])[x := Stored(addr, old(flash[x]), value)]
    {
      hide Apply, Replay, MockBoard, Stored, Entry;
      ghost var f := flash[..];
      OneByteProgram(f, addr, value);
      flash[addr - FLASH_BASE] := Stored(addr, flash[addr - FLASH_BASE], value);
      assert flash[..] == f[addr - FLASH_BASE := Stored(addr, f[addr - FLASH_BASE], value)];
      Record(Program(addr, [value]), f);
    }

    /** The flash has just undergone e, from contents f. */
    ghost method Record(e: Event, f: seq<byte>)
      requires flash.Length == FLASH_SIZE == |f| && AllInRange(MockBoard(), history) && e.InRange(MockBoard())
      requires f == Replay(MockBoard(), Blank(FLASH_SIZE), history)
      requires flash[..] == Apply(MockBoard(), f, e)
      modifies this`history
      ensures history == old(history) + [e] && AllInRange(MockBoard(), history)
      ensures flash[..] == Replay(MockBoard(), Blank(FLASH_SIZE), history)
    {
      hide Apply, Replay, MockBoard;
      OneEventReplay(MockBoard(), f, e);
      ReplayConcat(MockBoard(), Blank(FLASH_SIZE), history, [e]);
      history := history + [e];
    }
  }

  /**
    NOR monotonicity over every run of the mock: between any two moments of its history, a flash
    byte gains a bit only if an erase in between met its page.
   */
  lemma BitsGainedOnlyByErase(before: seq<Event>, since: seq<Event>, addr: nat)
    requires AllInRange(MockBoard(), before) && AllInRange(MockBoard(), before + since) && InFlashWindow(addr)
    ensures AllInRange(MockBoard(), since)
    ensures var b, x := MockBoard(), addr - FLASH_BASE;
            var was := Replay(b, Blank(FLASH_SIZE), before)[x];
            var now := Replay(b, Blank(FLASH_SIZE), before + since)[x];
            Subset(now, was) || exists k :: 0 <= k < |since| && ErasesAt(b, since[k], addr)
  {
    hide Replay, MockBoard;
    var b := MockBoard();
    forall k | 0 <= k < |since| ensures since[k].InRange(b) {
      assert (before + since)[|before| + k] == since[k];
    }
    ReplayConcat(b, Blank(FLASH_SIZE), before, since);
    if forall k :: 0 <= k < |since| ==> !ErasesAt(b, since[k], addr) {
      BitsOnlyClear(b, Replay(b, Blank(FLASH_SIZE), before), since, addr);
    }
  }
}
