/**
  The flash operations of core/hw.c: sector lookup, reads with their fallback, verify, and the
  composite hw_flash_update and hw_flash_patch, as loops over a Target.
 */
module FlashCore {
  import opened Words
  import opened Arith
  import opened Nor
  import opened FlashSpec
  import opened Backend
  import opened Walk

  // ----- Range, info and sector -----

  /** flash_range_ok: the region is non-empty and lies inside the flash, in 32-bit arithmetic. */
  predicate FlashRangeOk(info: Info, addr: nat, len: nat)
    requires info.base + info.size <= LIMIT32 && info.size < LIMIT32 && addr < LIMIT32
    ensures FlashRangeOk(info, addr, len) <==>
              0 < len && info.base <= addr && addr + len <= info.base + info.size
  {
    if len == 0 || len > info.size then false
    else if addr < info.base then false
    else if addr - info.base > info.size - U32(len) then false
    else true
  }

  method HwFlashInfo(t: Target) returns (ok: bool, info: Info)
    requires t.Valid()
    modifies t`plan
    ensures ok ==> t.board.ops.flashInfo && t.board.pageSize > 0
    ensures ok ==> info.writeAlign == if t.board.writeAlign == 0 then 1 else t.board.writeAlign
    ensures ok ==> info == Info(t.board.Base(), t.board.Size(), t.board.pageSize, t.board.Align())
    ensures old(t.Healthy()) ==>
              t.Healthy() && (ok <==> t.board.ops.flashInfo && t.board.pageSize > 0)
  {
    ok, info := false, Info(0, 0, 0, 0);
    if !t.board.ops.flashInfo { return; }
    ok, info := t.FlashInfo();
    if !ok { return; }
    if info.pageSize == 0 { return false, info; }
    if info.writeAlign == 0 { info := info.(writeAlign := 1); }
  }

  /** Rounding an offset down to the page size finds the uniform block. */
  lemma UniformBlock(b: Board, addr: nat)
    requires b.Valid() && !b.ops.flashSector && b.pageSize > 0
    requires b.Base() <= addr < b.Limit()
    ensures var k := (addr - b.Base()) / b.pageSize;
            b.Index(addr) == k &&
            b.cuts[b.Index(addr)] == b.Base() + k * b.pageSize &&
            b.cuts[b.Index(addr) + 1] == b.Base() + k * b.pageSize + b.pageSize
  {
    var i := b.Index(addr);
    var d, p := addr - b.Base(), b.pageSize;
    assert b.OnPage(i) && b.OnPage(i + 1);
    assert (i + 1) * p == i * p + p;
    QuotientUnique(d, p, i);
  }

  method HwFlashSector(t: Target, addr: nat) returns (ok: bool, sb: nat, ss: nat)
    requires t.Valid() && addr < LIMIT32
    modifies t`plan
    ensures ok ==> t.board.Base() <= addr < t.board.Limit() &&
                   var i := t.board.Index(addr);
                   sb == t.board.cuts[i] && sb + ss == t.board.cuts[i + 1]
    ensures old(t.Healthy()) ==>
              t.Healthy() &&
              (ok <==> t.board.Base() <= addr < t.board.Limit() &&
                       (t.board.ops.flashSector || (t.board.ops.flashInfo && t.board.pageSize > 0)))
  {
    ok, sb, ss := false, 0, 0;
    if t.board.ops.flashSector {
      ok, sb, ss := t.FlashSector(addr);
      return;
    }
    var infoOk, info := HwFlashInfo(t);
    if !infoOk { return; }
    if !FlashRangeOk(info, addr, 1) { return; }
    UniformBlock(t.board, addr);
    ok := true;
    sb := U32(info.base + ((addr - info.base) / info.pageSize) * info.pageSize);
    ss := info.pageSize;
  }

  // ----- Read and verify -----

  /** New log entries were all made in the present halt state. */
  ghost predicate Logged(t: Target, trace: seq<Event>, haltedAt: seq<bool>)
    reads t
  {
    && |t.trace| == |t.haltedAt| && |trace| == |haltedAt|
    && trace <= t.trace && haltedAt <= t.haltedAt
    && forall k :: |haltedAt| <= k < |t.haltedAt| ==> t.haltedAt[k] == t.halted
  }

  /** From the one log to the other nothing was programmed or erased. */
  ghost predicate Quiet(trace: seq<Event>, trace': seq<Event>) {
    && trace <= trace'
    && forall k :: |trace| <= k < |trace'| ==> !trace'[k].Mutates()
  }

  lemma QuietSplits(trace: seq<Event>, middle: seq<Event>, trace': seq<Event>)
    requires trace <= middle <= trace'
    ensures Quiet(trace, trace') ==> Quiet(trace, middle) && Quiet(middle, trace')
  {
  }

  lemma MutationIsHeard(trace: seq<Event>, e: Event, trace': seq<Event>)
    requires e.Mutates() && trace + [e] <= trace'
    ensures !Quiet(trace, trace')
  {
    assert trace'[|trace|] == e;
  }

  /** One aligned word of the fallback, unpacked into the buffer. */
  method LoadWord(t: Target, addr: nat, buf: array<byte>, i: nat) returns (ok: bool)
    requires t.Valid() && i + 4 <= buf.Length && buf != t.flash
    modifies t`plan, t`trace, t`haltedAt, buf
    ensures t.Valid()
    ensures t.trace == old(t.trace) + [Load(addr, 4)] && t.haltedAt == old(t.haltedAt) + [t.halted]
    ensures forall k :: 0 <= k < buf.Length && !(i <= k < i + 4) ==> buf[k] == old(buf[k])
    ensures ok ==> t.board.InFlash(addr, 4) &&
                   forall k :: i <= k < i + 4 ==> buf[k] == t.flash[addr - t.board.Base() + (k - i)]
    ensures old(t.Healthy()) ==> t.Healthy() && (ok <==> t.board.InFlash(addr, 4))
  {
    var w;
    ok, w := t.Read32(addr);
    if ok {
      buf[i] := ByteOf(w, 0);
      buf[i + 1] := ByteOf(w, 1);
      buf[i + 2] := ByteOf(w, 2);
      buf[i + 3] := ByteOf(w, 3);
    }
  }

  /** Whether the fallback's next load is a word, and how far it moves on. */
  predicate WordNext(b: Board, addr: nat, len: nat) { addr % 4 == 0 && len >= 4 && b.ops.read32 }

  lemma LoadsStep(b: Board, trace: seq<Event>, addr: nat, len: nat, width: nat)
    requires 0 < len && !b.ops.flashRead
    requires width == (if WordNext(b, addr, len) then 4 else 1)
    requires !WordNext(b, addr, len) ==> b.ops.read8
    ensures (trace + [Load(addr, width)]) + Loads(b, addr + width, len - width) == trace + Loads(b, addr, len)
    ensures CanRead(b, addr + width, len - width) == CanRead(b, addr, len)
  {
    assert Loads(b, addr, len) == [Load(addr, width)] + Loads(b, addr + width, len - width);
  }

  /** One step of the fallback: a word, a byte, or a failure (width 0). */
  method LoadNext(t: Target, addr: nat, buf: array<byte>, i: nat, len: nat) returns (width: nat)
    requires t.Valid() && i < len <= buf.Length && buf != t.flash && !t.board.ops.flashRead
    modifies t`plan, t`trace, t`haltedAt, buf
    ensures t.Valid() && Logged(t, old(t.trace), old(t.haltedAt))
    ensures width == 0 || (i + width <= len && t.board.InFlash(addr, width))
    ensures forall k :: 0 <= k < i ==> buf[k] == old(buf[k])
    ensures forall k :: i <= k < i + width ==> buf[k] == t.flash[addr - t.board.Base() + (k - i)]
    ensures width == 0 ==> t.trace <= old(t.trace) + Loads(t.board, addr, len - i)
    ensures width > 0 ==>
              t.trace + Loads(t.board, addr + width, len - i - width)
              == old(t.trace) + Loads(t.board, addr, len - i)
    ensures width > 0 ==>
              CanRead(t.board, addr + width, len - i - width) == CanRead(t.board, addr, len - i)
    ensures old(t.Healthy()) ==> t.Healthy()
    ensures old(t.Healthy()) && t.board.InFlash(addr, len - i) && CanRead(t.board, addr, len - i) ==> width > 0
  {
    var b := t.board;
    width := 0;
    if WordNext(b, addr, len - i) {
      LoadsStep(b, t.trace, addr, len - i, 4);
      var got := LoadWord(t, addr, buf, i);
      if got { width := 4; }
    } else if b.ops.read8 {
      LoadsStep(b, t.trace, addr, len - i, 1);
      var got, v := t.Read8(addr);
      if got {
        buf[i] := v;
        width := 1;
      }
    }
  }

  method ReadByLoads(t: Target, addr: nat, buf: array<byte>, len: nat) returns (ok: bool)
    requires t.Valid() && 0 < len <= buf.Length && buf != t.flash && addr < LIMIT32
    requires !t.board.ops.flashRead
    modifies t`plan, t`trace, t`haltedAt, buf
    ensures t.Valid() && Logged(t, old(t.trace), old(t.haltedAt))
    ensures ok ==> t.board.InFlash(addr, len) && CanRead(t.board, addr, len)
    ensures ok ==> t.trace == old(t.trace) + Loads(t.board, addr, len)
    ensures ok ==> buf[..len] == Slice(t.flash[..], addr - t.board.Base(), len)
    ensures t.board.InFlash(addr, len) ==> t.trace <= old(t.trace) + Loads(t.board, addr, len)
    ensures old(t.Healthy()) ==> t.Healthy()
    ensures old(t.Healthy()) && t.board.InFlash(addr, len) && CanRead(t.board, addr, len) ==> ok
  {
    var b := t.board;
    var i := 0;
    ok := false;
    while i < len
      invariant 0 <= i <= len && t.Valid() && Logged(t, old(t.trace), old(t.haltedAt))
      invariant i > 0 ==> b.Base() <= addr && addr + i <= b.Limit()
      invariant forall k :: 0 <= k < i ==> buf[k] == t.flash[addr - b.Base() + k]
      invariant t.trace + Loads(b, addr + i, len - i) == old(t.trace) + Loads(b, addr, len)
      invariant CanRead(b, addr + i, len - i) <==> CanRead(b, addr, len)
      invariant old(t.Healthy()) ==> t.Healthy()
    {
      var width := LoadNext(t, U32(addr + U32(i)), buf, i, len);
      if width == 0 { return; }
      i := i + width;
    }
    ok := true;
    assert Loads(b, addr + i, len - i) == [];
  }

  method HwFlashRead(t: Target, addr: nat, buf: array<byte>, len: nat) returns (ok: bool)
    requires t.Valid() && len <= buf.Length && buf != t.flash && addr < LIMIT32
    modifies t`plan, t`trace, t`haltedAt, buf
    ensures t.Valid() && Logged(t, old(t.trace), old(t.haltedAt))
    ensures len == 0 ==> ok && t.trace == old(t.trace)
    ensures ok && len > 0 ==> t.board.InFlash(addr, len) && CanRead(t.board, addr, len)
    ensures ok && len > 0 ==>
              buf[..len] == Slice(t.flash[..], addr - t.board.Base(), len)
    ensures ok ==> t.trace == old(t.trace) + ReadEvents(t.board, addr, len)
    ensures t.board.InFlash(addr, len) ==> t.trace <= old(t.trace) + ReadEvents(t.board, addr, len)
    ensures old(t.Healthy()) ==> t.Healthy()
    ensures len > 0 && t.board.ops.flashRead ==> t.trace == old(t.trace) + [Read(addr, len)]
    ensures old(t.Healthy()) ==>
              (ok <==> len == 0 || (t.board.Base() <= addr && addr + len <= t.board.Limit()
                                    && (t.board.ops.flashRead || t.board.ops.read8
                                        || (t.board.ops.read32 && addr % 4 == 0 && len % 4 == 0))))
  {
    if len == 0 { return true; }
    if t.board.ops.flashRead {
      ok := t.FlashRead(addr, buf, len);
    } else {
      ok := ReadByLoads(t, addr, buf, len);
    }
  }

  method HwFlashVerify(t: Target, addr: nat, image: seq<byte>) returns (ok: bool)
    requires t.Valid() && addr < LIMIT32
    modifies t`plan, t`trace, t`haltedAt
    ensures t.Valid() && Logged(t, old(t.trace), old(t.haltedAt))
    ensures image == [] ==> ok
    ensures ok && image != [] ==>
              t.board.InFlash(addr, |image|) && CanRead(t.board, addr, |image|) &&
              Slice(t.flash[..], addr - t.board.Base(), |image|) == image
    ensures ok ==> t.trace == old(t.trace) + ReadEvents(t.board, addr, |image|)
    ensures t.board.InFlash(addr, |image|) ==>
              t.trace <= old(t.trace) + ReadEvents(t.board, addr, |image|)
    ensures old(t.Healthy()) ==> t.Healthy()
    ensures old(t.Healthy()) ==>
              (ok <==> image == [] || (t.board.Base() <= addr && addr + |image| <= t.board.Limit()
                                       && (t.board.ops.flashRead || t.board.ops.read8
                                           || (t.board.ops.read32 && addr % 4 == 0 && |image| % 4 == 0))
                                       && Slice(t.flash[..], addr - t.board.Base(), |image|) == image))
  {
    if |image| == 0 { return true; }
    var room, readback := t.Allocate(|image|);
    if !room { return false; }
    ok := HwFlashRead(t, addr, readback, |image|);
    if !ok { return false; }
    var i := 0;
    while i < |image| && readback[i] == image[i]
      invariant 0 <= i <= |image|
      invariant forall k :: 0 <= k < i ==> readback[k] == image[k]
    {
      i := i + 1;
    }
    assert readback[..|image|] == Slice(t.flash[..], addr - t.board.Base(), |image|);
    ok := i == |image|;
    assert !ok ==> readback[..|image|][i] != image[i];
  }

  /** flash_halt_target: a missing board_halt counts as a success. */
  method FlashHaltTarget(t: Target) returns (ok: bool)
    modifies t`plan, t`halted
    ensures old(t.halted) ==> t.halted
    ensures t.board.ops.boardHalt && ok ==> t.halted
    ensures !t.board.ops.boardHalt ==> ok && t.halted == old(t.halted)
    ensures old(t.Healthy()) ==> t.Healthy() && ok
  {
    if t.board.ops.boardHalted {
      var yes := t.BoardHalted();
      if yes { return true; }
    }
    ok := true;
    if t.board.ops.boardHalt {
      ok := t.BoardHalt();
    }
  }

  /** What both composite operations do before they touch the flash: check the backend and the
      range, and halt the target. */
  method BeginProgramming(t: Target, addr: nat, len: nat) returns (ok: bool)
    requires t.Valid() && addr < LIMIT32
    modifies t`plan, t`halted
    ensures ok ==> Runnable(t.board) && t.board.InFlash(addr, len)
    ensures old(t.Healthy()) ==>
              (ok <==> t.board.ops.flashErase && t.board.ops.flashWrite && t.board.ops.flashInfo
                       && t.board.pageSize > 0
                       && 0 < len && t.board.Base() <= addr && addr + len <= t.board.Limit())
    ensures old(t.halted) ==> t.halted
    ensures t.board.ops.boardHalt && ok ==> t.halted
    ensures !t.board.ops.boardHalt ==> t.halted == old(t.halted)
    ensures old(t.Healthy()) ==> t.Healthy() && (ok <==> Runnable(t.board) && t.board.InFlash(addr, len))
  {
    if !t.board.ops.flashErase || !t.board.ops.flashWrite { return false; }
    var infoOk, info := HwFlashInfo(t);
    if !infoOk { return false; }
    if !FlashRangeOk(info, addr, len) { return false; }
    ok := FlashHaltTarget(t);
  }

  // ----- Update -----

  /** memcpy into a buffer of which the first n bytes are in use. */
  method CopyInto(out: array<byte>, at: nat, data: seq<byte>, ghost n: nat)
    requires at + |data| <= n <= out.Length
    modifies out
    ensures out[..n] == Splice(old(out[..n]), at, data)
  {
    forall k | 0 <= k < |data| { out[at + k] := data[k]; }
  }

  /** The block a task is about is block i of the board, and the flash bytes it holds now. */
  ghost predicate OnBlock(t: Target, k: Task, i: nat)
    requires t.Valid()
    reads t
  {
    && i + 1 < |t.board.cuts| && k.Valid()
    && k.base == t.board.cuts[i] && k.base + k.size == t.board.cuts[i + 1]
  }

  ghost function Current(t: Target, k: Task, i: nat): (cur: seq<byte>)
    requires t.Valid() && OnBlock(t, k, i)
    reads t, t.flash
    ensures k.Holds(cur)
  {
    HullOfBlock(t.board, i);
    Slice(t.flash[..], k.base - t.board.Base(), k.size)
  }

  /** hw_flash_read on a whole block. */
  method ReadBlock(t: Target, sb: nat, ss: nat, out: array<byte>, ghost k: Task, ghost i: nat)
    returns (ok: bool)
    requires t.Valid() && OnBlock(t, k, i) && out != t.flash
    requires sb == k.base && ss == k.size <= out.Length && sb < LIMIT32
    modifies t`plan, t`trace, t`haltedAt, out
    ensures t.Valid() && Logged(t, old(t.trace), old(t.haltedAt))
    ensures ok ==> out[..ss] == Current(t, k, i)
    ensures ok ==> t.trace == old(t.trace) + ReadEvents(t.board, sb, ss)
    ensures t.trace <= old(t.trace) + ReadEvents(t.board, sb, ss)
    ensures ok ==> CanRead(t.board, sb, ss)
    ensures old(t.Healthy()) ==> t.Healthy() && (ok <==> CanRead(t.board, sb, ss))
  {
    HullOfBlock(t.board, i);
    ok := HwFlashRead(t, sb, out, ss);
  }

  /** flash_build_sector_image: the block as it should be, with the rest of it read back. */
  method BuildSectorImage(t: Target, sb: nat, ss: nat, addr: nat, image: seq<byte>,
                          out: array<byte>, ghost k: Task, ghost i: nat)
    returns (ok: bool)
    requires t.Valid() && OnBlock(t, k, i) && out != t.flash && k.rule.Always?
    requires sb == k.base && ss == k.size <= out.Length && sb + ss < LIMIT32
    requires addr + |image| < LIMIT32
    requires k.off == Max(sb, addr) - sb
    requires k.off + |k.data| == Min(sb + ss, addr + |image|) - sb
    requires k.data == Slice(image, sb + k.off - addr, |k.data|)
    modifies t`plan, t`trace, t`haltedAt, out
    ensures t.Valid() && Logged(t, old(t.trace), old(t.haltedAt))
    ensures ok ==> out[..ss] == k.Want(Current(t, k, i))
    ensures ok ==> t.trace == old(t.trace) + k.Reads(t.board, Current(t, k, i))
    ensures t.trace <= old(t.trace) + k.Reads(t.board, Current(t, k, i))
    ensures ok && k.Partial() ==> CanRead(t.board, sb, ss)
    ensures old(t.Healthy()) ==> t.Healthy() && (ok <==> (k.Partial() ==> CanRead(t.board, sb, ss)))
  {
    ghost var cur := Current(t, k, i);
    var sectEnd := U32(sb + ss);
    var regEnd := U32(addr + U32(|image|));
    var ovStart := if sb > addr then sb else addr;
    var ovEnd := if sectEnd < regEnd then sectEnd else regEnd;
    if ovStart >= ovEnd { return false; }
    assert ovStart == sb + k.off && ovEnd == sb + k.off + |k.data|;
    HullOfBlock(t.board, i);
    if ovStart > sb || ovEnd < sectEnd {
      ok := ReadBlock(t, sb, ss, out, k, i);
      if !ok { return; }
    }
    ghost var was := out[..ss];
    CopyInto(out, ovStart - sb, Slice(image, ovStart - addr, ovEnd - ovStart), ss);
    assert out[..ss] == k.Want(was);
    if !k.Partial() {
      WantOfWholeBlock(k, was, cur);
    }
    ok := true;
  }

  /** Erasing a block and programming it leaves exactly the data. */
  lemma RewriteBlock(b: Board, f: seq<byte>, i: nat, data: seq<byte>)
    requires b.Valid() && |f| == b.Size() && i + 1 < |b.cuts| && |data| == BlockSize(b, i)
    ensures b.InFlash(b.cuts[i], |data|)
    ensures Programmed(b, Wiped(b, f, b.cuts[i], |data|), b.cuts[i], data)
            == Splice(f, b.cuts[i] - b.Base(), data)
  {
    HullOfBlock(b, i);
    var blank := Wiped(b, f, b.cuts[i], |data|);
    var at := b.cuts[i] - b.Base();
    assert Slice(blank, at, |data|) == Blank(|data|);
    ClearsBlank(data);
    ProgramSubset(b, blank, b.cuts[i], data);
    SameElements(Splice(blank, at, data), Splice(f, at, data));
  }

  lemma ClearsBlank(data: seq<byte>)
    ensures Clears(Blank(|data|), data)
  {
    forall k | 0 <= k < |data| ensures Subset(data[k], ERASED) {
      assert data[k] & 0xFF == data[k];
    }
  }

  lemma WipedOutside(b: Board, f: seq<byte>, addr: nat, len: nat)
    requires b.Valid() && |f| == b.Size() && b.InFlash(addr, len)
    ensures SameOutside(b, f, Wiped(b, f, addr, len), b.HullLo(addr, len), b.HullHi(addr, len))
  {
    hide Board.HullLo, Board.HullHi;
  }

  lemma SameOutsideTwice(b: Board, f: seq<byte>, g: seq<byte>, h: seq<byte>, lo: nat, hi: nat)
    requires b.Valid() && |f| == b.Size() && SameOutside(b, f, g, lo, hi) && SameOutside(b, g, h, lo, hi)
    ensures SameOutside(b, f, h, lo, hi)
  {
  }

  /** Erase one block and program it whole. */
  method EraseAndProgram(t: Target, sb: nat, ss: nat, want: seq<byte>, ghost i: nat) returns (ok: bool)
    requires t.Valid() && i + 1 < |t.board.cuts| && |want| == ss
    requires sb == t.board.cuts[i] && sb + ss == t.board.cuts[i + 1]
    modifies t`plan, t`trace, t`haltedAt, t.flash
    ensures t.Valid() && Logged(t, old(t.trace), old(t.haltedAt))
    ensures !Quiet(old(t.trace), t.trace)
    ensures t.trace <= old(t.trace) + [Erase(sb, ss), Program(sb, want)]
    ensures ok ==> t.trace == old(t.trace) + [Erase(sb, ss), Program(sb, want)]
    ensures SameOutside(t.board, old(t.flash[..]), t.flash[..], sb, sb + ss)
    ensures t.board.Base() <= sb && sb - t.board.Base() + ss <= t.flash.Length
    ensures ok ==> t.flash[..] == Splice(old(t.flash[..]), sb - t.board.Base(), want)
    ensures old(t.Healthy()) ==> t.Healthy() && (ok <==> Program(sb, want).Accepted(t.board))
  {
    hide SameOutside, Splice, Programmed, Wiped, Event.Accepted, Quiet;
    ghost var b, f := t.board, t.flash[..];
    HullOfBlock(b, i);
    RewriteBlock(b, f, i, want);
    WipedOutside(b, f, sb, ss);
    SpliceSameOutside(b, f, sb, want);
    ok := t.FlashErase(sb, ss);
    assert t.trace == old(t.trace) + [Erase(sb, ss), Program(sb, want)][..1];
    MutationIsHeard(old(t.trace), Erase(sb, ss), t.trace);
    if !ok { return; }
    ghost var g := t.flash[..];
    ok := t.FlashWrite(sb, want);
    MutationIsHeard(old(t.trace), Erase(sb, ss), t.trace);
    if !ok { SameOutsideTwice(b, f, g, t.flash[..], sb, sb + ss); }
  }

  /** One turn of the update loop: build the block, erase it, program it. */
  method UpdateBlock(t: Target, addr: nat, image: seq<byte>, sb: nat, ss: nat,
                     page: array<byte>, ghost k: Task, ghost i: nat)
    returns (ok: bool)
    requires t.Valid() && OnBlock(t, k, i) && page != t.flash && k.rule.Always?
    requires sb == k.base && ss == k.size <= page.Length && sb + ss < LIMIT32
    requires addr + |image| < LIMIT32
    requires k.off == Max(sb, addr) - sb
    requires k.off + |k.data| == Min(sb + ss, addr + |image|) - sb
    requires k.data == Slice(image, sb + k.off - addr, |k.data|)
    modifies t`plan, t`trace, t`haltedAt, t.flash, page
    ensures t.Valid() && Logged(t, old(t.trace), old(t.haltedAt))
    ensures Quiet(old(t.trace), t.trace) ==> t.flash[..] == old(t.flash[..])
    ensures SameOutside(t.board, old(t.flash[..]), t.flash[..], sb, sb + ss)
    ensures t.board.Base() <= sb && sb - t.board.Base() + ss <= t.flash.Length
    ensures t.trace <= old(t.trace) + k.Events(t.board, old(Current(t, k, i)))
    ensures ok ==> t.trace == old(t.trace) + k.Events(t.board, old(Current(t, k, i)))
    ensures ok ==> t.flash[..] == Splice(old(t.flash[..]), sb - t.board.Base(), k.Next(old(Current(t, k, i))))
    ensures old(t.Healthy()) ==> t.Healthy() && (ok <==> k.Completes(t.board, old(Current(t, k, i))))
  {
    hide Quiet;
    ghost var cur := Current(t, k, i);
    HullOfBlock(t.board, i);
    ghost var tr, reads', edits := t.trace, k.Reads(t.board, cur), k.Edits(t.board, cur);
    assert edits == [Erase(sb, ss), Program(sb, k.Want(cur))];
    assert k.Completes(t.board, cur) <==>
      (k.Partial() ==> CanRead(t.board, sb, ss)) && Program(sb, k.Want(cur)).Accepted(t.board);
    assert tr + k.Events(t.board, cur) == (tr + reads') + edits;
    ok := BuildSectorImage(t, sb, ss, addr, image, page, k, i);
    if !ok { return; }
    ghost var read := t.trace;
    ok := EraseAndProgram(t, sb, ss, page[..ss], i);
    QuietSplits(tr, read, t.trace);
  }

  /** The closing verify of a run, once the walk is over. */
  method VerifyRun(t: Target, addr: nat, image: seq<byte>, ghost j: Job, ghost s: Start)
    returns (ok: bool)
    requires t.Valid() && addr < LIMIT32 && j.addr == addr && j.image == image && j.Fits(t.board)
    requires |s.f| == t.board.Size() && WalkAt(t.board, j, s, Stop(t.board, j), t.flash[..], t.trace)
    modifies t`plan, t`trace, t`haltedAt
    ensures t.Valid() && Logged(t, old(t.trace), old(t.haltedAt))
    ensures RunOutcome(t.board, j, s, t.flash[..], t.trace, ok, Resting(t.board, j))
    ensures old(t.Healthy()) ==> t.Healthy()
    ensures old(t.Healthy()) && Runnable(t.board) && WalkCompletes(t.board, j, s.f, Stop(t.board, j)) ==>
              (ok <==> Succeeds(t.board, j, s.f))
  {
    hide Contents, WalkEvents, RunOutcome, BlockCompletes, ReadEvents;
    ghost var g, log := t.flash[..], t.trace;
    ok := HwFlashVerify(t, addr, image);
    Closes(t.board, j, s, g, log, t.trace, ok);
  }

  lemma CurrentIsBlock(t: Target, k: Task, i: nat)
    requires t.Valid() && OnBlock(t, k, i)
    ensures Current(t, k, i) == Block(t.board, t.flash[..], i)
  {
    HullOfBlock(t.board, i);
  }

  /** One turn of the walk of hw_flash_update. */
  method UpdateTurn(t: Target, addr: nat, image: seq<byte>, pos: nat, page: array<byte>,
                    ghost j: Job, ghost s: Start, ghost i: nat)
    returns (ok: bool, next: nat, page': array<byte>)
    requires t.Valid() && page != t.flash && Runnable(t.board)
    requires j == Job(addr, image, Update) && j.Fits(t.board) && j.End() < LIMIT32
    requires |s.f| == t.board.Size() && WalkAt(t.board, j, s, i, t.flash[..], t.trace)
    requires i <= Last(t.board, j) && pos == PosAt(t.board, j, i) < LIMIT32
    modifies t`plan, t`trace, t`haltedAt, t.flash, page
    ensures page' == page || fresh(page')
    ensures t.Valid() && Logged(t, old(t.trace), old(t.haltedAt))
    ensures Quiet(old(t.trace), t.trace) ==> t.flash[..] == old(t.flash[..])
    ensures ok ==> WalkAt(t.board, j, s, i + 1, t.flash[..], t.trace)
    ensures ok ==> pos < next == PosAt(t.board, j, i + 1) < LIMIT32
    ensures !ok ==> RunOutcome(t.board, j, s, t.flash[..], t.trace, false, i)
    ensures old(t.Healthy()) ==> t.Healthy() && (ok <==> BlockCompletes(t.board, j, s.f, i))
  {
    hide Contents, WalkEvents, RunOutcome, TaskOf, Task.Events, Task.Next, Task.Completes,
      Block, Splice, Current, Quiet;
    ghost var b := t.board;
    PosInBlock(b, j, i);
    WalkStep(b, j, s.f, i);
    TaskShape(b, j, i);
    ghost var k, g, log := TaskOf(b, j, i), t.flash[..], t.trace;
    ok, next, page' := false, pos, page;
    var found, sb, ss := HwFlashSector(t, pos);
    if !found || ss == 0 || U32(sb + ss) <= pos {
      Fails(b, j, s, i, g, log, t.flash[..], t.trace);
      return;
    }
    if ss > page'.Length {
      var room, bigger := t.Allocate(ss);
      if !room {
        Fails(b, j, s, i, g, log, t.flash[..], t.trace);
        return;
      }
      page' := bigger;
    }
    CurrentIsBlock(t, k, i);
    ok := UpdateBlock(t, addr, image, sb, ss, page', k, i);
    if ok {
      Advance(b, j, s, i, g, log, t.flash[..], t.trace);
      next := U32(sb + ss);
    } else {
      Fails(b, j, s, i, g, log, t.flash[..], t.trace);
    }
  }

  /** hw_flash_update. */
  method HwFlashUpdate(t: Target, addr: nat, image: seq<byte>) returns (ok: bool, ghost stuck: nat)
    requires t.Valid() && addr < LIMIT32
    modifies t, t.flash
    ensures t.Valid() && Logged(t, old(t.trace), old(t.haltedAt))
    ensures Quiet(old(t.trace), t.trace) ==> t.flash[..] == old(t.flash[..])
    ensures ok && image != [] ==>
              && t.board.ops.flashErase && t.board.ops.flashWrite && t.board.ops.flashInfo
              && t.board.pageSize > 0 && t.board.Base() <= addr && addr + |image| <= t.board.Limit()
    ensures old(t.halted) ==> t.halted
    ensures !t.board.ops.boardHalt ==> t.halted == old(t.halted)
    ensures t.board.ops.boardHalt && ((ok && image != []) || t.trace != old(t.trace)) ==> t.halted
    ensures !Job(addr, image, Update).Fits(t.board) ==>
              t.trace == old(t.trace) && t.flash[..] == old(t.flash[..]) && (ok <==> image == [])
    ensures Job(addr, image, Update).Fits(t.board) ==>
              RunOutcome(t.board, Job(addr, image, Update), Start(old(t.flash[..]), old(t.trace)),
                         t.flash[..], t.trace, ok, stuck)
    ensures Job(addr, image, Update).Fits(t.board) && old(t.Healthy()) ==>
              (ok <==> Succeeds(t.board, Job(addr, image, Update), old(t.flash[..])))
  {
    hide Contents, WalkEvents, RunOutcome, BlockCompletes, Quiet, WalkAt;
    ghost var b, j, s := t.board, Job(addr, image, Update), Start(t.flash[..], t.trace);
    ok, stuck := false, if j.Fits(b) then First(b, j) else 0;
    if j.Fits(b) { NeverStarted(b, j, s); }
    if |image| == 0 { return true, stuck; }
    var ready := BeginProgramming(t, addr, |image|);
    if !ready { return; }

    var end := U32(addr + U32(|image|));
    var page := new byte[0];
    var pos := addr;
    WalkBegins(b, j, s);
    ghost var i: nat := First(b, j);
    while pos < end
      invariant t.Valid() && WalkAt(b, j, s, i, t.flash[..], t.trace)
      invariant Quiet(s.log, t.trace) ==> t.flash[..] == s.f
      invariant First(b, j) <= i <= Last(b, j) + 1
      invariant pos == PosAt(b, j, i) < LIMIT32
      invariant Logged(t, s.log, old(t.haltedAt)) && fresh(page)
      invariant i > First(b, j) ==> end == j.End()
      invariant t.halted == (old(t.halted) || b.ops.boardHalt)
      invariant old(t.Healthy()) ==> t.Healthy() && WalkCompletes(b, j, s.f, i)
      decreases LIMIT32 - pos
    {
      PosInBlock(b, j, i);
      stuck := i;
      ghost var log := t.trace;
      var done;
      done, pos, page := UpdateTurn(t, addr, image, pos, page, j, s, i);
      QuietSplits(s.log, log, t.trace);
      if !done { return; }
      i := i + 1;
    }
    PosInBlock(b, j, i);
    stuck := Resting(b, j);
    ghost var log := t.trace;
    ok := VerifyRun(t, addr, image, j, s);
    QuietSplits(s.log, log, t.trace);
  }
}
