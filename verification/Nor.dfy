/**
  A NOR flash and the board that carries it: an arbitrary partition of the flash into erase
  blocks, the backend operations that exist, and what programs and erases do to the contents.
 */
module Nor {
  import opened Words
  import opened Arith

  const ERASED: byte := 0xFF

  /** Which entries of the backend's operation table are non-NULL. */
  datatype Ops = Ops(
    flashInfo: bool, flashSector: bool, flashRead: bool, flashWrite: bool, flashErase: bool,
    read32: bool, read8: bool, boardHalted: bool, boardHalt: bool)

  /**
    A board: the erase blocks are the intervals between consecutive `cuts` (absolute
    addresses); `pageSize` and `writeAlign` are what the backend reports, `unit` is the program
    unit the part itself insists on, which the backend may not know.
   */
  datatype Board = Board(cuts: seq<nat>, pageSize: nat, writeAlign: nat, unit: pos, ops: Ops) {

    /** The flash is a non-empty stretch of the 32-bit address space, cut into blocks;
        without a sector operation the blocks are the uniform pages. */
    ghost predicate Valid() {
      && 2 <= |cuts|
      && cuts[0] < cuts[|cuts| - 1]
      && (forall i, j :: 0 <= i < j < |cuts| ==> Before(i, j))
      && cuts[|cuts| - 1] <= LIMIT32
      && cuts[|cuts| - 1] - cuts[0] < LIMIT32
      && pageSize < LIMIT32 && writeAlign < LIMIT32
      && (!ops.flashSector && pageSize > 0 ==>
            forall i :: 0 <= i < |cuts| ==> OnPage(i))
    }

    ghost predicate Before(i: nat, j: nat)
      requires i < |cuts| && j < |cuts|
    {
      cuts[i] < cuts[j]
    }

    /** Boundary i is where pages of the nominal size put it. */
    ghost predicate OnPage(i: nat)
      requires i < |cuts|
    {
      cuts[i] == cuts[0] + i * pageSize
    }

    function Base(): nat requires 2 <= |cuts| { cuts[0] }

    function Limit(): nat requires 2 <= |cuts| { cuts[|cuts| - 1] }

    function Size(): nat requires Valid() { Limit() - Base() }

    /** The program granularity after hw_flash_info has replaced 0 by 1. */
    function Align(): (r: nat)
      ensures r > 0
    {
      if writeAlign == 0 then 1 else writeAlign
    }

    /** A non-empty range that lies inside the flash. */
    predicate InFlash(addr: nat, len: nat)
      requires Valid()
    {
      0 < len && Base() <= addr && addr + len <= Limit()
    }

    /** The erase block holding an address of the flash. */
    ghost function Index(addr: nat): (i: nat)
      requires Valid() && Base() <= addr < Limit()
      ensures i + 1 < |cuts| && cuts[i] <= addr < cuts[i + 1]
    {
      IndexExists(addr, |cuts| - 1);
      var i :| 0 <= i && i + 1 < |cuts| && cuts[i] <= addr < cuts[i + 1];
      i
    }

    lemma {:induction false} IndexExists(addr: nat, k: nat)
      requires Valid() && 0 < k < |cuts| && cuts[0] <= addr < cuts[k]
      ensures exists i :: 0 <= i && i + 1 < |cuts| && cuts[i] <= addr < cuts[i + 1]
    {
      if addr < cuts[k - 1] {
        IndexExists(addr, k - 1);
      } else {
        assert 0 <= k - 1 && k - 1 + 1 < |cuts| && cuts[k - 1] <= addr < cuts[k - 1 + 1];
      }
    }

    /** The first and one-past-last address of the blocks that meet a range. */
    ghost function HullLo(addr: nat, len: nat): (r: nat)
      requires Valid() && InFlash(addr, len)
      ensures Base() <= r <= addr
    {
      assert Index(addr) > 0 ==> Before(0, Index(addr));
      cuts[Index(addr)]
    }

    ghost function HullHi(addr: nat, len: nat): (r: nat)
      requires Valid() && InFlash(addr, len)
      ensures addr + len <= r <= Limit()
    {
      var i := Index(addr + len - 1);
      assert i + 1 < |cuts| - 1 ==> Before(i + 1, |cuts| - 1);
      cuts[i + 1]
    }

    /** Every block boundary is a multiple of the part's program unit. */
    ghost predicate Aligned()
      requires Valid()
    {
      forall i :: 0 <= i < |cuts| ==> cuts[i] % unit == 0
    }
  }

  /** The block holding an address is the only one whose bounds enclose it. */
  lemma IndexUnique(b: Board, addr: nat, i: nat)
    requires b.Valid() && i + 1 < |b.cuts| && b.cuts[i] <= addr < b.cuts[i + 1]
    ensures b.Base() <= addr < b.Limit() && b.Index(addr) == i
  {
    assert 0 < i ==> b.Before(0, i);
    assert i + 1 < |b.cuts| - 1 ==> b.Before(i + 1, |b.cuts| - 1);
    var j := b.Index(addr);
    assert j + 1 < i ==> b.Before(j + 1, i);
    assert i + 1 < j ==> b.Before(i + 1, j);
  }

  /** One whole block is its own hull. */
  lemma HullOfBlock(b: Board, i: nat)
    requires b.Valid() && i + 1 < |b.cuts|
    ensures b.Base() <= b.cuts[i] < b.cuts[i + 1] <= b.Limit()
    ensures b.InFlash(b.cuts[i], b.cuts[i + 1] - b.cuts[i])
    ensures b.HullLo(b.cuts[i], b.cuts[i + 1] - b.cuts[i]) == b.cuts[i]
    ensures b.HullHi(b.cuts[i], b.cuts[i + 1] - b.cuts[i]) == b.cuts[i + 1]
  {
    assert b.Before(i, i + 1);
    assert 0 < i ==> b.Before(0, i);
    assert i + 1 < |b.cuts| - 1 ==> b.Before(i + 1, |b.cuts| - 1);
    IndexUnique(b, b.cuts[i], i);
    IndexUnique(b, b.cuts[i + 1] - 1, i);
  }

  /** What the core asks of the flash. Addresses are absolute. */
  datatype Event =
    | Read(addr: nat, len: nat)            // bulk flash_read
    | Load(addr: nat, width: nat)          // read32 (width 4) or read8 (width 1)
    | Program(addr: nat, data: seq<byte>)  // flash_write
    | Erase(addr: nat, len: nat)           // flash_erase
  {
    /** Programs and erases; the other events leave the contents alone. */
    predicate Mutates() { Program? || Erase? }

    ghost predicate InRange(b: Board)
      requires b.Valid()
    {
      match this
      case Program(a, data) => b.InFlash(a, |data|)
      case Erase(a, n) => b.InFlash(a, n)
      case _ => true
    }

    /** The device's own check: programs come in whole units. */
    predicate Accepted(b: Board) {
      Program? ==> addr % b.unit == 0 && |data| % b.unit == 0
    }
  }

  /** Programming a byte can only clear bits. */
  function Masked(was: seq<byte>, data: seq<byte>): (r: seq<byte>)
    requires |was| == |data|
    ensures |r| == |was|
    ensures forall k :: 0 <= k < |r| ==> r[k] == was[k] & data[k]
  {
    seq(|was|, k requires 0 <= k < |was| => was[k] & data[k])
  }

  function Blank(n: nat): (r: seq<byte>)
    ensures |r| == n
    ensures forall k :: 0 <= k < n ==> r[k] == ERASED
  {
    seq(n, _ => ERASED)
  }

  /** The flash contents after a program that was accepted. */
  ghost function Programmed(b: Board, f: seq<byte>, addr: nat, data: seq<byte>): (r: seq<byte>)
    requires b.Valid() && |f| == b.Size() && b.InFlash(addr, |data|)
    ensures |r| == |f|
  {
    var at := addr - b.Base();
    Splice(f, at, Masked(Slice(f, at, |data|), data))
  }

  /** The flash contents after an erase: every block that meets the range is blank. */
  ghost function Wiped(b: Board, f: seq<byte>, addr: nat, len: nat): (r: seq<byte>)
    requires b.Valid() && |f| == b.Size() && b.InFlash(addr, len)
    ensures |r| == |f|
  {
    Splice(f, b.HullLo(addr, len) - b.Base(), Blank(b.HullHi(addr, len) - b.HullLo(addr, len)))
  }

  ghost function Apply(b: Board, f: seq<byte>, e: Event): (r: seq<byte>)
    requires b.Valid() && |f| == b.Size() && e.InRange(b)
    ensures |r| == |f|
  {
    match e
    case Program(a, data) => Programmed(b, f, a, data)
    case Erase(a, n) => Wiped(b, f, a, n)
    case _ => f
  }

  ghost predicate AllInRange(b: Board, es: seq<Event>)
    requires b.Valid()
  {
    forall k :: 0 <= k < |es| ==> es[k].InRange(b)
  }

  /** The contents after a sequence of accepted operations. */
  ghost function Replay(b: Board, f: seq<byte>, es: seq<Event>): (r: seq<byte>)
    requires b.Valid() && |f| == b.Size() && AllInRange(b, es)
    ensures |r| == |f|
  {
    if es == [] then f else Apply(b, Replay(b, f, es[..|es| - 1]), es[|es| - 1])
  }

  lemma {:induction false} ReplayConcat(b: Board, f: seq<byte>, s: seq<Event>, t: seq<Event>)
    requires b.Valid() && |f| == b.Size() && AllInRange(b, s) && AllInRange(b, t)
    ensures AllInRange(b, s + t)
    ensures Replay(b, f, s + t) == Replay(b, Replay(b, f, s), t)
    decreases |t|
  {
    if t == [] {
      assert s + t == s;
    } else {
      var n := |t| - 1;
      assert (s + t)[..|s + t| - 1] == s + t[..n];
      ReplayConcat(b, f, s, t[..n]);
    }
  }

  /** Every bit of `x` is set in `y`. */
  predicate Subset(x: byte, y: byte) { x & y == x }

  /** Every bit of `to` is already set in `from`. */
  ghost predicate Clears(from: seq<byte>, to: seq<byte>) {
    |from| == |to| && forall k :: 0 <= k < |to| ==> Subset(to[k], from[k])
  }

  lemma MaskIsSubset(was: byte, data: byte)
    ensures Subset(was & data, was)
  {
  }

  lemma SubsetOfItself(x: byte)
    ensures Subset(x, x)
  {
  }

  lemma MaskOfSubset(was: byte, data: byte)
    requires Subset(data, was)
    ensures was & data == data
  {
  }

  lemma SubsetTransitive(x: byte, y: byte, z: byte)
    requires Subset(x, y) && Subset(y, z)
    ensures Subset(x, z)
  {
  }

  /** Whether an event erases the block holding the address. */
  ghost predicate ErasesAt(b: Board, e: Event, addr: nat)
    requires b.Valid() && e.InRange(b)
  {
    e.Erase? && b.HullLo(e.addr, e.len) <= addr < b.HullHi(e.addr, e.len)
  }

  /** The byte at an address after a program. */
  lemma ProgrammedByte(b: Board, f: seq<byte>, addr: nat, data: seq<byte>, x: nat)
    requires b.Valid() && |f| == b.Size() && b.InFlash(addr, |data|) && x < |f|
    ensures Programmed(b, f, addr, data)[x]
            == if addr <= b.Base() + x < addr + |data| then f[x] & data[b.Base() + x - addr] else f[x]
  {
    hide Splice, Slice, Masked;
  }

  /** The byte at an address after an erase. */
  lemma WipedByte(b: Board, f: seq<byte>, addr: nat, len: nat, x: nat)
    requires b.Valid() && |f| == b.Size() && b.InFlash(addr, len) && x < |f|
    ensures Wiped(b, f, addr, len)[x]
            == if b.HullLo(addr, len) <= b.Base() + x < b.HullHi(addr, len) then ERASED else f[x]
  {
    hide Board.HullLo, Board.HullHi;
  }

  lemma ApplyClears(b: Board, f: seq<byte>, e: Event, addr: nat)
    requires b.Valid() && |f| == b.Size() && e.InRange(b)
    requires b.Base() <= addr < b.Limit() && !ErasesAt(b, e, addr)
    ensures Subset(Apply(b, f, e)[addr - b.Base()], f[addr - b.Base()])
  {
    hide Subset, Board.HullLo, Board.HullHi, Programmed, Wiped;
    var x := addr - b.Base();
    SubsetOfItself(f[x]);
    match e
    case Program(a, data) =>
      ProgrammedByte(b, f, a, data, x);
      if a <= addr < a + |data| {
        MaskIsSubset(f[x], data[addr - a]);
      }
    case Erase(a, len) =>
      WipedByte(b, f, a, len, x);
    case _ =>
  }

  /**
    NOR monotonicity over any run: a byte that no erase of the run reaches ends
    with a subset of the bits it started with.
   */
  lemma {:induction false} BitsOnlyClear(b: Board, f: seq<byte>, es: seq<Event>, addr: nat)
    requires b.Valid() && |f| == b.Size() && AllInRange(b, es)
    requires b.Base() <= addr < b.Limit()
    requires forall k :: 0 <= k < |es| ==> !ErasesAt(b, es[k], addr)
    ensures Subset(Replay(b, f, es)[addr - b.Base()], f[addr - b.Base()])
    decreases |es|
  {
    var x := addr - b.Base();
    hide Subset;
    if es == [] {
      SubsetOfItself(f[x]);
    } else {
      var n := |es| - 1;
      BitsOnlyClear(b, f, es[..n], addr);
      ApplyClears(b, Replay(b, f, es[..n]), es[n], addr);
      SubsetTransitive(Replay(b, f, es)[x], Replay(b, f, es[..n])[x], f[x]);
    }
  }

  ghost predicate ProgramsOnly(es: seq<Event>) {
    forall k :: 0 <= k < |es| ==> !es[k].Erase?
  }

  ghost predicate ReachableByPrograms(b: Board, f: seq<byte>, g: seq<byte>)
    requires b.Valid() && |f| == b.Size()
  {
    exists es :: AllInRange(b, es) && ProgramsOnly(es) && Replay(b, f, es) == g
  }

  ghost predicate AllAccepted(b: Board, es: seq<Event>) {
    forall k :: 0 <= k < |es| ==> es[k].Accepted(b)
  }

  /** The same, with programs the device does not refuse. */
  ghost predicate ReachableByAccepted(b: Board, f: seq<byte>, g: seq<byte>)
    requires b.Valid() && |f| == b.Size()
  {
    exists es :: AllInRange(b, es) && AllAccepted(b, es) && ProgramsOnly(es) && Replay(b, f, es) == g
  }

  lemma OneEventReplay(b: Board, f: seq<byte>, e: Event)
    requires b.Valid() && |f| == b.Size() && e.InRange(b)
    ensures AllInRange(b, [e]) && Replay(b, f, [e]) == Apply(b, f, e)
  {
    assert [e][..0] == [];
  }

  lemma Reaches(b: Board, f: seq<byte>, es: seq<Event>)
    requires b.Valid() && |f| == b.Size() && AllInRange(b, es) && ProgramsOnly(es)
    ensures ReachableByPrograms(b, f, Replay(b, f, es))
    ensures AllAccepted(b, es) ==> ReachableByAccepted(b, f, Replay(b, f, es))
  {
    hide Replay;
  }

  lemma SubsetIsReachable(b: Board, f: seq<byte>, g: seq<byte>)
    requires b.Valid() && |f| == |g| == b.Size() && Clears(f, g)
    ensures ReachableByPrograms(b, f, g)
    ensures b.Aligned() ==> ReachableByAccepted(b, f, g)
  {
    hide Programmed, Splice, Replay, Clears, ReachableByPrograms, ReachableByAccepted;
    assert b.InFlash(b.Base(), |g|);
    SliceAll(f);
    ProgramSubset(b, f, b.Base(), g);
    SpliceAll(f, g);
    OneEventReplay(b, f, Program(b.Base(), g));
    Reaches(b, f, [Program(b.Base(), g)]);
    if b.Aligned() {
      SumOfMultiples(b.Base(), b.Limit(), b.unit);
    }
  }

  lemma ReachableIsSubset(b: Board, f: seq<byte>, es: seq<Event>)
    requires b.Valid() && |f| == b.Size() && AllInRange(b, es) && ProgramsOnly(es)
    ensures Clears(f, Replay(b, f, es))
  {
    forall k | 0 <= k < |f| ensures Subset(Replay(b, f, es)[k], f[k]) {
      BitsOnlyClear(b, f, es, b.Base() + k);
    }
  }

  /** Runs without an erase reach exactly the contents that clear bits of the present ones; where the
      blocks are whole program units, so do the runs of which the device refuses nothing. */
  lemma ProgramsReachExactlySubsets(b: Board, f: seq<byte>, g: seq<byte>)
    requires b.Valid() && |f| == b.Size()
    ensures ReachableByPrograms(b, f, g) <==> Clears(f, g)
    ensures b.Aligned() ==> (ReachableByAccepted(b, f, g) <==> Clears(f, g))
  {
    hide Replay;
    if ReachableByPrograms(b, f, g) {
      var es :| AllInRange(b, es) && ProgramsOnly(es) && Replay(b, f, es) == g;
      ReachableIsSubset(b, f, es);
    }
    if ReachableByAccepted(b, f, g) {
      var es :| AllInRange(b, es) && AllAccepted(b, es) && ProgramsOnly(es) && Replay(b, f, es) == g;
      ReachableIsSubset(b, f, es);
    }
    if Clears(f, g) {
      SubsetIsReachable(b, f, g);
    }
  }

  /** Programming data that only clears bits leaves exactly that data. */
  lemma ProgramSubset(b: Board, f: seq<byte>, addr: nat, data: seq<byte>)
    requires b.Valid() && |f| == b.Size() && b.InFlash(addr, |data|)
    requires var at := addr - b.Base(); Clears(Slice(f, at, |data|), data)
    ensures Programmed(b, f, addr, data) == Splice(f, addr - b.Base(), data)
  {
    var at := addr - b.Base();
    var was := Slice(f, at, |data|);
    forall k | 0 <= k < |data| ensures Masked(was, data)[k] == data[k] {
      MaskOfSubset(was[k], data[k]);
    }
    SameElements(Masked(was, data), data);
  }
}
