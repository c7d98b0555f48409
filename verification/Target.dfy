/**
  A debug target with NOR flash as the core sees it through a backend's operation table.
  Any call may fail: `plan` holds the outcomes of the calls still to come, and a failed
  program or erase may leave arbitrary bytes in the blocks it addressed.
 */
module Backend {
  import opened Words
  import opened Nor

  datatype Fault = Fine | Fail(damage: seq<byte>)

  /** hw_flash_info_t. */
  datatype Info = Info(base: nat, size: nat, pageSize: nat, writeAlign: nat)

  /** The two contents agree everywhere but on the addresses [lo, hi). */
  ghost predicate SameOutside(b: Board, f: seq<byte>, g: seq<byte>, lo: nat, hi: nat)
    requires b.Valid() && |f| == b.Size()
  {
    && |g| == |f|
    && forall k :: 0 <= k < |f| && !(lo <= b.Base() + k < hi) ==> g[k] == f[k]
  }

  class Target {
    const board: Board
    const flash: array<byte>
    var halted: bool
    var plan: seq<Fault>

    /** The flash accesses issued so far, and whether the core was halted at each. */
    ghost var trace: seq<Event>
    ghost var haltedAt: seq<bool>

    ghost predicate Valid()
      reads this
    {
      board.Valid() && flash.Length == board.Size() && |haltedAt| == |trace|
    }

    /** No call from here on fails for outside reasons. */
    ghost predicate Healthy()
      reads this`plan
    {
      forall k :: 0 <= k < |plan| ==> plan[k].Fine?
    }

    constructor (board: Board, contents: seq<byte>, halted: bool, plan: seq<Fault>)
      requires board.Valid() && |contents| == board.Size()
      ensures Valid() && fresh(flash)
      ensures this.board == board && flash[..] == contents && this.halted == halted
      ensures this.plan == plan && trace == []
    {
      this.board, this.halted, this.plan := board, halted, plan;
      var mem := new byte[|contents|](k requires 0 <= k < |contents| => contents[k]);
      flash := mem;
      trace, haltedAt := [], [];
    }

    /** The outcome the environment has in store for the next call. */
    method Next() returns (fault: Fault)
      modifies this`plan
      ensures old(Healthy()) ==> fault.Fine? && Healthy()
    {
      if plan == [] {
        fault := Fine;
      } else {
        fault := plan[0];
        plan := plan[1..];
      }
    }

    ghost method Log(e: Event)
      requires Valid()
      modifies this`trace, this`haltedAt
      ensures Valid()
      ensures trace == old(trace) + [e] && haltedAt == old(haltedAt) + [halted]
    {
      trace, haltedAt := trace + [e], haltedAt + [halted];
    }

    /** malloc/realloc on the host. */
    method Allocate(n: nat) returns (ok: bool, buf: array<byte>)
      modifies this`plan
      ensures buf.Length == n && fresh(buf)
      ensures old(Healthy()) ==> ok && Healthy()
    {
      var fault := Next();
      ok := fault.Fine?;
      buf := new byte[n];
    }

    method FlashInfo() returns (ok: bool, info: Info)
      requires Valid()
      modifies this`plan
      ensures ok ==> info == Info(board.Base(), board.Size(), board.pageSize, board.writeAlign)
      ensures old(Healthy()) ==> ok && Healthy()
    {
      var fault := Next();
      ok := fault.Fine?;
      info := Info(board.Base(), board.Size(), board.pageSize, board.writeAlign);
    }

    /** The bounds of the block holding an address. */
    method FindBlock(addr: nat) returns (lo: nat, hi: nat)
      requires Valid() && board.Base() <= addr < board.Limit()
      ensures var i := board.Index(addr); lo == board.cuts[i] && hi == board.cuts[i + 1]
      ensures board.Base() <= lo <= addr < hi <= board.Limit()
    {
      var k := 0;
      while board.cuts[k + 1] <= addr
        invariant k + 1 < |board.cuts| && board.cuts[k] <= addr
        decreases |board.cuts| - k
      {
        k := k + 1;
      }
      IndexUnique(board, addr, k);
      HullOfBlock(board, k);
      return board.cuts[k], board.cuts[k + 1];
    }

    method FlashSector(addr: nat) returns (ok: bool, sb: nat, ss: nat)
      requires Valid()
      modifies this`plan
      ensures ok ==> board.Base() <= addr < board.Limit() &&
                     var i := board.Index(addr); sb == board.cuts[i] && sb + ss == board.cuts[i + 1]
      ensures old(Healthy()) ==> Healthy() && (ok <==> board.Base() <= addr < board.Limit())
    {
      var fault := Next();
      ok, sb, ss := false, 0, 0;
      if fault.Fine? && board.Base() <= addr < board.Limit() {
        var hi;
        sb, hi := FindBlock(addr);
        ok, ss := true, hi - sb;
      }
    }

    method FlashRead(addr: nat, buf: array<byte>, len: nat) returns (ok: bool)
      requires Valid() && 0 < len <= buf.Length && buf != flash
      modifies this`plan, this`trace, this`haltedAt, buf
      ensures Valid()
      ensures trace == old(trace) + [Read(addr, len)] && haltedAt == old(haltedAt) + [halted]
      ensures ok ==> board.InFlash(addr, len) &&
                     buf[..len] == Slice(flash[..], addr - board.Base(), len)
      ensures old(Healthy()) ==> Healthy() && (ok <==> board.InFlash(addr, len))
    {
      var fault := Next();
      Log(Read(addr, len));
      ok := fault.Fine? && board.InFlash(addr, len);
      if ok {
        var at := addr - board.Base();
        forall k | 0 <= k < len { buf[k] := flash[at + k]; }
      }
    }

    /** Loads outside the flash fail on this target. */
    method Read32(addr: nat) returns (ok: bool, w: bv32)
      requires Valid()
      modifies this`plan, this`trace, this`haltedAt
      ensures Valid()
      ensures trace == old(trace) + [Load(addr, 4)] && haltedAt == old(haltedAt) + [halted]
      ensures ok ==> board.InFlash(addr, 4) &&
                     forall k :: 0 <= k < 4 ==> ByteOf(w, k) == flash[addr - board.Base() + k]
      ensures old(Healthy()) ==> Healthy() && (ok <==> board.InFlash(addr, 4))
    {
      var fault := Next();
      Log(Load(addr, 4));
      ok, w := fault.Fine? && board.InFlash(addr, 4), 0;
      if ok {
        var at := addr - board.Base();
        w := Word(flash[at], flash[at + 1], flash[at + 2], flash[at + 3]);
        BytesOfWord(flash[at], flash[at + 1], flash[at + 2], flash[at + 3]);
      }
    }

    method Read8(addr: nat) returns (ok: bool, v: byte)
      requires Valid()
      modifies this`plan, this`trace, this`haltedAt
      ensures Valid()
      ensures trace == old(trace) + [Load(addr, 1)] && haltedAt == old(haltedAt) + [halted]
      ensures ok ==> board.InFlash(addr, 1) && v == flash[addr - board.Base()]
      ensures old(Healthy()) ==> Healthy() && (ok <==> board.InFlash(addr, 1))
    {
      var fault := Next();
      Log(Load(addr, 1));
      ok, v := fault.Fine? && board.InFlash(addr, 1), 0;
      if ok {
        v := flash[addr - board.Base()];
      }
    }

    /** Put the bytes a failed operation left behind into [lo, hi). */
    method Damage(lo: nat, hi: nat, bytes: seq<byte>)
      requires Valid() && board.Base() <= lo <= hi <= board.Limit()
      modifies flash
      ensures SameOutside(board, old(flash[..]), flash[..], lo, hi)
    {
      var at := lo - board.Base();
      forall k | 0 <= k < hi - lo && k < |bytes| { flash[at + k] := bytes[k]; }
    }

    /** Programming clears bits, byte by byte. */
    method Burn(at: nat, data: seq<byte>)
      requires at + |data| <= flash.Length
      modifies flash
      ensures forall k :: 0 <= k < flash.Length ==>
                flash[k] == if at <= k < at + |data| then old(flash[k]) & data[k - at] else old(flash[k])
    {
      for i := 0 to |data|
        invariant forall k :: 0 <= k < flash.Length ==>
                    flash[k] == if at <= k < at + i then old(flash[k]) & data[k - at] else old(flash[k])
      {
        flash[at + i] := flash[at + i] & data[i];
      }
    }

    method BurnAt(addr: nat, data: seq<byte>)
      requires Valid() && board.InFlash(addr, |data|)
      modifies flash
      ensures flash[..] == Programmed(board, old(flash[..]), addr, data)
    {
      Burn(addr - board.Base(), data);
      SameElements(flash[..], Programmed(board, old(flash[..]), addr, data));
    }

    method FlashWrite(addr: nat, data: seq<byte>) returns (ok: bool)
      requires Valid()
      modifies this`plan, this`trace, this`haltedAt, flash
      ensures Valid()
      ensures trace == old(trace) + [Program(addr, data)] && haltedAt == old(haltedAt) + [halted]
      ensures ok ==> board.InFlash(addr, |data|) && Program(addr, data).Accepted(board) &&
                     flash[..] == Programmed(board, old(flash[..]), addr, data)
      ensures !ok && !board.InFlash(addr, |data|) ==> flash[..] == old(flash[..])
      ensures !ok && board.InFlash(addr, |data|) ==>
                SameOutside(board, old(flash[..]), flash[..],
                            board.HullLo(addr, |data|), board.HullHi(addr, |data|))
      ensures old(Healthy()) ==> Healthy()
      ensures old(Healthy()) ==>
                (ok <==> board.InFlash(addr, |data|) && Program(addr, data).Accepted(board))
    {
      hide Programmed, Board.Index;
      var fault := Next();
      Log(Program(addr, data));
      ok := false;
      if board.InFlash(addr, |data|) && Program(addr, data).Accepted(board) {
        if fault.Fail? {
          var lo, _ := FindBlock(addr);
          var _, hi := FindBlock(addr + |data| - 1);
          Damage(lo, hi, fault.damage);
        } else {
          BurnAt(addr, data);
          ok := true;
        }
      }
    }

    method FlashErase(addr: nat, len: nat) returns (ok: bool)
      requires Valid()
      modifies this`plan, this`trace, this`haltedAt, flash
      ensures Valid()
      ensures trace == old(trace) + [Erase(addr, len)] && haltedAt == old(haltedAt) + [halted]
      ensures ok ==> board.InFlash(addr, len) && flash[..] == Wiped(board, old(flash[..]), addr, len)
      ensures !ok && !board.InFlash(addr, len) ==> flash[..] == old(flash[..])
      ensures !ok && board.InFlash(addr, len) ==>
                SameOutside(board, old(flash[..]), flash[..],
                            board.HullLo(addr, len), board.HullHi(addr, len))
      ensures old(Healthy()) ==> Healthy() && (ok <==> board.InFlash(addr, len))
    {
      var fault := Next();
      Log(Erase(addr, len));
      ok := false;
      if board.InFlash(addr, len) {
        var lo, _ := FindBlock(addr);
        var _, hi := FindBlock(addr + len - 1);
        if fault.Fail? {
          Damage(lo, hi, fault.damage);
        } else {
          forall k | lo - board.Base() <= k < hi - board.Base() { flash[k] := ERASED; }
          ok := true;
        }
      }
    }

    /** A failed query answers "not halted". */
    method BoardHalted() returns (yes: bool)
      modifies this`plan
      ensures yes ==> halted
      ensures old(Healthy()) ==> Healthy() && yes == halted
    {
      var fault := Next();
      yes := fault.Fine? && halted;
    }

    method BoardHalt() returns (ok: bool)
      modifies this`plan, this`halted
      ensures halted == (ok || old(halted))
      ensures old(Healthy()) ==> Healthy() && ok
    {
      var fault := Next();
      ok := fault.Fine?;
      if ok { halted := true; }
    }
  }
}
