/**
  What hw_flash_update and hw_flash_patch are meant to do to a NOR flash, block by block:
  the contents each block should end with and the accesses spent on it.
 */
module FlashSpec {
  import opened Words
  import opened Arith
  import opened Nor

  // ----- Reads -----

  /** The loads of the read fallback: words where aligned and long enough, bytes elsewhere. */
  ghost function Loads(b: Board, addr: nat, len: nat): seq<Event>
    decreases len
  {
    if len == 0 then []
    else if addr % 4 == 0 && len >= 4 && b.ops.read32 then [Load(addr, 4)] + Loads(b, addr + 4, len - 4)
    else if b.ops.read8 then [Load(addr, 1)] + Loads(b, addr + 1, len - 1)
    else []
  }

  lemma LoadsUnfold(b: Board, addr: nat, len: nat)
    ensures Loads(b, addr, len) ==
            if len == 0 then []
            else if addr % 4 == 0 && len >= 4 && b.ops.read32 then [Load(addr, 4)] + Loads(b, addr + 4, len - 4)
            else if b.ops.read8 then [Load(addr, 1)] + Loads(b, addr + 1, len - 1)
            else []
  {
  }

  ghost function ReadEvents(b: Board, addr: nat, len: nat): seq<Event> {
    if len == 0 then [] else if b.ops.flashRead then [Read(addr, len)] else Loads(b, addr, len)
  }

  /** The reads the backend's operation table can serve at all. */
  ghost predicate CanRead(b: Board, addr: nat, len: nat) {
    len == 0 || b.ops.flashRead || b.ops.read8 || (b.ops.read32 && addr % 4 == 0 && len % 4 == 0)
  }

  // ----- The span to reprogram -----

  /** The first position from k on where the sequences differ, or their length. */
  ghost function DiffStart(s: seq<byte>, t: seq<byte>, k: nat): (r: nat)
    requires |s| == |t| && k <= |s|
    ensures k <= r <= |s|
    ensures forall x :: k <= x < r ==> s[x] == t[x]
    ensures r < |s| ==> s[r] != t[r]
    decreases |s| - k
  {
    if k == |s| || s[k] != t[k] then k else DiffStart(s, t, k + 1)
  }

  /** One past the last position below k where the sequences differ, or 0. */
  ghost function DiffEnd(s: seq<byte>, t: seq<byte>, k: nat): (r: nat)
    requires |s| == |t| && k <= |s|
    ensures r <= k
    ensures forall x :: r <= x < k ==> s[x] == t[x]
    ensures r > 0 ==> s[r - 1] != t[r - 1]
  {
    if k == 0 || s[k - 1] != t[k - 1] then k else DiffEnd(s, t, k - 1)
  }

  ghost function WindowLo(cur: seq<byte>, want: seq<byte>, align: nat): (r: nat)
    requires |cur| == |want| && align > 0
    ensures r <= DiffStart(want, cur, 0)
  {
    if |cur| % align != 0 then 0 else RoundDown(DiffStart(want, cur, 0), align)
  }

  ghost function WindowHi(cur: seq<byte>, want: seq<byte>, align: nat): (r: nat)
    requires |cur| == |want| && align > 0
    ensures DiffEnd(want, cur, |cur|) <= r <= |cur|
  {
    if |cur| % align != 0 then |cur| else Min(|cur|, RoundUp(DiffEnd(want, cur, |cur|), align))
  }

  lemma DiffersInside(cur: seq<byte>, want: seq<byte>)
    requires |cur| == |want| && cur != want
    ensures DiffStart(want, cur, 0) < DiffEnd(want, cur, |cur|)
  {
    var x :| 0 <= x < |cur| && want[x] != cur[x];
    assert DiffStart(want, cur, 0) <= x < DiffEnd(want, cur, |cur|);
  }

  // ----- One block -----

  /** When a block may be left out: never, when it holds the data already, or when the caller's
      old image says so. */
  datatype Rule = Always | Compare | Told(prior: seq<byte>)

  /** The work on one erase block: put `data` at offset `off`. */
  datatype Task = Task(base: nat, size: nat, off: nat, data: seq<byte>, rule: Rule) {

    ghost predicate Valid() {
      && 0 < |data| && off + |data| <= size
      && (rule.Told? ==> |rule.prior| == |data|)
    }

    ghost predicate Holds(cur: seq<byte>) { |cur| == size && Valid() }

    /** The block as it should be, when it now holds `cur`. */
    ghost function Want(cur: seq<byte>): (r: seq<byte>)
      requires Holds(cur)
      ensures |r| == |cur|
    {
      Splice(cur, off, data)
    }

    ghost predicate Skips(cur: seq<byte>)
      requires Holds(cur)
    {
      match rule
      case Always => false
      case Compare => Slice(cur, off, |data|) == data
      case Told(prior) => prior == data
    }

    /** What the block ends with. */
    ghost function Next(cur: seq<byte>): (r: seq<byte>)
      requires Holds(cur)
      ensures |r| == |cur|
    {
      if Skips(cur) then cur else Want(cur)
    }

    predicate Partial() { 0 < off || off + |data| < size }

    /** Update reads a block back only when the region leaves part of it out. */
    ghost predicate ReadsBlock(cur: seq<byte>)
      requires Holds(cur)
    {
      match rule
      case Always => Partial()
      case Compare => true
      case Told(_) => !Skips(cur)
    }

    ghost function Reads(b: Board, cur: seq<byte>): seq<Event>
      requires Holds(cur)
    {
      if ReadsBlock(cur) then ReadEvents(b, base, size) else []
    }

    /** The programs and erases spent on the block. */
    ghost function Edits(b: Board, cur: seq<byte>): seq<Event>
      requires Holds(cur)
    {
      if rule.Always? then [Erase(base, size), Program(base, Want(cur))]
      else if Skips(cur) then []
      else Rewrite(b, base, cur, Want(cur))
    }

    /** All accesses spent on the block. */
    ghost function Events(b: Board, cur: seq<byte>): seq<Event>
      requires Holds(cur)
    {
      Reads(b, cur) + Edits(b, cur)
    }

    /** The backend accepts every access the block needs. */
    ghost predicate Completes(b: Board, cur: seq<byte>)
      requires Holds(cur)
    {
      && (ReadsBlock(cur) ==> CanRead(b, base, size))
      && forall e :: e in Edits(b, cur) ==> e.Accepted(b)
    }
  }

  /** When the data covers the whole block, its old bytes do not matter. */
  lemma WantOfWholeBlock(k: Task, cur: seq<byte>, other: seq<byte>)
    requires k.Holds(cur) && k.Holds(other) && !k.Partial()
    ensures k.Want(cur) == k.Want(other)
  {
  }

  /** The fewest operations that take the block at `base` from `cur` to `want`. */
  ghost function Rewrite(b: Board, base: nat, cur: seq<byte>, want: seq<byte>): (es: seq<Event>)
    requires |cur| == |want|
  {
    if want == cur then []
    else if Clears(cur, want) then
      DiffersInside(cur, want);
      var lo, hi := WindowLo(cur, want, b.Align()), WindowHi(cur, want, b.Align());
      [Program(base + lo, Slice(want, lo, hi - lo))]
    else [Erase(base, |cur|), Program(base, want)]
  }

  // ----- Jobs -----

  /** Update rewrites every block; Patch is given an old image, or NULL (`None`). */
  datatype Mode = Update | Patch(prior: Option<seq<byte>>)

  /** Bring [addr, addr + |image|) to `image`. */
  datatype Job = Job(addr: nat, image: seq<byte>, mode: Mode) {
    function End(): nat { addr + |image| }

    ghost predicate Fits(b: Board)
      requires b.Valid()
    {
      && b.InFlash(addr, |image|)
      && (mode.Patch? && mode.prior.Some? ==> |mode.prior.value| == |image|)
    }
  }

  ghost function First(b: Board, j: Job): (i: nat)
    requires b.Valid() && j.Fits(b)
    ensures i + 1 < |b.cuts|
  {
    b.Index(j.addr)
  }

  ghost function Last(b: Board, j: Job): (i: nat)
    requires b.Valid() && j.Fits(b)
    ensures First(b, j) <= i && i + 1 < |b.cuts|
  {
    var i, k := b.Index(j.addr), b.Index(j.End() - 1);
    assert k + 1 < i ==> b.Before(k + 1, i);
    k
  }

  /** Block i shares an address with the region. */
  ghost predicate Meets(b: Board, j: Job, i: nat)
    requires b.Valid()
  {
    i + 1 < |b.cuts| && b.cuts[i] < j.End() && j.addr < b.cuts[i + 1]
  }

  lemma MeetsIsBetween(b: Board, j: Job, i: nat)
    requires b.Valid() && j.Fits(b)
    ensures Meets(b, j, i) <==> First(b, j) <= i <= Last(b, j)
  {
    var k, m := First(b, j), Last(b, j);
    if i + 1 < |b.cuts| {
      assert i < k && i + 1 < k ==> b.Before(i + 1, k);
      assert k < i ==> b.Before(k, i);
      assert k + 1 < i + 1 ==> b.Before(k + 1, i + 1);
      assert m + 1 < i ==> b.Before(m + 1, i);
      assert i < m ==> b.Before(i, m);
    }
  }

  // ----- The walk over the blocks -----

  ghost function BlockSize(b: Board, i: nat): nat
    requires b.Valid() && i + 1 < |b.cuts|
  {
    HullOfBlock(b, i);
    b.cuts[i + 1] - b.cuts[i]
  }

  /** The bytes of block i. */
  ghost function Block(b: Board, f: seq<byte>, i: nat): (r: seq<byte>)
    requires b.Valid() && i + 1 < |b.cuts| && |f| == b.Size()
    ensures |r| == BlockSize(b, i)
  {
    HullOfBlock(b, i);
    Slice(f, b.cuts[i] - b.Base(), BlockSize(b, i))
  }

  /** The part of the job that falls on block i. */
  ghost function TaskOf(b: Board, j: Job, i: nat): (k: Task)
    requires b.Valid() && j.Fits(b) && Meets(b, j, i)
    ensures k.Valid() && k.base == b.cuts[i] && k.size == BlockSize(b, i)
  {
    HullOfBlock(b, i);
    var lo, hi := Max(b.cuts[i], j.addr), Min(b.cuts[i + 1], j.End());
    var rule := match j.mode
      case Update => Always
      case Patch(None) => Compare
      case Patch(Some(prior)) => Told(Slice(prior, lo - j.addr, hi - lo));
    Task(b.cuts[i], BlockSize(b, i), lo - b.cuts[i], Slice(j.image, lo - j.addr, hi - lo), rule)
  }

  /** The accesses of the walk up to block i, from initial contents f. */
  ghost function WalkEvents(b: Board, j: Job, f: seq<byte>, i: nat): (es: seq<Event>)
    requires b.Valid() && j.Fits(b) && |f| == b.Size() && i <= Last(b, j) + 1
  {
    if i <= First(b, j) then []
    else
      MeetsIsBetween(b, j, i - 1);
      WalkEvents(b, j, f, i - 1) + TaskOf(b, j, i - 1).Events(b, Block(b, f, i - 1))
  }

  /** The flash contents when the walk has dealt with the blocks before i. */
  ghost function Contents(b: Board, j: Job, f: seq<byte>, i: nat): (r: seq<byte>)
    requires b.Valid() && j.Fits(b) && |f| == b.Size() && i <= Last(b, j) + 1
    ensures |r| == |f|
  {
    if i <= First(b, j) then f
    else
      MeetsIsBetween(b, j, i - 1);
      HullOfBlock(b, i - 1);
      Splice(Contents(b, j, f, i - 1), b.cuts[i - 1] - b.Base(),
             TaskOf(b, j, i - 1).Next(Block(b, f, i - 1)))
  }

  /** The walk compares `pos` with a 32-bit end: a region that ends at 2^32 is not walked. */
  ghost function Stop(b: Board, j: Job): (i: nat)
    requires b.Valid() && j.Fits(b)
    ensures First(b, j) <= i <= Last(b, j) + 1
  {
    if j.End() == LIMIT32 then First(b, j) else Last(b, j) + 1
  }

  /** Every access of a run that goes to its end, the closing verify included. */
  ghost function RunEvents(b: Board, j: Job, f: seq<byte>): (es: seq<Event>)
    requires b.Valid() && j.Fits(b) && |f| == b.Size()
  {
    WalkEvents(b, j, f, Stop(b, j)) + ReadEvents(b, j.addr, |j.image|)
  }

  // ----- Accounting -----

  /** hw_flash_patch_stats_t. */
  datatype Stats = Stats(total: nat, changed: nat, erased: nat, written: nat)

  /** What a sequence of accesses amounts to. */
  datatype Tally = Tally(erases: nat, written: nat, byteLoads: nat) {
    function Plus(that: Tally): Tally {
      Tally(erases + that.erases, written + that.written, byteLoads + that.byteLoads)
    }
  }

  function Weight(e: Event): Tally {
    match e
    case Erase(_, _) => Tally(1, 0, 0)
    case Program(_, data) => Tally(0, |data|, 0)
    case Load(_, width) => Tally(0, 0, if width == 1 then 1 else 0)
    case Read(_, _) => Tally(0, 0, 0)
  }

  function TallyOf(es: seq<Event>): Tally {
    if es == [] then Tally(0, 0, 0) else TallyOf(es[..|es| - 1]).Plus(Weight(es[|es| - 1]))
  }

  lemma {:induction false} TallyConcat(s: seq<Event>, t: seq<Event>)
    ensures TallyOf(s + t) == TallyOf(s).Plus(TallyOf(t))
    decreases |t|
  {
    if t == [] {
      assert s + t == s;
    } else {
      assert (s + t)[..|s + t| - 1] == s + t[..|t| - 1];
      TallyConcat(s, t[..|t| - 1]);
    }
  }

  lemma TallyOfNone()
    ensures TallyOf([]) == Tally(0, 0, 0)
  {
  }

  lemma TallyOfOne(e: Event)
    ensures TallyOf([e]) == Weight(e)
  {
    hide Weight;
    var es := [e];
    var none := es[..|es| - 1];
    assert none == [];
    assert TallyOf(es) == TallyOf(none).Plus(Weight(e));
  }

  lemma TallyOfPair(e: Event, e': Event)
    ensures TallyOf([e, e']) == Weight(e).Plus(Weight(e'))
  {
    hide TallyOf, Weight, Tally.Plus;
    TallyOfOne(e);
    TallyOfOne(e');
    TallyConcat([e], [e']);
    assert [e] + [e'] == [e, e'];
  }

  /** The counters after one more block, whose `total` has been counted already. */
  ghost function CountBlock(b: Board, k: Task, cur: seq<byte>, stats: Stats): Stats
    requires k.Holds(cur)
  {
    var spent := TallyOf(k.Edits(b, cur));
    Stats(stats.total, stats.changed + (if k.Skips(cur) then 0 else 1),
          stats.erased + spent.erases, stats.written + spent.written)
  }

  /** The number of blocks before i that the walk does not skip. */
  ghost function ChangedBlocks(b: Board, j: Job, f: seq<byte>, i: nat): nat
    requires b.Valid() && j.Fits(b) && |f| == b.Size() && i <= Last(b, j) + 1
  {
    if i <= First(b, j) then 0
    else
      MeetsIsBetween(b, j, i - 1);
      ChangedBlocks(b, j, f, i - 1) + if TaskOf(b, j, i - 1).Skips(Block(b, f, i - 1)) then 0 else 1
  }

  ghost function StatsAt(b: Board, j: Job, f: seq<byte>, i: nat): Stats
    requires b.Valid() && j.Fits(b) && |f| == b.Size() && First(b, j) <= i <= Last(b, j) + 1
  {
    var spent := TallyOf(WalkEvents(b, j, f, i));
    Stats(i - First(b, j), ChangedBlocks(b, j, f, i), spent.erases, spent.written)
  }

  /** The programs and erases of a sequence of accesses. */
  ghost function Mutations(es: seq<Event>): seq<Event> {
    if es == [] then []
    else Mutations(es[..|es| - 1]) + if es[|es| - 1].Mutates() then [es[|es| - 1]] else []
  }
}
