/** hw_flash_patch of core/hw.c: the differential walk over the erase blocks. */
module FlashPatch {
  import opened Words
  import opened Arith
  import opened Nor
  import opened FlashSpec
  import opened Backend
  import opened Walk
  import opened FlashCore
  import opened Accounting

  // ----- The span to reprogram -----

  /** Every position where the two differ lies in [lo, hi). */
  ghost predicate CoversDiff(cur: seq<byte>, want: seq<byte>, lo: nat, hi: nat)
    requires |cur| == |want|
  {
    forall x :: 0 <= x < |cur| && want[x] != cur[x] ==> lo <= x < hi
  }

  /**
    The reprogrammed span covers every differing byte and stays inside the block; when the
    program granularity divides the block it is aligned at both ends, and no aligned interval
    that covers every differing byte is smaller; when it does not, the span is the whole block.
   */
  lemma WindowIsSmallestAligned(cur: seq<byte>, want: seq<byte>, align: nat, lo': nat, hi': nat)
    requires |cur| == |want| && cur != want && align > 0
    requires lo' % align == 0 && hi' % align == 0 && CoversDiff(cur, want, lo', hi')
    ensures var lo, hi := WindowLo(cur, want, align), WindowHi(cur, want, align);
            && lo < hi <= |cur| && CoversDiff(cur, want, lo, hi)
            && (if |cur| % align == 0 then lo % align == 0 && hi % align == 0 && lo' <= lo && hi <= hi'
                else lo == 0 && hi == |cur|)
  {
    DiffersInside(cur, want);
    var s, e := DiffStart(want, cur, 0), DiffEnd(want, cur, |cur|);
    if |cur| % align == 0 {
      RoundsToMultiples(s, align);
      RoundsToMultiples(e, align);
      RoundingIsTight(s, align, lo');
      RoundingIsTight(e, align, hi');
      RoundingIsTight(e, align, |cur|);
    }
  }

  /** The loop of step 3: some bit has to go from 0 to 1. */
  method NeedErase(want: array<byte>, cur: array<byte>, ss: nat) returns (need: bool)
    requires ss <= want.Length && ss <= cur.Length
    ensures need <==> exists x :: 0 <= x < ss && want[x] & cur[x] != want[x]
    ensures need <==> !Clears(cur[..ss], want[..ss])
  {
    need := false;
    for i := 0 to ss
      invariant !need
      invariant forall x :: 0 <= x < i ==> Subset(want[x], cur[x])
    {
      if !Subset(want[i], cur[i]) {
        assert want[..ss][i] == want[i] && cur[..ss][i] == cur[i];
        return true;
      }
    }
  }

  /** The span that actually differs. */
  method DifferingSpan(want: array<byte>, cur: array<byte>, ss: nat) returns (lo: nat, hi: nat)
    requires ss <= want.Length && ss <= cur.Length
    requires want[..ss] != cur[..ss]
    ensures lo == DiffStart(want[..ss], cur[..ss], 0)
    ensures hi == DiffEnd(want[..ss], cur[..ss], ss)
    ensures lo < hi <= ss
  {
    ghost var w, c := want[..ss], cur[..ss];
    DiffersInside(c, w);
    ghost var s, e := DiffStart(w, c, 0), DiffEnd(w, c, ss);
    lo, hi := 0, ss;
    while lo < ss && want[lo] == cur[lo]
      invariant 0 <= lo <= s
    {
      assert w[lo] == c[lo];
      lo := lo + 1;
    }
    assert w[lo] != c[lo];
    while hi > lo && want[hi - 1] == cur[hi - 1]
      invariant e <= hi <= ss
    {
      assert w[hi - 1] == c[hi - 1];
      hi := hi - 1;
    }
    assert w[hi - 1] != c[hi - 1];
  }

  /** The differing span, widened to the program granularity. */
  method ReprogramWindow(want: array<byte>, cur: array<byte>, ss: nat, align: nat)
    returns (lo: nat, hi: nat)
    requires ss <= want.Length && ss <= cur.Length && align > 0 && ss < LIMIT32
    requires want[..ss] != cur[..ss]
    ensures lo == WindowLo(cur[..ss], want[..ss], align)
    ensures hi == WindowHi(cur[..ss], want[..ss], align)
    ensures lo < hi <= ss
  {
    hide DiffStart, DiffEnd;
    lo, hi := DifferingSpan(want, cur, ss);
    if ss % align != 0 {
      lo, hi := 0, ss;
    } else {
      RoundingIsTight(hi, align, ss);
      lo := RoundDown(lo, align);
      hi := U32(RoundUp(hi, align));
      if hi > ss { hi := ss; }
    }
  }

  // ----- One block -----

  /** A range inside one block has that block for its hull. */
  lemma HullWithin(b: Board, i: nat, addr: nat, len: nat)
    requires b.Valid() && i + 1 < |b.cuts| && 0 < len
    requires b.cuts[i] <= addr && addr + len <= b.cuts[i + 1]
    ensures b.InFlash(addr, len)
    ensures b.HullLo(addr, len) == b.cuts[i] && b.HullHi(addr, len) == b.cuts[i + 1]
  {
    HullOfBlock(b, i);
    IndexUnique(b, addr, i);
    IndexUnique(b, addr + len - 1, i);
  }

  /** Writing the span that covers every difference is writing the whole block. */
  lemma SpanSplices(f: seq<byte>, at: nat, cur: seq<byte>, want: seq<byte>, lo: nat, hi: nat)
    requires at + |want| <= |f| && cur == Slice(f, at, |want|) && lo < hi <= |want|
    requires CoversDiff(cur, want, lo, hi) && Clears(cur, want)
    ensures Splice(f, at + lo, Slice(want, lo, hi - lo)) == Splice(f, at, want)
    ensures Clears(Slice(f, at + lo, hi - lo), Slice(want, lo, hi - lo))
  {
    hide Splice, Slice, Subset;
    SameElements(Slice(f, at + lo, hi - lo), Slice(cur, lo, hi - lo));
    SameElements(Splice(f, at + lo, Slice(want, lo, hi - lo)), Splice(f, at, want));
  }

  /** When only bits have to be cleared, programming the differing span alone yields the block. */
  lemma SpanSuffices(b: Board, f: seq<byte>, i: nat, want: seq<byte>, lo: nat, hi: nat)
    requires b.Valid() && |f| == b.Size() && i + 1 < |b.cuts| && |want| == BlockSize(b, i)
    requires Clears(Block(b, f, i), want) && lo < hi <= |want|
    requires CoversDiff(Block(b, f, i), want, lo, hi)
    ensures b.InFlash(b.cuts[i] + lo, hi - lo)
    ensures b.Base() <= b.cuts[i] && b.cuts[i] - b.Base() + |want| <= |f|
    ensures Programmed(b, f, b.cuts[i] + lo, Slice(want, lo, hi - lo)) == Splice(f, b.cuts[i] - b.Base(), want)
  {
    hide Programmed, Clears, CoversDiff, Splice, Slice, Board.HullLo, Board.HullHi, Board.Index;
    HullOfBlock(b, i);
    HullWithin(b, i, b.cuts[i] + lo, hi - lo);
    SpanSplices(f, b.cuts[i] - b.Base(), Block(b, f, i), want, lo, hi);
    ProgramSubset(b, f, b.cuts[i] + lo, Slice(want, lo, hi - lo));
  }

  /** A program inside block i. */
  method WriteInBlock(t: Target, addr: nat, data: seq<byte>, ghost i: nat) returns (ok: bool)
    requires t.Valid() && i + 1 < |t.board.cuts| && data != []
    requires t.board.cuts[i] <= addr && addr + |data| <= t.board.cuts[i + 1]
    modifies t`plan, t`trace, t`haltedAt, t.flash
    ensures t.Valid() && Logged(t, old(t.trace), old(t.haltedAt))
    ensures t.board.InFlash(addr, |data|)
    ensures t.trace == old(t.trace) + [Program(addr, data)]
    ensures SameOutside(t.board, old(t.flash[..]), t.flash[..], t.board.cuts[i], t.board.cuts[i + 1])
    ensures ok ==> t.flash[..] == Programmed(t.board, old(t.flash[..]), addr, data)
    ensures old(t.Healthy()) ==> t.Healthy() && (ok <==> Program(addr, data).Accepted(t.board))
  {
    HullWithin(t.board, i, addr, |data|);
    ok := t.FlashWrite(addr, data);
  }

  /** Program only the span that differs: the block holds `c` and should hold `w`. */
  method ProgramSpan(t: Target, sb: nat, ss: nat, want: array<byte>, cur: array<byte>,
                     ghost w: seq<byte>, ghost c: seq<byte>, ghost i: nat)
    returns (ok: bool, written: nat)
    requires t.Valid() && i + 1 < |t.board.cuts|
    requires sb == t.board.cuts[i] && sb + ss == t.board.cuts[i + 1] && ss < LIMIT32
    requires ss <= want.Length && ss <= cur.Length && w == want[..ss] && c == cur[..ss]
    requires w != c && Clears(c, w) && c == Block(t.board, t.flash[..], i)
    modifies t`plan, t`trace, t`haltedAt, t.flash
    ensures t.Valid() && Logged(t, old(t.trace), old(t.haltedAt))
    ensures !Quiet(old(t.trace), t.trace)
    ensures t.trace == old(t.trace) + Rewrite(t.board, sb, c, w)
    ensures written <= ss && TallyOf(Rewrite(t.board, sb, c, w)) == Tally(0, written, 0)
    ensures SameOutside(t.board, old(t.flash[..]), t.flash[..], sb, sb + ss)
    ensures t.board.Base() <= sb && sb - t.board.Base() + ss <= t.flash.Length
    ensures ok ==> t.flash[..] == Splice(old(t.flash[..]), sb - t.board.Base(), w)
    ensures old(t.Healthy()) ==> t.Healthy()
    ensures old(t.Healthy()) ==>
              (ok <==> forall e :: e in Rewrite(t.board, sb, c, w) ==> e.Accepted(t.board))
  {
    hide Programmed, WindowLo, WindowHi, Clears, Splice, Rewrite, TallyOf, Block, CoversDiff,
      Board.Index, Board.InFlash, Board.HullLo, Board.HullHi, Event.Accepted, SameOutside, Quiet;
    ghost var b, f := t.board, t.flash[..];
    var lo, hi := ReprogramWindow(want, cur, ss, t.board.Align());
    WindowCovers(c, w, b.Align());
    SpanSuffices(b, f, i, w, lo, hi);
    RewriteByClearing(b, sb, c, w);
    ok := WriteInBlock(t, sb + lo, Slice(want[..ss], lo, hi - lo), i);
    written := hi - lo;
    MutationIsHeard(old(t.trace), Rewrite(b, sb, c, w)[0], t.trace);
  }

  /** The rewrite of a block that needs no erase is one program. */
  lemma RewriteByClearing(b: Board, base: nat, cur: seq<byte>, want: seq<byte>)
    requires |cur| == |want| && want != cur && Clears(cur, want)
    ensures var lo, hi := WindowLo(cur, want, b.Align()), WindowHi(cur, want, b.Align());
            && lo < hi <= |cur|
            && Rewrite(b, base, cur, want) == [Program(base + lo, Slice(want, lo, hi - lo))]
            && TallyOf(Rewrite(b, base, cur, want)) == Tally(0, hi - lo, 0)
            && (Program(base + lo, Slice(want, lo, hi - lo)).Accepted(b) <==>
                  forall e :: e in Rewrite(b, base, cur, want) ==> e.Accepted(b))
  {
    hide TallyOf, Event.Accepted;
    DiffersInside(cur, want);
    var lo, hi := WindowLo(cur, want, b.Align()), WindowHi(cur, want, b.Align());
    var only := Program(base + lo, Slice(want, lo, hi - lo));
    TallyOfOne(only);
    assert only in [only];
  }

  lemma WindowCovers(cur: seq<byte>, want: seq<byte>, align: nat)
    requires |cur| == |want| && align > 0
    ensures CoversDiff(cur, want, WindowLo(cur, want, align), WindowHi(cur, want, align))
  {
  }

  /** Step 1: read the block, which holds `now`, unless the old image says it is unchanged. */
  method ReadAndCompare(t: Target, k: Task, cur: array<byte>, ghost now: seq<byte>, ghost i: nat)
    returns (ok: bool, same: bool)
    requires t.Valid() && OnBlock(t, k, i) && now == Current(t, k, i)
    requires cur != t.flash && !k.rule.Always?
    requires k.size <= cur.Length && k.base < LIMIT32
    modifies t`plan, t`trace, t`haltedAt, cur
    ensures t.Valid() && Logged(t, old(t.trace), old(t.haltedAt))
    ensures t.trace <= old(t.trace) + k.Reads(t.board, now)
    ensures ok ==> t.trace == old(t.trace) + k.Reads(t.board, now)
    ensures ok ==> (same <==> k.Skips(now))
    ensures ok && !same ==> cur[..k.size] == now
    ensures old(t.Healthy()) ==>
              t.Healthy() && (ok <==> (k.ReadsBlock(now) ==> CanRead(t.board, k.base, k.size)))
  {
    ok, same := true, false;
    if k.rule.Told? {
      if k.rule.prior == k.data { return true, true; }
      ok := ReadBlock(t, k.base, k.size, cur, k, i);
    } else {
      ok := ReadBlock(t, k.base, k.size, cur, k, i);
      if !ok { return; }
      assert cur[..k.size] == now;
      same := Slice(cur[..k.size], k.off, |k.data|) == k.data;
    }
  }

  /** Steps 2 and 3 once the desired block is built: nothing, erase and program, or program only. */
  method RewriteChanged(t: Target, sb: nat, ss: nat, want: array<byte>, cur: array<byte>,
                        ghost w: seq<byte>, ghost c: seq<byte>, ghost i: nat)
    returns (ok: bool, erased: nat, written: nat)
    requires t.Valid() && i + 1 < |t.board.cuts| && want != t.flash && cur != t.flash
    requires sb == t.board.cuts[i] && sb + ss == t.board.cuts[i + 1] && ss < LIMIT32
    requires ss <= want.Length && ss <= cur.Length && w == want[..ss] && c == cur[..ss]
    requires c == Block(t.board, t.flash[..], i)
    modifies t`plan, t`trace, t`haltedAt, t.flash
    ensures t.Valid() && Logged(t, old(t.trace), old(t.haltedAt))
    ensures Quiet(old(t.trace), t.trace) ==> t.flash[..] == old(t.flash[..])
    ensures t.trace <= old(t.trace) + Rewrite(t.board, sb, c, w)
    ensures ok ==> t.trace == old(t.trace) + Rewrite(t.board, sb, c, w)
    ensures ok ==> Tally(erased, written, 0) == TallyOf(Rewrite(t.board, sb, c, w))
    ensures erased <= 1 && written <= ss
    ensures SameOutside(t.board, old(t.flash[..]), t.flash[..], sb, sb + ss)
    ensures t.board.Base() <= sb && sb - t.board.Base() + ss <= t.flash.Length
    ensures ok ==> t.flash[..] == Splice(old(t.flash[..]), sb - t.board.Base(), w)
    ensures old(t.Healthy()) ==> t.Healthy()
    ensures old(t.Healthy()) ==>
              (ok <==> forall e :: e in Rewrite(t.board, sb, c, w) ==> e.Accepted(t.board))
  {
    hide Block, Splice, Clears, Rewrite, TallyOf, Event.Accepted, Quiet;
    ghost var b := t.board;
    HullOfBlock(b, i);
    ok, erased, written := true, 0, 0;
    RewriteCases(b, sb, c, w);
    if want[..ss] == cur[..ss] {
      KeepsBlock(b, t.flash[..], i, w);
      return;
    }
    var needErase := NeedErase(want, cur, ss);
    if needErase {
      ok := EraseAndProgram(t, sb, ss, want[..ss], i);
      erased, written := 1, ss;
    } else {
      ok, written := ProgramSpan(t, sb, ss, want, cur, w, c, i);
    }
  }

  lemma RewriteCases(b: Board, base: nat, cur: seq<byte>, want: seq<byte>)
    requires |cur| == |want|
    ensures want == cur ==> Rewrite(b, base, cur, want) == [] && TallyOf([]) == Tally(0, 0, 0)
    ensures want != cur && !Clears(cur, want) ==>
              && Rewrite(b, base, cur, want) == [Erase(base, |cur|), Program(base, want)]
              && TallyOf(Rewrite(b, base, cur, want)) == Tally(1, |want|, 0)
              && (Program(base, want).Accepted(b) <==>
                    forall e :: e in Rewrite(b, base, cur, want) ==> e.Accepted(b))
  {
    hide Clears, TallyOf;
    var first, second := Erase(base, |cur|), Program(base, want);
    TallyOfPair(first, second);
    TallyOfNone();
    assert second in [first, second];
  }

  lemma KeepsBlock(b: Board, f: seq<byte>, i: nat, same: seq<byte>)
    requires b.Valid() && |f| == b.Size() && i + 1 < |b.cuts| && same == Block(b, f, i)
    ensures b.Base() <= b.cuts[i] && b.cuts[i] - b.Base() + |same| <= |f|
    ensures Splice(f, b.cuts[i] - b.Base(), same) == f
  {
    HullOfBlock(b, i);
    SameElements(Splice(f, b.cuts[i] - b.Base(), same), f);
  }

  /** Everything hw_flash_patch does about one block. */
  method PatchBlock(t: Target, k: Task, cur: array<byte>, want: array<byte>, stats: Stats,
                    ghost now: seq<byte>, ghost i: nat)
    returns (ok: bool, stats': Stats)
    requires t.Valid() && OnBlock(t, k, i) && now == Current(t, k, i) && !k.rule.Always?
    requires cur != t.flash && want != t.flash && cur != want
    requires k.size <= cur.Length && k.size <= want.Length && k.base + k.size < LIMIT32
    requires stats.changed + 1 < LIMIT32 && stats.erased + 1 < LIMIT32 && stats.written + k.size < LIMIT32
    modifies t`plan, t`trace, t`haltedAt, t.flash, cur, want
    ensures t.Valid() && Logged(t, old(t.trace), old(t.haltedAt))
    ensures Quiet(old(t.trace), t.trace) ==> t.flash[..] == old(t.flash[..])
    ensures SameOutside(t.board, old(t.flash[..]), t.flash[..], k.base, k.base + k.size)
    ensures t.board.Base() <= k.base && k.base - t.board.Base() + k.size <= t.flash.Length
    ensures t.trace <= old(t.trace) + k.Events(t.board, now)
    ensures ok ==> t.trace == old(t.trace) + k.Events(t.board, now)
    ensures ok ==> t.flash[..] == Splice(old(t.flash[..]), k.base - t.board.Base(), k.Next(now))
    ensures ok ==> stats' == CountBlock(t.board, k, now, stats)
    ensures !ok ==> stats' == stats || stats' == stats.(changed := stats.changed + 1)
    ensures old(t.Healthy()) ==> t.Healthy() && (ok <==> k.Completes(t.board, now))
  {
    hide Block, Splice, Rewrite, Clears, TallyOf, Current, Task.Reads, Task.Want, Quiet;
    ghost var b, f, log := t.board, t.flash[..], t.trace;
    CurrentIsBlock(t, k, i);
    HullOfBlock(b, i);
    assert log + k.Events(b, now) == (log + k.Reads(b, now)) + k.Edits(b, now);
    stats' := stats;
    var same;
    ok, same := ReadAndCompare(t, k, cur, now, i);
    if !ok { return; }
    if same {
      KeepsBlock(b, f, i, now);
      TallyOfNone();
      return;
    }
    stats' := stats'.(changed := U32(stats'.changed + 1));
    BuildWanted(want, cur, k, now);
    assert t.flash[..] == f;
    ghost var read := t.trace;
    var erased, written;
    ok, erased, written := RewriteChanged(t, k.base, k.size, want, cur, k.Want(now), now, i);
    QuietSplits(log, read, t.trace);
    if ok {
      stats' := stats'.(erased := U32(stats'.erased + erased), written := U32(stats'.written + written));
    }
  }

  /** Step 2: the desired block is what is there now, with the new bytes spliced in. */
  method BuildWanted(want: array<byte>, cur: array<byte>, k: Task, ghost now: seq<byte>)
    requires k.Holds(now) && cur != want && k.size <= want.Length && k.size <= cur.Length
    requires cur[..k.size] == now
    modifies want
    ensures want[..k.size] == k.Want(now)
  {
    CopyInto(want, 0, cur[..k.size], k.size);
    assert want[..k.size] == now;
    CopyInto(want, k.off, k.data, k.size);
  }

  // ----- The walk -----

  /** No counter can wrap while a block is left to walk. */
  lemma CountersFit(b: Board, j: Job, f: seq<byte>, i: nat)
    requires b.Valid() && j.Fits(b) && |f| == b.Size() && j.mode.Patch?
    requires First(b, j) <= i <= Last(b, j)
    ensures var s := StatsAt(b, j, f, i);
            && s.total + 1 < LIMIT32 && s.changed + 1 < LIMIT32 && s.erased + 1 < LIMIT32
            && s.written + BlockSize(b, i) < LIMIT32
  {
    hide StatsAt;
    StatsBounded(b, j, f, i);
    HullOfBlock(b, i);
    HullOfBlock(b, First(b, j));
    assert i > First(b, j) ==> b.Before(First(b, j), i);
  }

  /** The overlap of a sector with the region, as the loop computes it. */
  function SectorTask(addr: nat, prior: Option<seq<byte>>, image: seq<byte>, sb: nat, ss: nat): Task
    requires sb < addr + |image| < LIMIT32 && addr < sb + ss < LIMIT32
    requires prior.Some? ==> |prior.value| == |image|
  {
    var end := U32(addr + U32(|image|));
    var sectEnd := U32(sb + ss);
    var ovStart := if sb < addr then addr else sb;
    var ovEnd := if sectEnd < end then sectEnd else end;
    var rule := if prior.None? then Compare else Told(Slice(prior.value, ovStart - addr, ovEnd - ovStart));
    Task(sb, ss, ovStart - sb, Slice(image, ovStart - addr, ovEnd - ovStart), rule)
  }

  lemma SectorTaskIsTaskOf(b: Board, j: Job, i: nat)
    requires b.Valid() && j.Fits(b) && Meets(b, j, i) && j.mode.Patch?
    requires j.End() < LIMIT32 && b.cuts[i + 1] < LIMIT32
    ensures b.cuts[i] < b.cuts[i + 1]
    ensures SectorTask(j.addr, j.mode.prior, j.image, b.cuts[i], b.cuts[i + 1] - b.cuts[i]) == TaskOf(b, j, i)
  {
    HullOfBlock(b, i);
  }

  /** The counters of a run that gave up in block i: what is complete before the block, and of the
      block itself at most that it was reached and found to differ. */
  ghost predicate CountedUpTo(b: Board, j: Job, f: seq<byte>, i: nat, stats: Stats)
    requires b.Valid() && j.Fits(b) && |f| == b.Size()
  {
    && First(b, j) <= i <= Last(b, j)
    && var s := StatsAt(b, j, f, i);
       || stats == s
       || stats == s.(total := s.total + 1)
       || stats == s.(total := s.total + 1, changed := s.changed + 1)
  }

  /** One turn of the walk of hw_flash_patch, from the sector bounds on. */
  method PatchSector(t: Target, addr: nat, prior: Option<seq<byte>>, image: seq<byte>, sb: nat, ss: nat,
                     cur: array<byte>, want: array<byte>, stats: Stats,
                     ghost j: Job, ghost s: Start, ghost i: nat)
    returns (ok: bool, stats': Stats)
    requires t.Valid() && cur != t.flash && want != t.flash && cur != want
    requires j == Job(addr, image, Patch(prior)) && j.Fits(t.board) && j.End() < LIMIT32
    requires |s.f| == t.board.Size() && WalkAt(t.board, j, s, i, t.flash[..], t.trace)
    requires i <= Last(t.board, j)
    requires sb == t.board.cuts[i] && sb + ss == t.board.cuts[i + 1] < LIMIT32
    requires ss <= cur.Length && ss <= want.Length
    requires stats == StatsAt(t.board, j, s.f, i)
    modifies t`plan, t`trace, t`haltedAt, t.flash, cur, want
    ensures t.Valid() && Logged(t, old(t.trace), old(t.haltedAt))
    ensures Quiet(old(t.trace), t.trace) ==> t.flash[..] == old(t.flash[..])
    ensures ok ==> WalkAt(t.board, j, s, i + 1, t.flash[..], t.trace)
    ensures ok ==> stats' == StatsAt(t.board, j, s.f, i + 1)
    ensures !ok ==> CountedUpTo(t.board, j, s.f, i, stats')
    ensures !ok ==> RunOutcome(t.board, j, s, t.flash[..], t.trace, false, i)
    ensures old(t.Healthy()) ==> t.Healthy() && (ok <==> BlockCompletes(t.board, j, s.f, i))
  {
    hide Contents, WalkEvents, RunOutcome, TaskOf, Task.Events, Task.Next, Task.Completes,
      Block, Splice, Current, StatsAt, CountBlock, SectorTask, Quiet;
    ghost var b := t.board;
    WalkStep(b, j, s.f, i);
    TaskShape(b, j, i);
    StatsStep(b, j, s.f, i);
    CountersFit(b, j, s.f, i);
    SectorTaskIsTaskOf(b, j, i);
    ghost var g, log, now := t.flash[..], t.trace, Block(b, s.f, i);
    var k := SectorTask(addr, prior, image, sb, ss);
    CurrentIsBlock(t, k, i);
    stats' := stats.(total := U32(stats.total + 1));
    ok, stats' := PatchBlock(t, k, cur, want, stats', now, i);
    if ok {
      Advance(b, j, s, i, g, log, t.flash[..], t.trace);
    } else {
      Fails(b, j, s, i, g, log, t.flash[..], t.trace);
    }
  }

  /** One turn of the walk of hw_flash_patch. */
  method PatchTurn(t: Target, addr: nat, prior: Option<seq<byte>>, image: seq<byte>, pos: nat,
                   cur: array<byte>, want: array<byte>, stats: Stats,
                   ghost j: Job, ghost s: Start, ghost i: nat)
    returns (ok: bool, next: nat, cur': array<byte>, want': array<byte>, stats': Stats)
    requires t.Valid() && Runnable(t.board)
    requires cur != t.flash && want != t.flash && cur != want && cur.Length == want.Length
    requires j == Job(addr, image, Patch(prior)) && j.Fits(t.board) && j.End() < LIMIT32
    requires |s.f| == t.board.Size() && WalkAt(t.board, j, s, i, t.flash[..], t.trace)
    requires i <= Last(t.board, j) && pos == PosAt(t.board, j, i) < LIMIT32
    requires stats == StatsAt(t.board, j, s.f, i)
    modifies t`plan, t`trace, t`haltedAt, t.flash, cur, want
    ensures cur' != want' && cur'.Length == want'.Length
    ensures (cur' == cur && want' == want) || (fresh(cur') && fresh(want'))
    ensures t.Valid() && Logged(t, old(t.trace), old(t.haltedAt))
    ensures Quiet(old(t.trace), t.trace) ==> t.flash[..] == old(t.flash[..])
    ensures ok ==> WalkAt(t.board, j, s, i + 1, t.flash[..], t.trace)
    ensures ok ==> pos < next == PosAt(t.board, j, i + 1) < LIMIT32
    ensures ok ==> stats' == StatsAt(t.board, j, s.f, i + 1)
    ensures !ok ==> CountedUpTo(t.board, j, s.f, i, stats')
    ensures !ok ==> RunOutcome(t.board, j, s, t.flash[..], t.trace, false, i)
    ensures old(t.Healthy()) ==> t.Healthy() && (ok <==> BlockCompletes(t.board, j, s.f, i))
  {
    hide Contents, WalkEvents, RunOutcome, TaskOf, Task.Events, Task.Next, Task.Completes,
      Block, Splice, StatsAt, Quiet;
    ghost var b := t.board;
    PosInBlock(b, j, i);
    HullOfBlock(b, i);
    StopsHere(b, j, s, i, t.flash[..], t.trace);
    ok, next, cur', want', stats' := false, pos, cur, want, stats;
    var found, sb, ss := HwFlashSector(t, pos);
    if !found || ss == 0 || U32(sb + ss) <= pos { return; }
    if ss > cur'.Length {
      var roomA, a := t.Allocate(ss);
      if !roomA { return; }
      var roomB, b' := t.Allocate(ss);
      if !roomB { return; }
      cur', want' := a, b';
    }
    ok, stats' := PatchSector(t, addr, prior, image, sb, ss, cur', want', stats', j, s, i);
    next := U32(sb + ss);
  }

  /** hw_flash_patch. `stats` is what `stats_out` receives. */
  method HwFlashPatch(t: Target, addr: nat, prior: Option<seq<byte>>, image: seq<byte>)
    returns (ok: bool, stats: Stats, ghost stuck: nat)
    requires t.Valid() && addr < LIMIT32
    requires prior.Some? ==> |prior.value| == |image|
    modifies t, t.flash
    ensures t.Valid() && Logged(t, old(t.trace), old(t.haltedAt))
    ensures Quiet(old(t.trace), t.trace) ==> t.flash[..] == old(t.flash[..])
    ensures ok && image != [] ==>
              && t.board.ops.flashErase && t.board.ops.flashWrite && t.board.ops.flashInfo
              && t.board.pageSize > 0 && t.board.Base() <= addr && addr + |image| <= t.board.Limit()
    ensures old(t.halted) ==> t.halted
    ensures !t.board.ops.boardHalt ==> t.halted == old(t.halted)
    ensures t.board.ops.boardHalt && ((ok && image != []) || t.trace != old(t.trace)) ==> t.halted
    ensures !Job(addr, image, Patch(prior)).Fits(t.board) ==>
              && t.trace == old(t.trace) && t.flash[..] == old(t.flash[..]) && (ok <==> image == [])
              && stats == Stats(0, 0, 0, 0)
    ensures Job(addr, image, Patch(prior)).Fits(t.board) ==>
              RunOutcome(t.board, Job(addr, image, Patch(prior)), Start(old(t.flash[..]), old(t.trace)),
                         t.flash[..], t.trace, ok, stuck)
    ensures ok && Job(addr, image, Patch(prior)).Fits(t.board) ==>
              var j := Job(addr, image, Patch(prior));
              stats == StatsAt(t.board, j, old(t.flash[..]), Stop(t.board, j))
    ensures !ok && Job(addr, image, Patch(prior)).Fits(t.board) ==>
              var j := Job(addr, image, Patch(prior));
              || CountedUpTo(t.board, j, old(t.flash[..]), stuck, stats)
              || stats == StatsAt(t.board, j, old(t.flash[..]), Stop(t.board, j))
    ensures Job(addr, image, Patch(prior)).Fits(t.board) && old(t.Healthy()) ==>
              (ok <==> Succeeds(t.board, Job(addr, image, Patch(prior)), old(t.flash[..])))
  {
    hide Contents, WalkEvents, RunOutcome, BlockCompletes, StatsAt, Quiet, WalkAt;
    ghost var b, j, s := t.board, Job(addr, image, Patch(prior)), Start(t.flash[..], t.trace);
    ok, stuck, stats := false, if j.Fits(b) then First(b, j) else 0, Stats(0, 0, 0, 0);
    if j.Fits(b) {
      NeverStarted(b, j, s);
      StatsStart(b, j, s.f);
    }
    if |image| == 0 { return true, stats, stuck; }
    var ready := BeginProgramming(t, addr, |image|);
    if !ready { return; }

    var end := U32(addr + U32(|image|));
    var cur, want := new byte[0], new byte[0];
    var pos := addr;
    WalkBegins(b, j, s);
    StatsStart(b, j, s.f);
    ghost var i: nat := First(b, j);
    while pos < end
      invariant t.Valid() && WalkAt(b, j, s, i, t.flash[..], t.trace)
      invariant Quiet(s.log, t.trace) ==> t.flash[..] == s.f
      invariant First(b, j) <= i <= Last(b, j) + 1
      invariant pos == PosAt(b, j, i) < LIMIT32
      invariant Logged(t, s.log, old(t.haltedAt))
      invariant fresh(cur) && fresh(want) && cur != want && cur.Length == want.Length
      invariant i > First(b, j) ==> end == j.End()
      invariant t.halted == (old(t.halted) || b.ops.boardHalt)
      invariant stats == StatsAt(b, j, s.f, i)
      invariant old(t.Healthy()) ==> t.Healthy() && WalkCompletes(b, j, s.f, i)
      decreases LIMIT32 - pos
    {
      PosInBlock(b, j, i);
      stuck := i;
      ghost var log := t.trace;
      var done;
      done, pos, cur, want, stats := PatchTurn(t, addr, prior, image, pos, cur, want, stats, j, s, i);
      QuietSplits(s.log, log, t.trace);
      if !done { return; }
      i := i + 1;
    }
    PosInBlock(b, j, i);
    stuck := Resting(b, j);
    ghost var log := t.trace;
    ok := VerifyRun(t, addr, image, j, s);
    QuietSplits(s.log, log, t.trace);
  }
}
