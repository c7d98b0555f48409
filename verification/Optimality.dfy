/** The access log of a run replayed on a NOR flash, and what no other run could do cheaper. */
module Optimality {
  import opened Words
  import opened Nor
  import opened FlashSpec
  import opened Walk
  import opened Accounting
  import opened FlashCore
  import opened FlashPatch
  import opened FlashResults

  // ----- Replaying the log -----

  ghost predicate ReadsOnly(es: seq<Event>) {
    forall e :: e in es ==> e.Read? || e.Load?
  }

  lemma {:induction false} ReadsChangeNothing(b: Board, f: seq<byte>, es: seq<Event>)
    requires b.Valid() && |f| == b.Size() && ReadsOnly(es)
    ensures AllInRange(b, es) && Replay(b, f, es) == f
    decreases |es|
  {
    if es == [] {
    } else {
      assert es[|es| - 1] in es;
      ReadsChangeNothing(b, f, es[..|es| - 1]);
    }
  }

  lemma {:induction false} LoadsAreReads(b: Board, addr: nat, len: nat)
    ensures ReadsOnly(Loads(b, addr, len))
    decreases len
  {
    if len == 0 {
    } else {
      var width := if addr % 4 == 0 && len >= 4 && b.ops.read32 then 4 else 1;
      LoadsAreReads(b, addr + width, len - width);
    }
  }

  lemma TwoEventReplay(b: Board, f: seq<byte>, e: Event, e': Event)
    requires b.Valid() && |f| == b.Size() && e.InRange(b) && e'.InRange(b)
    ensures AllInRange(b, [e, e']) && Replay(b, f, [e, e']) == Apply(b, Apply(b, f, e), e')
  {
    hide Replay, Apply, Event.InRange;
    OneEventReplay(b, f, e);
    OneEventReplay(b, Apply(b, f, e), e');
    ReplayConcat(b, f, [e], [e']);
    assert [e] + [e'] == [e, e'];
  }

  /** The edits of a block, carried out on a NOR flash, leave the block as wanted. */
  lemma EditsReplay(b: Board, g: seq<byte>, i: nat, k: Task)
    requires b.Valid() && |g| == b.Size() && i + 1 < |b.cuts|
    requires k.base == b.cuts[i] && k.size == BlockSize(b, i) && k.Valid()
    ensures var cur := Block(b, g, i);
            && AllInRange(b, k.Edits(b, cur))
            && b.Base() <= k.base && k.base - b.Base() + k.size <= |g|
            && Replay(b, g, k.Edits(b, cur)) == Splice(g, k.base - b.Base(), k.Next(cur))
  {
    hide Replay, Splice, Rewrite, Block, Task.Want;
    HullOfBlock(b, i);
    var cur := Block(b, g, i);
    var want := k.Want(cur);
    EraseAndProgramReplay(b, g, i, want);
    KeepsBlock(b, g, i, cur);
    ReadsChangeNothing(b, g, []);
    RewriteReplay(b, g, i, want);
  }

  lemma EraseAndProgramReplay(b: Board, g: seq<byte>, i: nat, want: seq<byte>)
    requires b.Valid() && |g| == b.Size() && i + 1 < |b.cuts| && |want| == BlockSize(b, i)
    ensures b.Base() <= b.cuts[i] && b.cuts[i] - b.Base() + |want| <= |g|
    ensures var es := [Erase(b.cuts[i], |want|), Program(b.cuts[i], want)];
            AllInRange(b, es) && Replay(b, g, es) == Splice(g, b.cuts[i] - b.Base(), want)
  {
    hide Replay, Programmed, Wiped, Splice;
    HullOfBlock(b, i);
    RewriteBlock(b, g, i, want);
    TwoEventReplay(b, g, Erase(b.cuts[i], |want|), Program(b.cuts[i], want));
  }

  lemma RewriteReplay(b: Board, g: seq<byte>, i: nat, want: seq<byte>)
    requires b.Valid() && |g| == b.Size() && i + 1 < |b.cuts| && |want| == BlockSize(b, i)
    ensures b.Base() <= b.cuts[i] && b.cuts[i] - b.Base() + |want| <= |g|
    ensures var es := Rewrite(b, b.cuts[i], Block(b, g, i), want);
            AllInRange(b, es) && Replay(b, g, es) == Splice(g, b.cuts[i] - b.Base(), want)
  {
    hide Replay, Programmed, WindowLo, WindowHi, Splice, Clears, Block, TallyOf, Rewrite, CoversDiff, Event.InRange;
    HullOfBlock(b, i);
    var cur := Block(b, g, i);
    RewriteCases(b, b.cuts[i], cur, want);
    if want == cur {
      KeepsBlock(b, g, i, cur);
      ReadsChangeNothing(b, g, []);
    } else if Clears(cur, want) {
      RewriteByClearing(b, b.cuts[i], cur, want);
      WindowCovers(cur, want, b.Align());
      var lo, hi := WindowLo(cur, want, b.Align()), WindowHi(cur, want, b.Align());
      SpanSuffices(b, g, i, want, lo, hi);
      SpanReplay(b, g, b.cuts[i] + lo, Slice(want, lo, hi - lo));
    } else {
      EraseAndProgramReplay(b, g, i, want);
    }
  }

  lemma SpanReplay(b: Board, g: seq<byte>, addr: nat, data: seq<byte>)
    requires b.Valid() && |g| == b.Size() && b.InFlash(addr, |data|)
    ensures AllInRange(b, [Program(addr, data)])
    ensures Replay(b, g, [Program(addr, data)]) == Programmed(b, g, addr, data)
  {
    hide Replay, Programmed;
    OneEventReplay(b, g, Program(addr, data));
  }

  lemma BlockReplay(b: Board, g: seq<byte>, i: nat, k: Task)
    requires b.Valid() && |g| == b.Size() && i + 1 < |b.cuts|
    requires k.base == b.cuts[i] && k.size == BlockSize(b, i) && k.Valid()
    ensures var cur := Block(b, g, i);
            && AllInRange(b, k.Events(b, cur))
            && b.Base() <= k.base && k.base - b.Base() + k.size <= |g|
            && Replay(b, g, k.Events(b, cur)) == Splice(g, k.base - b.Base(), k.Next(cur))
  {
    hide Replay, Task.Edits, Task.Next, Splice, Loads, Task.ReadsBlock;
    var cur := Block(b, g, i);
    LoadsAreReads(b, k.base, k.size);
    EditsReplay(b, g, i, k);
    ReadsChangeNothing(b, g, k.Reads(b, cur));
    ReplayConcat(b, g, k.Reads(b, cur), k.Edits(b, cur));
  }

  /** The log of the walk, replayed from the initial contents, gives the contents it reached. */
  lemma {:induction false} LogReplaysToContents(b: Board, j: Job, f: seq<byte>, i: nat)
    requires b.Valid() && j.Fits(b) && |f| == b.Size() && First(b, j) <= i <= Last(b, j) + 1
    ensures AllInRange(b, WalkEvents(b, j, f, i))
    ensures Replay(b, f, WalkEvents(b, j, f, i)) == Contents(b, j, f, i)
    decreases i
  {
    hide Contents, WalkEvents, TaskOf, Task.Events, Task.Next, Block, Splice, Replay;
    if i == First(b, j) {
      WalkStart(b, j, f, i);
      ReadsChangeNothing(b, f, []);
    } else {
      LogReplaysToContents(b, j, f, i - 1);
      WalkStep(b, j, f, i - 1);
      TaskShape(b, j, i - 1);
      var g, k := Contents(b, j, f, i - 1), TaskOf(b, j, i - 1);
      BlockReplay(b, g, i - 1, k);
      ReplayConcat(b, f, WalkEvents(b, j, f, i - 1), k.Events(b, Block(b, f, i - 1)));
    }
  }

  // ----- Erases -----

  /** The run erases block n. */
  ghost predicate ErasesBlock(b: Board, es: seq<Event>, n: nat)
    requires b.Valid() && AllInRange(b, es) && n + 1 < |b.cuts|
  {
    HullOfBlock(b, n);
    exists k :: 0 <= k < |es| && ErasesAt(b, es[k], b.cuts[n])
  }

  /** An erase wipes whole blocks: it reaches every address of a block or none. */
  lemma ErasesWholeBlocks(b: Board, e: Event, n: nat, addr: nat)
    requires b.Valid() && e.InRange(b) && n + 1 < |b.cuts|
    requires b.cuts[n] <= addr < b.cuts[n + 1]
    ensures b.Base() <= addr < b.Limit()
    ensures ErasesAt(b, e, addr) <==> ErasesAt(b, e, b.cuts[n])
  {
    HullOfBlock(b, n);
    if e.Erase? {
      var p, q := b.Index(e.addr), b.Index(e.addr + e.len - 1);
      assert p < n ==> b.Before(p, n);
      assert n < p ==> b.Before(n, p);
      assert n + 1 < p ==> b.Before(n + 1, p);
      assert n < q + 1 ==> b.Before(n, q + 1);
      assert n + 1 < q + 1 ==> b.Before(n + 1, q + 1);
      assert q + 1 < n ==> b.Before(q + 1, n);
    }
  }

  /** If a run ends with a bit set that block n did not have, it erased block n. */
  lemma RaisedBitNeedsErase(b: Board, f: seq<byte>, es: seq<Event>, n: nat)
    requires b.Valid() && |f| == b.Size() && AllInRange(b, es) && n + 1 < |b.cuts|
    requires !Clears(Block(b, f, n), Block(b, Replay(b, f, es), n))
    ensures ErasesBlock(b, es, n)
  {
    hide Replay;
    HullOfBlock(b, n);
    var at := b.cuts[n] - b.Base();
    var was, now := Block(b, f, n), Block(b, Replay(b, f, es), n);
    var x :| 0 <= x < |now| && !Subset(now[x], was[x]);
    if !ErasesBlock(b, es, n) {
      forall k | 0 <= k < |es| ensures !ErasesAt(b, es[k], b.cuts[n] + x) {
        ErasesWholeBlocks(b, es[k], n, b.cuts[n] + x);
      }
      BitsOnlyClear(b, f, es, b.cuts[n] + x);
      assert false;
    }
  }

  /** Block n has to gain a bit to reach the goal. */
  ghost predicate NeedsErase(b: Board, j: Job, f: seq<byte>, n: nat)
    requires b.Valid() && j.Fits(b) && |f| == b.Size() && n + 1 < |b.cuts|
  {
    !Clears(Block(b, f, n), Block(b, Goal(b, j, f), n))
  }

  ghost function ErasedBlocks(b: Board, es: seq<Event>): set<nat>
    requires b.Valid() && AllInRange(b, es)
  {
    set n: nat | n < |b.cuts| - 1 && ErasesBlock(b, es, n)
  }

  ghost function MustErase(b: Board, j: Job, f: seq<byte>, i: nat): set<nat>
    requires b.Valid() && j.Fits(b) && |f| == b.Size() && i < |b.cuts|
  {
    set n: nat | First(b, j) <= n < i && NeedsErase(b, j, f, n)
  }

  lemma ClearsItself(s: seq<byte>)
    ensures Clears(s, s)
  {
    forall k | 0 <= k < |s| ensures Subset(s[k], s[k]) {
      SubsetOfItself(s[k]);
    }
  }

  /** With no or a true old image a patch erases a block exactly when it has to gain a bit. */
  lemma BlockErasedIff(b: Board, j: Job, f: seq<byte>, n: nat)
    requires b.Valid() && |f| == b.Size() && Honest(b, j, f) && j.mode.Patch?
    requires First(b, j) <= n <= Last(b, j)
    ensures Meets(b, j, n)
    ensures var es := TaskOf(b, j, n).Edits(b, Block(b, f, n));
            && TallyOf(es).erases == (if NeedsErase(b, j, f, n) then 1 else 0)
            && forall e :: e in es && e.Erase? ==>
                 NeedsErase(b, j, f, n) && e == Erase(b.cuts[n], BlockSize(b, n))
  {
    hide TaskOf, Clears, Task.Want, WindowLo, WindowHi, TallyOf, Block, Splice, Slice, Goal, Rewrite,
      Board.Index;
    WantIsGoal(b, j, f, n);
    TaskShape(b, j, n);
    var k, cur := TaskOf(b, j, n), Block(b, f, n);
    var want := k.Want(cur);
    ClearsItself(cur);
    TallyOfNone();
    TallyOfPair(Erase(k.base, k.size), Program(k.base, want));
    RewriteCases(b, k.base, cur, want);
    if k.Skips(cur) {
      HonestIsNotMisled(b, j, f, n);
    } else if want != cur && Clears(cur, want) {
      RewriteByClearing(b, k.base, cur, want);
    }
  }

  /** Every event of the walk belongs to some block's turn. */
  lemma {:induction false} WalkMember(b: Board, j: Job, f: seq<byte>, i: nat, e: Event) returns (n: nat)
    requires b.Valid() && j.Fits(b) && |f| == b.Size() && First(b, j) <= i <= Last(b, j) + 1
    requires e in WalkEvents(b, j, f, i)
    ensures First(b, j) <= n < i && Meets(b, j, n)
    ensures e in TaskOf(b, j, n).Events(b, Block(b, f, n))
    decreases i
  {
    hide WalkEvents, TaskOf, Task.Events, Block;
    if i == First(b, j) {
      WalkStart(b, j, f, i);
      n := i;
    } else {
      EventsStep(b, j, f, i - 1);
      if e in TaskOf(b, j, i - 1).Events(b, Block(b, f, i - 1)) {
        n := i - 1;
      } else {
        n := WalkMember(b, j, f, i - 1, e);
      }
    }
  }

  lemma ErasedStep(b: Board, j: Job, f: seq<byte>, i: nat)
    requires b.Valid() && |f| == b.Size() && Honest(b, j, f) && j.mode.Patch?
    requires First(b, j) <= i <= Last(b, j)
    ensures StatsAt(b, j, f, i + 1).erased == StatsAt(b, j, f, i).erased + if NeedsErase(b, j, f, i) then 1 else 0
  {
    hide StatsAt, TaskOf, Block, NeedsErase, Task.Edits, TallyOf, Weight, Tally.Plus;
    StatsStep(b, j, f, i);
    BlockErasedIff(b, j, f, i);
  }

  lemma MustEraseGrows(b: Board, j: Job, f: seq<byte>, i: nat)
    requires b.Valid() && j.Fits(b) && |f| == b.Size() && First(b, j) <= i && i + 1 < |b.cuts|
    ensures |MustErase(b, j, f, i + 1)| == |MustErase(b, j, f, i)| + if NeedsErase(b, j, f, i) then 1 else 0
  {
    hide NeedsErase, First, Board.Valid, Job.Fits;
    var before := MustErase(b, j, f, i);
    if NeedsErase(b, j, f, i) {
      assert MustErase(b, j, f, i + 1) == before + {i};
    } else {
      assert MustErase(b, j, f, i + 1) == before;
    }
  }

  /** The number of blocks a patch erases is the number that have to gain a bit. */
  lemma {:induction false} ErasedCount(b: Board, j: Job, f: seq<byte>, i: nat)
    requires b.Valid() && |f| == b.Size() && Honest(b, j, f) && j.mode.Patch?
    requires First(b, j) <= i <= Last(b, j) + 1
    ensures StatsAt(b, j, f, i).erased == |MustErase(b, j, f, i)|
    decreases i
  {
    hide StatsAt, NeedsErase, First, Last, Board.Index;
    if i == First(b, j) {
      StatsStart(b, j, f);
      assert MustErase(b, j, f, i) == {};
    } else {
      ErasedCount(b, j, f, i - 1);
      ErasedStep(b, j, f, i - 1);
      MustEraseGrows(b, j, f, i - 1);
    }
  }

  /** The blocks a patch erases, seen from its log. */
  lemma ErasedBlocksAre(b: Board, j: Job, f: seq<byte>)
    requires b.Valid() && |f| == b.Size() && Honest(b, j, f) && j.mode.Patch?
    ensures var es := WalkEvents(b, j, f, Last(b, j) + 1);
            AllInRange(b, es) && ErasedBlocks(b, es) == MustErase(b, j, f, Last(b, j) + 1)
  {
    hide WalkEvents, Replay, NeedsErase, Contents, ErasesBlock;
    var m := Last(b, j) + 1;
    var es := WalkEvents(b, j, f, m);
    LogReplaysToContents(b, j, f, m);
    HonestReachesGoal(b, j, f);
    forall n: nat | n < |b.cuts| - 1
      ensures ErasesBlock(b, es, n) <==> First(b, j) <= n < m && NeedsErase(b, j, f, n)
    {
      if First(b, j) <= n < m && NeedsErase(b, j, f, n) {
        assert !Clears(Block(b, f, n), Block(b, Replay(b, f, es), n)) by { NeedsEraseMeans(b, j, f, n); }
        RaisedBitNeedsErase(b, f, es, n);
      }
      if ErasesBlock(b, es, n) {
        ErasedInWalk(b, j, f, n);
      }
    }
  }

  lemma NeedsEraseMeans(b: Board, j: Job, f: seq<byte>, n: nat)
    requires b.Valid() && j.Fits(b) && |f| == b.Size() && n + 1 < |b.cuts|
    ensures NeedsErase(b, j, f, n) <==> !Clears(Block(b, f, n), Block(b, Goal(b, j, f), n))
  {
  }

  /** The only erase among the accesses of a block is of that block, and only when it is needed. */
  lemma EraseOfBlock(b: Board, j: Job, f: seq<byte>, m: nat, e: Event)
    requires b.Valid() && |f| == b.Size() && Honest(b, j, f) && j.mode.Patch?
    requires Meets(b, j, m) && e in TaskOf(b, j, m).Events(b, Block(b, f, m)) && e.Erase?
    ensures NeedsErase(b, j, f, m) && e == Erase(b.cuts[m], BlockSize(b, m))
  {
    hide TallyOf, Weight, Tally.Plus, TaskOf, Task.Edits, Task.ReadsBlock, NeedsErase, Loads, Block;
    MeetsIsBetween(b, j, m);
    var k := TaskOf(b, j, m);
    LoadsAreReads(b, k.base, k.size);
    BlockErasedIff(b, j, f, m);
  }

  lemma ErasedInWalk(b: Board, j: Job, f: seq<byte>, n: nat)
    requires b.Valid() && |f| == b.Size() && Honest(b, j, f) && j.mode.Patch?
    requires n + 1 < |b.cuts| && AllInRange(b, WalkEvents(b, j, f, Last(b, j) + 1))
    requires ErasesBlock(b, WalkEvents(b, j, f, Last(b, j) + 1), n)
    ensures First(b, j) <= n <= Last(b, j) && NeedsErase(b, j, f, n)
  {
    hide WalkEvents, TaskOf, Task.Events, NeedsErase, Block, Board.HullLo, Board.HullHi;
    HullOfBlock(b, n);
    var es := WalkEvents(b, j, f, Last(b, j) + 1);
    var x :| 0 <= x < |es| && ErasesAt(b, es[x], b.cuts[n]);
    var m := WalkMember(b, j, f, Last(b, j) + 1, es[x]);
    EraseOfBlock(b, j, f, m, es[x]);
    HullOfBlock(b, m);
    assert m + 1 < n ==> b.Before(m + 1, n);
    assert n < m ==> b.Before(n, m);
  }

  lemma HonestReachesGoal(b: Board, j: Job, f: seq<byte>)
    requires b.Valid() && |f| == b.Size() && Honest(b, j, f)
    ensures Contents(b, j, f, Last(b, j) + 1) == Goal(b, j, f)
  {
    hide Contents, NotMisled;
    forall n | First(b, j) <= n <= Last(b, j) ensures NotMisled(b, j, f, n) {
      HonestIsNotMisled(b, j, f, n);
    }
    ReachesGoalIff(b, j, f);
  }

  /**
    Erase-optimality: the blocks a patch with no or a true old image erases are erased by every
    run of programs and erases that ends in the same contents, so no such run erases fewer.
   */
  lemma PatchErasesLeast(b: Board, j: Job, f: seq<byte>, other: seq<Event>)
    requires b.Valid() && |f| == b.Size() && Honest(b, j, f) && j.mode.Patch?
    requires AllInRange(b, other) && Replay(b, f, other) == Goal(b, j, f)
    ensures var walk := WalkEvents(b, j, f, Last(b, j) + 1);
            && AllInRange(b, walk)
            && Replay(b, f, walk) == Goal(b, j, f)
            && ErasedBlocks(b, walk) <= ErasedBlocks(b, other)
            && StatsAt(b, j, f, Last(b, j) + 1).erased == |ErasedBlocks(b, walk)| <= |ErasedBlocks(b, other)|
  {
    hide Replay, WalkEvents, Contents, StatsAt, NeedsErase, ErasesBlock;
    var m := Last(b, j) + 1;
    LogReplaysToContents(b, j, f, m);
    HonestReachesGoal(b, j, f);
    ErasedBlocksAre(b, j, f);
    ErasedCount(b, j, f, m);
    forall n | n in MustErase(b, j, f, m) ensures n in ErasedBlocks(b, other) {
      NeedsEraseMeans(b, j, f, n);
      RaisedBitNeedsErase(b, f, other, n);
    }
    SubsetSize(ErasedBlocks(b, WalkEvents(b, j, f, m)), ErasedBlocks(b, other));
  }

  lemma SubsetSize<T>(s: set<T>, t: set<T>)
    requires s <= t
    ensures |s| <= |t|
  {
    assert t == s + (t - s);
  }
}
