/** What the composite flash operations guarantee over whole runs. */
module FlashResults {
  import opened Words
  import opened Arith
  import opened Nor
  import opened FlashSpec
  import opened Walk
  import opened FlashPatch

  // ----- The region ends up holding the image -----

  /** The old image handed to a patch, if any, is what the flash holds. */
  ghost predicate Honest(b: Board, j: Job, f: seq<byte>)
    requires b.Valid() && |f| == b.Size()
  {
    && j.Fits(b)
    && (j.mode.Patch? && j.mode.prior.Some? ==>
          var at := j.addr - b.Base(); j.mode.prior.value == Slice(f, at, |j.image|))
  }

  /** The flash with the image written over the region. */
  ghost function Goal(b: Board, j: Job, f: seq<byte>): (g: seq<byte>)
    requires b.Valid() && j.Fits(b) && |f| == b.Size()
    ensures |g| == |f|
  {
    Splice(f, j.addr - b.Base(), j.image)
  }

  /** The old image does not make the walk leave out a block that still needs work. */
  ghost predicate NotMisled(b: Board, j: Job, f: seq<byte>, n: nat)
    requires b.Valid() && j.Fits(b) && |f| == b.Size() && First(b, j) <= n <= Last(b, j)
  {
    MeetsIsBetween(b, j, n);
    TaskOf(b, j, n).Skips(Block(b, f, n)) ==> TaskOf(b, j, n).Want(Block(b, f, n)) == Block(b, f, n)
  }

  /** A block holds its wanted bytes exactly when it agrees with the goal. */
  lemma WantIsGoal(b: Board, j: Job, f: seq<byte>, n: nat)
    requires b.Valid() && j.Fits(b) && |f| == b.Size() && First(b, j) <= n <= Last(b, j)
    ensures Meets(b, j, n)
    ensures TaskOf(b, j, n).Want(Block(b, f, n)) == Block(b, Goal(b, j, f), n)
  {
    hide TaskOf;
    MeetsIsBetween(b, j, n);
    TaskShape(b, j, n);
    HullOfBlock(b, n);
    SameElements(TaskOf(b, j, n).Want(Block(b, f, n)), Block(b, Goal(b, j, f), n));
  }

  /** Without outside knowledge, or with true knowledge, no block is left out wrongly. */
  lemma HonestIsNotMisled(b: Board, j: Job, f: seq<byte>, n: nat)
    requires b.Valid() && |f| == b.Size() && Honest(b, j, f) && First(b, j) <= n <= Last(b, j)
    ensures NotMisled(b, j, f, n)
  {
    hide TaskOf;
    MeetsIsBetween(b, j, n);
    TaskShape(b, j, n);
    HullOfBlock(b, n);
    var k, cur := TaskOf(b, j, n), Block(b, f, n);
    if k.Skips(cur) {
      SkipsIffHeld(b, j, f, n);
      SameElements(k.Want(cur), cur);
    }
  }

  /** A true old image, cut to a block, is what the block holds there. */
  lemma PriorIsHeld(b: Board, j: Job, f: seq<byte>, n: nat)
    requires b.Valid() && |f| == b.Size() && Honest(b, j, f) && Meets(b, j, n)
    ensures var k := TaskOf(b, j, n);
            k.rule.Told? ==> k.rule.prior == Slice(Block(b, f, n), k.off, |k.data|)
  {
    hide TaskOf;
    TaskShape(b, j, n);
    HullOfBlock(b, n);
    var k := TaskOf(b, j, n);
    if k.rule.Told? {
      SliceOfSlices(f, j.addr - b.Base(), |j.image|, b.cuts[n] + k.off - j.addr,
                    b.cuts[n] - b.Base(), BlockSize(b, n), k.off, |k.data|);
    }
  }

  /** Two slices of two slices that come to the same positions. */
  lemma SliceOfSlices<T>(s: seq<T>, p: nat, m: nat, x: nat, q: nat, n: nat, y: nat, len: nat)
    requires p + m <= |s| && q + n <= |s| && x + len <= m && y + len <= n && p + x == q + y
    ensures Slice(Slice(s, p, m), x, len) == Slice(Slice(s, q, n), y, len)
  {
    SameElements(Slice(Slice(s, p, m), x, len), Slice(Slice(s, q, n), y, len));
  }

  /** An honest patch skips a block exactly when it holds the data already. */
  lemma SkipsIffHeld(b: Board, j: Job, f: seq<byte>, n: nat)
    requires b.Valid() && |f| == b.Size() && Honest(b, j, f) && Meets(b, j, n) && j.mode.Patch?
    ensures var k, cur := TaskOf(b, j, n), Block(b, f, n);
            k.Skips(cur) <==> Slice(cur, k.off, |k.data|) == k.data
  {
    hide TaskOf, Block, Slice;
    TaskShape(b, j, n);
    PriorIsHeld(b, j, f, n);
  }

  /** Inside the walked blocks the contents agree with the goal, block by block, as long as
      no block was left out wrongly. */
  lemma {:induction false} WalkReachesGoal(b: Board, j: Job, f: seq<byte>, i: nat, x: nat)
    requires b.Valid() && j.Fits(b) && |f| == b.Size() && First(b, j) <= i <= Last(b, j) + 1
    requires forall n :: First(b, j) <= n < i ==> NotMisled(b, j, f, n)
    requires x < |f|
    ensures Contents(b, j, f, i)[x] == if b.Base() + x < b.cuts[i] then Goal(b, j, f)[x] else f[x]
    decreases i
  {
    hide Contents, TaskOf, Block, Task.Next, NotMisled;
    if i == First(b, j) {
      WalkStart(b, j, f, i);
      assert InRegion(b, j, x) ==> b.cuts[i] <= b.Base() + x;
    } else {
      WalkReachesGoal(b, j, f, i - 1, x);
      assert b.Before(i - 1, i);
      GoalStep(b, j, f, i - 1, x);
    }
  }

  lemma GoalStep(b: Board, j: Job, f: seq<byte>, i: nat, x: nat)
    requires b.Valid() && j.Fits(b) && |f| == b.Size() && First(b, j) <= i <= Last(b, j)
    requires NotMisled(b, j, f, i) && x < |f|
    ensures Contents(b, j, f, i + 1)[x]
            == if Inside(b, i, x) then Goal(b, j, f)[x] else Contents(b, j, f, i)[x]
  {
    hide Contents, TaskOf, Splice, Task.Want, Task.Skips, Block, Goal;
    ContentsStep(b, j, f, i);
    WantIsGoal(b, j, f, i);
    HullOfBlock(b, i);
    if Inside(b, i, x) {
      BlockByte(b, Goal(b, j, f), i, x);
    }
  }

  /** The whole walk brings the flash to the goal exactly when no block was left out wrongly. */
  lemma ReachesGoalIff(b: Board, j: Job, f: seq<byte>)
    requires b.Valid() && j.Fits(b) && |f| == b.Size()
    ensures Contents(b, j, f, Last(b, j) + 1) == Goal(b, j, f)
            <==> forall n :: First(b, j) <= n <= Last(b, j) ==> NotMisled(b, j, f, n)
  {
    hide Contents, NotMisled;
    var m := Last(b, j) + 1;
    if forall n :: First(b, j) <= n <= Last(b, j) ==> NotMisled(b, j, f, n) {
      forall x | 0 <= x < |f| ensures Contents(b, j, f, m)[x] == Goal(b, j, f)[x] {
        WalkReachesGoal(b, j, f, m, x);
      }
      SameElements(Contents(b, j, f, m), Goal(b, j, f));
    }
    if Contents(b, j, f, m) == Goal(b, j, f) {
      forall n | First(b, j) <= n <= Last(b, j) ensures NotMisled(b, j, f, n) {
        ReachedIsNotMisled(b, j, f, n);
      }
    }
  }

  lemma ReachedIsNotMisled(b: Board, j: Job, f: seq<byte>, n: nat)
    requires b.Valid() && j.Fits(b) && |f| == b.Size() && First(b, j) <= n <= Last(b, j)
    requires Contents(b, j, f, Last(b, j) + 1) == Goal(b, j, f)
    ensures NotMisled(b, j, f, n)
  {
    hide Contents, TaskOf;
    BlockFinal(b, j, f, n, Last(b, j) + 1);
    WantIsGoal(b, j, f, n);
  }

  /** Once walked, a block keeps what its turn gave it. */
  lemma {:induction false} BlockFinal(b: Board, j: Job, f: seq<byte>, n: nat, i: nat)
    requires b.Valid() && j.Fits(b) && |f| == b.Size()
    requires First(b, j) <= n < i <= Last(b, j) + 1
    ensures Meets(b, j, n)
    ensures Block(b, Contents(b, j, f, i), n) == TaskOf(b, j, n).Next(Block(b, f, n))
    decreases i
  {
    hide Contents, TaskOf, Task.Next, Splice, Block;
    MeetsIsBetween(b, j, n);
    ContentsStep(b, j, f, i - 1);
    BlockOfSplice(b, Contents(b, j, f, i - 1), i - 1, TaskOf(b, j, i - 1).Next(Block(b, f, i - 1)), n);
    if n < i - 1 {
      BlockFinal(b, j, f, n, i - 1);
    }
  }

  // ----- When a run returns 0 -----

  /** A board with the operations a run needs, whose blocks and reported granularity, however
      coarse, are whole program units of the part. */
  ghost predicate Served(b: Board)
    requires b.Valid()
  {
    && Runnable(b) && (b.ops.flashRead || b.ops.read8)
    && b.Aligned() && b.Align() % b.unit == 0
  }

  /**
    The span a patch programs is always accepted by the device's unit check, also in the odd
    geometry where the reported granularity does not divide the block and all of it is programmed.
   */
  lemma WindowAccepted(b: Board, i: nat, cur: seq<byte>, want: seq<byte>)
    requires b.Valid() && b.Aligned() && b.Align() % b.unit == 0 && i + 1 < |b.cuts|
    requires |cur| == |want| == BlockSize(b, i) && cur != want
    ensures var lo, hi := WindowLo(cur, want, b.Align()), WindowHi(cur, want, b.Align());
            && lo < hi <= |want|
            && (b.cuts[i] + lo) % b.unit == 0 && (hi - lo) % b.unit == 0
            && Program(b.cuts[i] + lo, Slice(want, lo, hi - lo)).Accepted(b)
  {
    hide WindowLo, WindowHi;
    HullOfBlock(b, i);
    SumOfMultiples(b.cuts[i], b.cuts[i + 1], b.unit);
    DiffersInside(cur, want);
    WindowInUnits(cur, want, b.Align(), b.unit);
    var lo, hi := WindowLo(cur, want, b.Align()), WindowHi(cur, want, b.Align());
    SumOfMultiples(b.cuts[i], lo, b.unit);
    SumOfMultiples(lo, hi, b.unit);
  }

  /** The window starts and ends on whole units if the block and the granularity are whole units. */
  lemma WindowInUnits(cur: seq<byte>, want: seq<byte>, align: nat, unit: pos)
    requires |cur| == |want| && cur != want && align > 0 && |cur| % unit == 0 && align % unit == 0
    ensures WindowLo(cur, want, align) % unit == 0 && WindowHi(cur, want, align) % unit == 0
  {
    if |cur| % align == 0 {
      WindowIsAligned(cur, want, align);
      MultipleOfMultiple(WindowLo(cur, want, align), align, unit);
      MultipleOfMultiple(WindowHi(cur, want, align), align, unit);
    } else {
      QuotientUnique(0, unit, 0);
    }
  }

  lemma WindowIsAligned(cur: seq<byte>, want: seq<byte>, align: nat)
    requires |cur| == |want| && cur != want && align > 0 && |cur| % align == 0
    ensures WindowLo(cur, want, align) % align == 0 && WindowHi(cur, want, align) % align == 0
  {
    assert CoversDiff(cur, want, 0, |cur|);
    assert 0 % align == 0 by { QuotientUnique(0, align, 0); }
    WindowIsSmallestAligned(cur, want, align, 0, |cur|);
  }

  lemma EditsAccepted(b: Board, i: nat, k: Task, cur: seq<byte>)
    requires b.Valid() && b.Aligned() && b.Align() % b.unit == 0 && i + 1 < |b.cuts| && k.Holds(cur)
    requires k.base == b.cuts[i] && k.size == BlockSize(b, i)
    ensures forall e :: e in k.Edits(b, cur) ==> e.Accepted(b)
  {
    hide WindowLo, WindowHi, Task.Want, Clears;
    HullOfBlock(b, i);
    SumOfMultiples(b.cuts[i], b.cuts[i + 1], b.unit);
    var want := k.Want(cur);
    assert Program(k.base, want).Accepted(b);
    if want != cur {
      DiffersInside(cur, want);
      WindowAccepted(b, i, cur, want);
    }
  }

  lemma BlockCompletesIff(b: Board, j: Job, f: seq<byte>, n: nat)
    requires b.Valid() && j.Fits(b) && |f| == b.Size() && First(b, j) <= n <= Last(b, j)
    requires Served(b)
    ensures BlockCompletes(b, j, f, n) <==> b.cuts[n + 1] < LIMIT32
  {
    hide TaskOf, Task.Edits, Task.ReadsBlock, Block, Board.Aligned;
    MeetsIsBetween(b, j, n);
    TaskShape(b, j, n);
    EditsAccepted(b, n, TaskOf(b, j, n), Block(b, f, n));
  }

  lemma WalkCompletesIff(b: Board, j: Job, f: seq<byte>)
    requires b.Valid() && j.Fits(b) && |f| == b.Size() && Served(b)
    ensures WalkCompletes(b, j, f, Last(b, j) + 1) <==> b.cuts[Last(b, j) + 1] < LIMIT32
  {
    hide BlockCompletes, Served;
    var m := Last(b, j);
    BlockCompletesIff(b, j, f, m);
    assert WalkCompletes(b, j, f, m + 1) ==> BlockCompletes(b, j, f, m);
    if b.cuts[m + 1] < LIMIT32 {
      forall n | First(b, j) <= n < m + 1 ensures BlockCompletes(b, j, f, n) {
        assert n < m ==> b.Before(n + 1, m + 1);
        BlockCompletesIff(b, j, f, n);
      }
    }
  }

  /**
    Exactly when a run that meets no outside failure returns 0. A region whose last block ends
    at 2^32 is the one case where true knowledge is not enough: the 32-bit block end is then 0,
    so the walk gives up (or, when the region itself ends there, does not start).
   */
  lemma SucceedsIff(b: Board, j: Job, f: seq<byte>)
    requires b.Valid() && j.Fits(b) && |f| == b.Size() && Served(b)
    ensures Succeeds(b, j, f) <==>
              if j.End() == LIMIT32 then Goal(b, j, f) == f
              else b.cuts[Last(b, j) + 1] < LIMIT32
                   && forall n :: First(b, j) <= n <= Last(b, j) ==> NotMisled(b, j, f, n)
  {
    hide Contents, WalkCompletes, NotMisled;
    var at, m := j.addr - b.Base(), Stop(b, j);
    var g := Contents(b, j, f, m);
    if j.End() == LIMIT32 {
      WalkStart(b, j, f, m);
      assert WalkCompletes(b, j, f, m) by { NothingToComplete(b, j, f); }
    } else {
      WalkCompletesIff(b, j, f);
      ReachesGoalIff(b, j, f);
    }
    if Slice(g, at, |j.image|) == j.image {
      RegionHolds(b, j, f, m);
    }
    assert Slice(Goal(b, j, f), at, |j.image|) == j.image;
  }

  lemma NothingToComplete(b: Board, j: Job, f: seq<byte>)
    requires b.Valid() && j.Fits(b) && |f| == b.Size()
    ensures WalkCompletes(b, j, f, First(b, j))
  {
  }

  /** Update, and patch with no or a true old image, always succeed on flash below 2^32. */
  lemma HonestAlwaysSucceeds(b: Board, j: Job, f: seq<byte>)
    requires b.Valid() && |f| == b.Size() && Served(b) && b.Limit() < LIMIT32
    requires Honest(b, j, f)
    ensures Succeeds(b, j, f)
  {
    hide Succeeds, NotMisled;
    SucceedsIff(b, j, f);
    HullOfBlock(b, Last(b, j));
    forall n | First(b, j) <= n <= Last(b, j) ensures NotMisled(b, j, f, n) {
      HonestIsNotMisled(b, j, f, n);
    }
  }

  // ----- Requests that return -1 although no call fails -----

  /** One 1 KB block at `base`, behind a backend with every operation. */
  ghost function OneBlock(base: nat): (b: Board)
    requires base + 1024 <= LIMIT32 && base % 4 == 0
    ensures b.Valid() && b.cuts == [base, base + 1024] && Served(b)
  {
    var b := Board([base, base + 1024], 1024, 4, 4, Ops(true, true, true, true, true, true, true, true, true));
    assert b.Before(0, 1);
    b
  }

  lemma OnlyBlock(base: nat, j: Job)
    requires base + 1024 <= LIMIT32 && base % 4 == 0 && j.Fits(OneBlock(base))
    ensures First(OneBlock(base), j) == Last(OneBlock(base), j) == 0
  {
    IndexUnique(OneBlock(base), j.addr, 0);
    IndexUnique(OneBlock(base), j.End() - 1, 0);
  }

  /** The first byte of the topmost block: the block's 32-bit end is 0 and the walk gives up. */
  lemma TopOfAddressSpaceFails(f: seq<byte>)
    requires |f| == 1024
    ensures var b, j := OneBlock(LIMIT32 - 1024), Job(LIMIT32 - 1024, [0], Update);
            Honest(b, j, f) && j.End() < LIMIT32 && !Succeeds(b, j, f)
  {
    hide Succeeds, NotMisled, OneBlock, Board.Index;
    var b, j := OneBlock(LIMIT32 - 1024), Job(LIMIT32 - 1024, [0], Update);
    OnlyBlock(LIMIT32 - 1024, j);
    HullOfBlock(b, 0);
    SucceedsIff(b, j, f);
  }

  /** The last byte of an erased topmost block: the region's 32-bit end is 0, nothing is walked and
      the closing verify finds the old byte. */
  lemma EndOfAddressSpaceFails()
    ensures var b, j, f := OneBlock(LIMIT32 - 1024), Job(LIMIT32 - 1, [0], Update), Blank(1024);
            Honest(b, j, f) && j.End() == LIMIT32 && !Succeeds(b, j, f)
  {
    hide Succeeds, NotMisled, OneBlock;
    var b, j, f := OneBlock(LIMIT32 - 1024), Job(LIMIT32 - 1, [0], Update), Blank(1024);
    SucceedsIff(b, j, f);
    assert Goal(b, j, f)[1023] != f[1023];
  }

  /** An old image that claims the new byte is there already, over an erased block: the block is
      skipped and the closing verify finds the old byte. */
  lemma MisleadingImageFails()
    ensures var b, j, f := OneBlock(0x0800_0000), Job(0x0800_0000, [0], Patch(Some([0]))), Blank(1024);
            j.Fits(b) && b.Limit() < LIMIT32 && !Honest(b, j, f) && !Succeeds(b, j, f)
  {
    hide Succeeds, OneBlock, Board.Index;
    var b, j, f := OneBlock(0x0800_0000), Job(0x0800_0000, [0], Patch(Some([0]))), Blank(1024);
    OnlyBlock(0x0800_0000, j);
    HullOfBlock(b, 0);
    assert Slice(f, 0, 1)[0] != j.mode.prior.value[0];
    MeetsIsBetween(b, j, 0);
    TaskShape(b, j, 0);
    var k, cur := TaskOf(b, j, 0), Block(b, f, 0);
    assert k.Want(cur)[0] != cur[0];
    assert !NotMisled(b, j, f, 0);
    SucceedsIff(b, j, f);
  }

  // ----- Where a run leaves the flash -----

  /**
    What the outcome of a run says, byte by byte. On success every byte of the region is the image's
    and every other byte is the old one. On failure that is so of the bytes outside the region and of
    those above block `stuck`, which lies between the first and the last block of the region; the
    bytes below it are those of the walk.
   */
  lemma OutcomeMeans(b: Board, j: Job, s: Start, g: seq<byte>, log: seq<Event>, ok: bool, stuck: nat)
    requires b.Valid() && j.Fits(b) && |s.f| == b.Size() && RunOutcome(b, j, s, g, log, ok, stuck)
    ensures |g| == |s.f|
    ensures ok ==>
              forall x :: 0 <= x < |g| ==>
                g[x] == if j.addr <= b.cuts[0] + x < j.addr + |j.image| then j.image[b.cuts[0] + x - j.addr]
                        else s.f[x]
    ensures ok ==> log == s.log + WalkEvents(b, j, s.f, Stop(b, j)) + ReadEvents(b, j.addr, |j.image|)
    ensures !ok ==> Meets(b, j, stuck) && stuck + 1 < |b.cuts|
    ensures !ok ==>
              forall x :: 0 <= x < |g| && !(b.cuts[stuck] <= b.cuts[0] + x < b.cuts[stuck + 1])
                          && (b.cuts[stuck] <= b.cuts[0] + x
                              || !(j.addr <= b.cuts[0] + x < j.addr + |j.image|)) ==>
                g[x] == s.f[x]
    ensures !ok && Honest(b, j, s.f) ==>
              forall x :: 0 <= x < |g| && b.cuts[0] + x < b.cuts[stuck] && j.addr <= b.cuts[0] + x ==>
                g[x] == j.image[b.cuts[0] + x - j.addr]
  {
    hide Contents, WalkEvents, ReadEvents, Splice;
    assert s.log + RunEvents(b, j, s.f) == s.log + WalkEvents(b, j, s.f, Stop(b, j)) + ReadEvents(b, j.addr, |j.image|);
    if !ok {
      MeetsIsBetween(b, j, stuck);
      StuckFrame(b, j, s.f, g, stuck);
    }
  }

  lemma StuckFrame(b: Board, j: Job, f: seq<byte>, g: seq<byte>, i: nat)
    requires b.Valid() && j.Fits(b) && |f| == b.Size() && StoppedIn(b, j, f, g, i)
    ensures |g| == |f| && Meets(b, j, i)
    ensures forall x :: 0 <= x < |g| && !Inside(b, i, x) && (b.cuts[i] <= b.Base() + x || !InRegion(b, j, x)) ==>
              g[x] == f[x]
    ensures Honest(b, j, f) ==>
              forall x :: 0 <= x < |g| && b.Base() + x < b.cuts[i] && j.addr <= b.Base() + x ==>
                b.Base() + x - j.addr < |j.image| && g[x] == j.image[b.Base() + x - j.addr]
  {
    hide Contents, StoppedIn;
    MeetsIsBetween(b, j, i);
    assert First(b, j) <= i <= Last(b, j) && |g| == |f| by { StopBounds(b, j, f, g, i); }
    forall x | 0 <= x < |g| && !Inside(b, i, x) && (b.cuts[i] <= b.Base() + x || !InRegion(b, j, x))
      ensures g[x] == f[x]
    {
      StopKeepsRest(b, j, f, g, i, x);
    }
    if Honest(b, j, f) {
      forall x | 0 <= x < |g| && b.Base() + x < b.cuts[i] && j.addr <= b.Base() + x
        ensures b.Base() + x - j.addr < |j.image| && g[x] == j.image[b.Base() + x - j.addr]
      {
        StopIsConfined(b, j, f, g, i, x);
      }
    }
  }

  lemma StopBounds(b: Board, j: Job, f: seq<byte>, g: seq<byte>, i: nat)
    requires b.Valid() && j.Fits(b) && |f| == b.Size() && StoppedIn(b, j, f, g, i)
    ensures First(b, j) <= i <= Last(b, j) && |g| == |f|
  {
    hide Contents;
  }

  /**
    Failure confinement: with no or a true old image, a run that stops in block i has brought
    every address below the block to its goal and has left every address above it alone.
   */
  lemma StopIsConfined(b: Board, j: Job, f: seq<byte>, g: seq<byte>, i: nat, x: nat)
    requires b.Valid() && |f| == b.Size() && Honest(b, j, f)
    requires StoppedIn(b, j, f, g, i) && x < |f| && !Inside(b, i, x)
    ensures |g| == |f|
    ensures g[x] == if b.Base() + x < b.cuts[i] then Goal(b, j, f)[x] else f[x]
  {
    hide Contents, NotMisled;
    forall n | First(b, j) <= n < i ensures NotMisled(b, j, f, n) {
      HonestIsNotMisled(b, j, f, n);
    }
    WalkReachesGoal(b, j, f, i, x);
  }

  /** Whatever old image was given, the blocks above the stop and the bytes outside the region
      in all other blocks are untouched. */
  lemma StopKeepsRest(b: Board, j: Job, f: seq<byte>, g: seq<byte>, i: nat, x: nat)
    requires b.Valid() && j.Fits(b) && |f| == b.Size()
    requires StoppedIn(b, j, f, g, i) && x < |f| && !Inside(b, i, x)
    requires b.cuts[i] <= b.Base() + x || !InRegion(b, j, x)
    ensures |g| == |f| && g[x] == f[x]
  {
    hide Contents;
    ContentsFrame(b, j, f, i, x);
  }
}
