/** Runs side by side: which accesses fall on which block, NULL against supplied old image,
    patch against update. */
module Comparison {
  import opened Words
  import opened Nor
  import opened FlashSpec
  import opened Walk
  import opened Accounting
  import opened FlashResults
  import opened Optimality

  // ----- Two old images -----

  lemma {:induction false} MutationsConcat(s: seq<Event>, t: seq<Event>)
    ensures Mutations(s + t) == Mutations(s) + Mutations(t)
    decreases |t|
  {
    if t == [] {
      assert s + t == s;
    } else {
      assert (s + t)[..|s + t| - 1] == s + t[..|t| - 1];
      MutationsConcat(s, t[..|t| - 1]);
    }
  }

  lemma {:induction false} ReadsDoNotMutate(es: seq<Event>)
    requires ReadsOnly(es)
    ensures Mutations(es) == []
    decreases |es|
  {
    if es == [] {
    } else {
      assert es[|es| - 1] in es;
      ReadsDoNotMutate(es[..|es| - 1]);
    }
  }

  lemma BlockMutations(b: Board, k: Task, cur: seq<byte>)
    requires k.Holds(cur)
    ensures Mutations(k.Events(b, cur)) == Mutations(k.Edits(b, cur))
  {
    hide Mutations, Task.Edits, Task.ReadsBlock, Loads;
    MutationsConcat(k.Reads(b, cur), k.Edits(b, cur));
    LoadsAreReads(b, k.base, k.size);
    ReadsDoNotMutate(k.Reads(b, cur));
  }

  ghost function NullJob(addr: nat, image: seq<byte>): Job { Job(addr, image, Patch(None)) }

  ghost function ToldJob(b: Board, f: seq<byte>, addr: nat, image: seq<byte>): (j: Job)
    requires b.Valid() && |f| == b.Size() && b.InFlash(addr, |image|)
    ensures j.Fits(b) && First(b, j) == First(b, NullJob(addr, image)) && Last(b, j) == Last(b, NullJob(addr, image))
  {
    Job(addr, image, Patch(Some(Slice(f, addr - b.Base(), |image|))))
  }

  /** On each block the two patches decide and write alike. */
  lemma SameDecision(b: Board, f: seq<byte>, addr: nat, image: seq<byte>, n: nat)
    requires b.Valid() && |f| == b.Size() && b.InFlash(addr, |image|)
    requires var j := NullJob(addr, image); First(b, j) <= n <= Last(b, j)
    ensures Meets(b, NullJob(addr, image), n) && Meets(b, ToldJob(b, f, addr, image), n)
    ensures var p, q := TaskOf(b, NullJob(addr, image), n), TaskOf(b, ToldJob(b, f, addr, image), n);
            var cur := Block(b, f, n);
            && (p.Skips(cur) <==> q.Skips(cur))
            && p.Edits(b, cur) == q.Edits(b, cur)
  {
    hide TaskOf, Task.Edits, Block, Board.Index;
    var j, j' := NullJob(addr, image), ToldJob(b, f, addr, image);
    MeetsIsBetween(b, j, n);
    TaskShape(b, j, n);
    TaskShape(b, j', n);
    PriorIsHeld(b, j', f, n);
    EditsIgnoreRule(b, TaskOf(b, j, n), TaskOf(b, j', n), Block(b, f, n));
  }

  /** But for its decision to skip, the edits of a patched block do not depend on the rule. */
  lemma EditsIgnoreRule(b: Board, p: Task, q: Task, cur: seq<byte>)
    requires p.Holds(cur) && q.Holds(cur) && p.(rule := q.rule) == q
    requires !p.rule.Always? && !q.rule.Always? && (p.Skips(cur) <==> q.Skips(cur))
    ensures p.Edits(b, cur) == q.Edits(b, cur)
  {
    hide Rewrite, Task.Skips;
  }

  /**
    A patch without an old image and a patch with the true one issue the same programs and erases
    in the same order and count the same.
   */
  lemma {:induction false} NullRefinesSupplied(b: Board, f: seq<byte>, addr: nat, image: seq<byte>, i: nat)
    requires b.Valid() && |f| == b.Size() && b.InFlash(addr, |image|)
    requires var j := NullJob(addr, image); First(b, j) <= i <= Last(b, j) + 1
    ensures var j, j' := NullJob(addr, image), ToldJob(b, f, addr, image);
            && Mutations(WalkEvents(b, j, f, i)) == Mutations(WalkEvents(b, j', f, i))
            && StatsAt(b, j, f, i) == StatsAt(b, j', f, i)
    decreases i
  {
    hide WalkEvents, TaskOf, Block, Task.Events, Task.Edits, Mutations, StatsAt, TallyOf;
    var j, j' := NullJob(addr, image), ToldJob(b, f, addr, image);
    if i == First(b, j) {
      WalkStart(b, j, f, i);
      WalkStart(b, j', f, i);
      StatsStart(b, j, f);
      StatsStart(b, j', f);
    } else {
      var n := i - 1;
      NullRefinesSupplied(b, f, addr, image, n);
      SameDecision(b, f, addr, image, n);
      EventsStep(b, j, f, n);
      EventsStep(b, j', f, n);
      StatsStep(b, j, f, n);
      StatsStep(b, j', f, n);
      var cur := Block(b, f, n);
      BlockMutations(b, TaskOf(b, j, n), cur);
      BlockMutations(b, TaskOf(b, j', n), cur);
      MutationsConcat(WalkEvents(b, j, f, n), TaskOf(b, j, n).Events(b, cur));
      MutationsConcat(WalkEvents(b, j', f, n), TaskOf(b, j', n).Events(b, cur));
    }
  }

  // ----- Patch against update -----

  lemma UpdateSpends(b: Board, k: Task, cur: seq<byte>)
    requires k.Holds(cur) && k.rule.Always?
    ensures TallyOf(k.Events(b, cur)).erases == 1 && TallyOf(k.Events(b, cur)).written == k.size
  {
    hide TallyOf, Task.Want, ReadEvents;
    TallyConcat(k.Reads(b, cur), k.Edits(b, cur));
    ReadsTally(b, k.base, k.size);
    TallyOfNone();
    TallyOfPair(Erase(k.base, k.size), Program(k.base, k.Want(cur)));
  }

  /** On the same region, a patch never erases more blocks or programs more bytes than an update. */
  lemma {:induction false} PatchCostsNoMore(b: Board, j: Job, f: seq<byte>, i: nat)
    requires b.Valid() && j.Fits(b) && |f| == b.Size() && j.mode.Patch?
    requires First(b, j) <= i <= Last(b, j) + 1
    ensures var u := Job(j.addr, j.image, Update);
            var spent := TallyOf(WalkEvents(b, u, f, i));
            StatsAt(b, j, f, i).erased <= spent.erases && StatsAt(b, j, f, i).written <= spent.written
    decreases i
  {
    hide WalkEvents, TaskOf, Block, Task.Events, Task.Edits, StatsAt, TallyOf;
    var u := Job(j.addr, j.image, Update);
    if i == First(b, j) {
      StatsStart(b, j, f);
    } else {
      var n := i - 1;
      PatchCostsNoMore(b, j, f, n);
      StatsStep(b, j, f, n);
      EventsStep(b, u, f, n);
      TaskShape(b, u, n);
      TaskShape(b, j, n);
      var cur := Block(b, f, n);
      BlockSpends(b, TaskOf(b, j, n), cur);
      UpdateSpends(b, TaskOf(b, u, n), cur);
      TallyConcat(WalkEvents(b, u, f, n), TaskOf(b, u, n).Events(b, cur));
    }
  }

  /** Patch and update leave the same flash behind, and both replay to it. */
  lemma PatchRefinesUpdate(b: Board, j: Job, f: seq<byte>)
    requires b.Valid() && |f| == b.Size() && Honest(b, j, f) && j.mode.Patch?
    ensures var u := Job(j.addr, j.image, Update);
            var walk, walk' := WalkEvents(b, j, f, Last(b, j) + 1), WalkEvents(b, u, f, Last(b, j) + 1);
            && AllInRange(b, walk) && AllInRange(b, walk')
            && Replay(b, f, walk) == Replay(b, f, walk') == Goal(b, j, f)
  {
    hide Contents, WalkEvents, Replay, Splice, AllInRange, Board.Index;
    var u := Job(j.addr, j.image, Update);
    HonestReachesGoal(b, j, f);
    HonestReachesGoal(b, u, f);
    LogReplaysToContents(b, j, f, Last(b, j) + 1);
    LogReplaysToContents(b, u, f, Last(b, j) + 1);
  }

  // ----- Which accesses fall on which block -----

  ghost predicate StartsIn(b: Board, e: Event, n: nat)
    requires b.Valid() && n + 1 < |b.cuts|
  {
    b.cuts[n] <= e.addr < b.cuts[n + 1]
  }

  /** The accesses that fall on block n, in order. */
  ghost function On(b: Board, es: seq<Event>, n: nat): seq<Event>
    requires b.Valid() && n + 1 < |b.cuts|
  {
    if es == [] then []
    else On(b, es[..|es| - 1], n) + if StartsIn(b, es[|es| - 1], n) then [es[|es| - 1]] else []
  }

  lemma {:induction false} OnConcat(b: Board, s: seq<Event>, t: seq<Event>, n: nat)
    requires b.Valid() && n + 1 < |b.cuts|
    ensures On(b, s + t, n) == On(b, s, n) + On(b, t, n)
    decreases |t|
  {
    if t == [] {
      assert s + t == s;
    } else {
      assert (s + t)[..|s + t| - 1] == s + t[..|t| - 1];
      OnConcat(b, s, t[..|t| - 1], n);
    }
  }

  lemma {:induction false} OnAllOrNone(b: Board, es: seq<Event>, n: nat)
    requires b.Valid() && n + 1 < |b.cuts|
    ensures (forall e :: e in es ==> StartsIn(b, e, n)) ==> On(b, es, n) == es
    ensures (forall e :: e in es ==> !StartsIn(b, e, n)) ==> On(b, es, n) == []
    decreases |es|
  {
    if es == [] {
    } else {
      var front := es[..|es| - 1];
      assert es == front + [es[|es| - 1]];
      OnAllOrNone(b, front, n);
    }
  }

  /** How many addresses an access covers. */
  function Extent(e: Event): nat {
    match e
    case Read(_, len) => len
    case Load(_, width) => width
    case Program(_, data) => |data|
    case Erase(_, len) => len
  }

  ghost predicate Within(e: Event, lo: nat, hi: nat) {
    0 < Extent(e) && lo <= e.addr && e.addr + Extent(e) <= hi
  }

  lemma {:induction false} LoadsInside(b: Board, addr: nat, len: nat)
    ensures forall e :: e in Loads(b, addr, len) ==> Within(e, addr, addr + len)
    decreases len
  {
    if len == 0 {
    } else {
      var width := if addr % 4 == 0 && len >= 4 && b.ops.read32 then 4 else 1;
      LoadsInside(b, addr + width, len - width);
    }
  }

  /** All accesses spent on a block stay inside it. */
  lemma EventsInside(b: Board, k: Task, cur: seq<byte>)
    requires k.Holds(cur)
    ensures forall e :: e in k.Events(b, cur) ==> Within(e, k.base, k.base + k.size)
  {
    hide Loads, Task.Want, Clears, WindowLo, WindowHi;
    LoadsInside(b, k.base, k.size);
    var want := k.Want(cur);
    if want != cur {
      DiffersInside(cur, want);
      assert WindowLo(cur, want, b.Align()) < WindowHi(cur, want, b.Align());
    }
  }

  /** The accesses of block m's turn fall on block m and no other. */
  lemma TurnStaysInBlock(b: Board, j: Job, f: seq<byte>, m: nat, n: nat)
    requires b.Valid() && j.Fits(b) && |f| == b.Size() && Meets(b, j, m) && n + 1 < |b.cuts|
    ensures var es := TaskOf(b, j, m).Events(b, Block(b, f, m));
            On(b, es, n) == if n == m then es else []
  {
    hide TaskOf, Block, Task.Events, On;
    var k, es := TaskOf(b, j, m), TaskOf(b, j, m).Events(b, Block(b, f, m));
    HullOfBlock(b, m);
    EventsInside(b, k, Block(b, f, m));
    OnAllOrNone(b, es, n);
    assert m + 1 < n ==> b.Before(m + 1, n);
    assert n + 1 < m ==> b.Before(n + 1, m);
  }

  /** The accesses of the walk that fall on a block are exactly those of the block's own turn; on a
      block that does not meet the region there are none. */
  lemma {:induction false} AccessesOfBlock(b: Board, j: Job, f: seq<byte>, i: nat, n: nat)
    requires b.Valid() && j.Fits(b) && |f| == b.Size()
    requires First(b, j) <= i <= Last(b, j) + 1 && n + 1 < |b.cuts|
    ensures On(b, WalkEvents(b, j, f, i), n)
            == if Meets(b, j, n) && n < i then TaskOf(b, j, n).Events(b, Block(b, f, n)) else []
    decreases i
  {
    hide WalkEvents, TaskOf, Block, Task.Events, On, Meets;
    MeetsIsBetween(b, j, n);
    if i == First(b, j) {
      WalkStart(b, j, f, i);
      OnAllOrNone(b, [], n);
    } else {
      var m := i - 1;
      AccessesOfBlock(b, j, f, m, n);
      EventsStep(b, j, f, m);
      TurnStaysInBlock(b, j, f, m, n);
      OnConcat(b, WalkEvents(b, j, f, m), TaskOf(b, j, m).Events(b, Block(b, f, m)), n);
    }
  }

  /** At most one erase and one program, in that order. */
  ghost predicate OneEraseOneProgram(es: seq<Event>) {
    || es == []
    || (|es| == 1 && es[0].Program?)
    || (|es| == 2 && es[0].Erase? && es[1].Program?)
  }

  /** The block does not meet the region, or the images do not differ on it. */
  ghost predicate LeftAlone(b: Board, j: Job, n: nat)
    requires b.Valid() && j.Fits(b) && j.mode.Patch? && n + 1 < |b.cuts|
  {
    HullOfBlock(b, n);
    Meets(b, j, n) ==>
      && j.mode.prior.Some?
      && var lo, hi := Max(b.cuts[n], j.addr) - j.addr, Min(b.cuts[n + 1], j.End()) - j.addr;
         Slice(j.mode.prior.value, lo, hi - lo) == Slice(j.image, lo, hi - lo)
  }

  /**
    Touch set of a patch before the closing verify: a block outside the region, or one whose covered
    bytes are equal in the old and new image, sees no access at all; every other block is read once
    and then, from what it holds, brought to its share of the goal: not at all if it is there, by one
    program of the window if no bit has to rise, else by one erase and one program of the block.
   */
  lemma TouchSet(b: Board, j: Job, f: seq<byte>, n: nat) returns (edits: seq<Event>)
    requires b.Valid() && j.Fits(b) && |f| == b.Size() && j.mode.Patch? && n + 1 < |b.cuts|
    ensures b.cuts[n] < b.cuts[n + 1]
    ensures var touched := On(b, WalkEvents(b, j, f, Last(b, j) + 1), n);
            && OneEraseOneProgram(edits)
            && touched == (if LeftAlone(b, j, n) then []
                           else ReadEvents(b, b.cuts[n], b.cuts[n + 1] - b.cuts[n]) + edits)
            && forall e :: e in touched ==> Within(e, b.cuts[n], b.cuts[n + 1])
    ensures !LeftAlone(b, j, n) ==>
              var cur, goal := Block(b, f, n), Block(b, Goal(b, j, f), n);
              if cur == goal then edits == []
              else if forall x :: 0 <= x < |goal| ==> goal[x] & cur[x] == goal[x] then
                var lo, hi := WindowLo(cur, goal, b.Align()), WindowHi(cur, goal, b.Align());
                lo < hi <= |goal| && edits == [Program(b.cuts[n] + lo, Slice(goal, lo, hi - lo))]
              else edits == [Erase(b.cuts[n], b.cuts[n + 1] - b.cuts[n]), Program(b.cuts[n], goal)]
  {
    hide WalkEvents, TaskOf, Block, On, Loads, ReadEvents, Within, Task.Events, Task.Edits, Meets, Goal,
      WindowLo, WindowHi, LeftAlone;
    HullOfBlock(b, n);
    edits := [];
    if LeftAlone(b, j, n) {
      TouchesNothing(b, j, f, n);
    } else {
      edits := TouchesBlock(b, j, f, n);
    }
  }

  lemma TouchesNothing(b: Board, j: Job, f: seq<byte>, n: nat)
    requires b.Valid() && j.Fits(b) && |f| == b.Size() && j.mode.Patch? && n + 1 < |b.cuts| && LeftAlone(b, j, n)
    ensures On(b, WalkEvents(b, j, f, Last(b, j) + 1), n) == []
  {
    hide WalkEvents, TaskOf, Block, On, Loads, ReadEvents, Task.Events, Task.Edits, Meets;
    AccessesOfBlock(b, j, f, Last(b, j) + 1, n);
    if Meets(b, j, n) {
      TaskShape(b, j, n);
      EditsShape(b, TaskOf(b, j, n), Block(b, f, n));
    }
  }

  lemma TouchesBlock(b: Board, j: Job, f: seq<byte>, n: nat) returns (edits: seq<Event>)
    requires b.Valid() && j.Fits(b) && |f| == b.Size() && j.mode.Patch? && n + 1 < |b.cuts| && !LeftAlone(b, j, n)
    ensures b.cuts[n] < b.cuts[n + 1] && OneEraseOneProgram(edits)
    ensures var touched := On(b, WalkEvents(b, j, f, Last(b, j) + 1), n);
            && touched == ReadEvents(b, b.cuts[n], b.cuts[n + 1] - b.cuts[n]) + edits
            && forall e :: e in touched ==> Within(e, b.cuts[n], b.cuts[n + 1])
    ensures var cur, goal := Block(b, f, n), Block(b, Goal(b, j, f), n);
            if cur == goal then edits == []
            else if forall x :: 0 <= x < |goal| ==> goal[x] & cur[x] == goal[x] then
              var lo, hi := WindowLo(cur, goal, b.Align()), WindowHi(cur, goal, b.Align());
              lo < hi <= |goal| && edits == [Program(b.cuts[n] + lo, Slice(goal, lo, hi - lo))]
            else edits == [Erase(b.cuts[n], b.cuts[n + 1] - b.cuts[n]), Program(b.cuts[n], goal)]
  {
    hide WalkEvents, TaskOf, Block, On, ReadEvents, Within, Task.Events, Task.Edits, LeftAlone,
      OneEraseOneProgram, Goal, WindowLo, WindowHi, Slice, Meets;
    HullOfBlock(b, n);
    NotLeftAloneMeets(b, j, n);
    edits := TaskOf(b, j, n).Edits(b, Block(b, f, n));
    TurnTouches(b, j, f, n);
    TurnEdits(b, j, f, n);
  }

  lemma NotLeftAloneMeets(b: Board, j: Job, n: nat)
    requires b.Valid() && j.Fits(b) && j.mode.Patch? && n + 1 < |b.cuts| && !LeftAlone(b, j, n)
    ensures Meets(b, j, n)
  {
  }

  lemma TurnTouches(b: Board, j: Job, f: seq<byte>, n: nat)
    requires b.Valid() && j.Fits(b) && |f| == b.Size() && j.mode.Patch? && Meets(b, j, n) && !LeftAlone(b, j, n)
    ensures var touched := On(b, WalkEvents(b, j, f, Last(b, j) + 1), n);
            var edits := TaskOf(b, j, n).Edits(b, Block(b, f, n));
            && OneEraseOneProgram(edits)
            && b.cuts[n] < b.cuts[n + 1]
            && touched == ReadEvents(b, b.cuts[n], b.cuts[n + 1] - b.cuts[n]) + edits
            && forall e :: e in touched ==> Within(e, b.cuts[n], b.cuts[n + 1])
  {
    hide WalkEvents, TaskOf, Block, On, ReadEvents, Within, Task.Events, Task.Edits, Task.Skips,
      OneEraseOneProgram;
    HullOfBlock(b, n);
    AccessesOfBlock(b, j, f, Last(b, j) + 1, n);
    MeetsIsBetween(b, j, n);
    TaskShape(b, j, n);
    var k, cur := TaskOf(b, j, n), Block(b, f, n);
    EditsShape(b, k, cur);
    EventsInside(b, k, cur);
  }

  lemma TurnEdits(b: Board, j: Job, f: seq<byte>, n: nat)
    requires b.Valid() && j.Fits(b) && |f| == b.Size() && j.mode.Patch? && Meets(b, j, n) && !LeftAlone(b, j, n)
    ensures b.cuts[n] < b.cuts[n + 1]
    ensures var cur, goal := Block(b, f, n), Block(b, Goal(b, j, f), n);
            var edits := TaskOf(b, j, n).Edits(b, cur);
            if cur == goal then edits == []
            else if forall x :: 0 <= x < |goal| ==> goal[x] & cur[x] == goal[x] then
              var lo, hi := WindowLo(cur, goal, b.Align()), WindowHi(cur, goal, b.Align());
              lo < hi <= |goal| && edits == [Program(b.cuts[n] + lo, Slice(goal, lo, hi - lo))]
            else edits == [Erase(b.cuts[n], b.cuts[n + 1] - b.cuts[n]), Program(b.cuts[n], goal)]
  {
    hide TaskOf, Block, Task.Edits, Task.Skips, Goal, WindowLo, WindowHi, Slice, Task.Want, LeftAlone;
    HullOfBlock(b, n);
    MeetsIsBetween(b, j, n);
    TaskShape(b, j, n);
    WantIsGoal(b, j, f, n);
    SkippedIsRight(b, j, f, n);
    EditsAre(b, TaskOf(b, j, n), Block(b, f, n));
  }

  /** A block that is neither left alone nor worked on was compared and found to be right. */
  lemma SkippedIsRight(b: Board, j: Job, f: seq<byte>, n: nat)
    requires b.Valid() && j.Fits(b) && |f| == b.Size() && j.mode.Patch? && Meets(b, j, n) && !LeftAlone(b, j, n)
    ensures TaskOf(b, j, n).Skips(Block(b, f, n)) ==>
              Block(b, f, n) == Block(b, Goal(b, j, f), n)
  {
    hide TaskOf, LeftAlone, Block, Goal, Task.Skips;
    if j.mode.prior.Some? {
      WorkedIffImagesDiffer(b, j, f, n);
    } else {
      SkipsIffSame(b, j, f, n);
    }
  }

  lemma EditsAre(b: Board, k: Task, cur: seq<byte>)
    requires k.Holds(cur) && !k.rule.Always?
    ensures k.Skips(cur) ==> k.Edits(b, cur) == []
    ensures !k.Skips(cur) ==>
              var want := k.Want(cur);
              if cur == want then k.Edits(b, cur) == []
              else if forall x :: 0 <= x < |want| ==> want[x] & cur[x] == want[x] then
                var lo, hi := WindowLo(cur, want, b.Align()), WindowHi(cur, want, b.Align());
                lo < hi <= |want| && k.Edits(b, cur) == [Program(k.base + lo, Slice(want, lo, hi - lo))]
              else k.Edits(b, cur) == [Erase(k.base, k.size), Program(k.base, want)]
  {
    hide WindowLo, WindowHi, Task.Want;
    if k.Want(cur) != cur { DiffersInside(cur, k.Want(cur)); }
  }

  /**
    Touch set of an update before the closing verify: a block of the region is read back exactly when
    the region leaves part of it out, then erased and programmed whole with its share of the goal; no
    other block is accessed.
   */
  lemma UpdateTouchSet(b: Board, j: Job, f: seq<byte>, n: nat)
    requires b.Valid() && j.Fits(b) && |f| == b.Size() && j.mode.Update? && n + 1 < |b.cuts|
    ensures b.cuts[n] < b.cuts[n + 1]
    ensures On(b, WalkEvents(b, j, f, Last(b, j) + 1), n) ==
            if !(b.cuts[n] < j.addr + |j.image| && j.addr < b.cuts[n + 1]) then []
            else
              (if j.addr <= b.cuts[n] && b.cuts[n + 1] <= j.addr + |j.image| then []
               else ReadEvents(b, b.cuts[n], b.cuts[n + 1] - b.cuts[n]))
              + [Erase(b.cuts[n], b.cuts[n + 1] - b.cuts[n]), Program(b.cuts[n], Block(b, Goal(b, j, f), n))]
  {
    hide WalkEvents, TaskOf, Block, On, ReadEvents, Task.Want, Goal;
    HullOfBlock(b, n);
    AccessesOfBlock(b, j, f, Last(b, j) + 1, n);
    MeetsIsBetween(b, j, n);
    if Meets(b, j, n) {
      TaskShape(b, j, n);
      WantIsGoal(b, j, f, n);
    }
  }

  lemma EditsShape(b: Board, k: Task, cur: seq<byte>)
    requires k.Holds(cur)
    ensures OneEraseOneProgram(k.Edits(b, cur))
    ensures !k.rule.Always? ==>
              k.Events(b, cur) == if k.rule.Told? && k.rule.prior == k.data then []
                                  else ReadEvents(b, k.base, k.size) + k.Edits(b, cur)
  {
    hide Clears, WindowLo, WindowHi, Task.Want, ReadEvents;
  }

  // ----- What the counters mean -----

  /** The block's contents differ before and after. */
  ghost predicate Differs(b: Board, j: Job, f: seq<byte>, n: nat)
    requires b.Valid() && j.Fits(b) && |f| == b.Size() && n + 1 < |b.cuts|
  {
    Block(b, f, n) != Block(b, Goal(b, j, f), n)
  }

  /** An honest patch skips a block exactly when its contents are not to change. */
  lemma SkipsIffSame(b: Board, j: Job, f: seq<byte>, n: nat)
    requires b.Valid() && |f| == b.Size() && Honest(b, j, f) && j.mode.Patch? && Meets(b, j, n)
    ensures TaskOf(b, j, n).Skips(Block(b, f, n)) <==> !Differs(b, j, f, n)
  {
    hide TaskOf, Block, Goal, Task.Skips, Slice, Splice, Meets;
    MeetsIsBetween(b, j, n);
    WantIsGoal(b, j, f, n);
    SkipsIffHeld(b, j, f, n);
    SpliceIsNeutral(Block(b, f, n), TaskOf(b, j, n).off, TaskOf(b, j, n).data);
  }

  /** Writing what is there already changes nothing, and nothing else does. */
  lemma SpliceIsNeutral<T>(s: seq<T>, at: nat, data: seq<T>)
    requires at + |data| <= |s|
    ensures Splice(s, at, data) == s <==> Slice(s, at, |data|) == data
  {
    hide Splice, Slice;
    if Slice(s, at, |data|) == data {
      SameElements(Splice(s, at, data), s);
    }
    if Splice(s, at, data) == s {
      SameElements(Slice(s, at, |data|), data);
    }
  }

  /** The walk works on the block. */
  ghost predicate Worked(b: Board, j: Job, f: seq<byte>, n: nat)
    requires b.Valid() && j.Fits(b) && |f| == b.Size()
  {
    Meets(b, j, n) && !TaskOf(b, j, n).Skips(Block(b, f, n))
  }

  ghost function WorkedBlocks(b: Board, j: Job, f: seq<byte>, i: nat): set<nat>
    requires b.Valid() && j.Fits(b) && |f| == b.Size()
  {
    set n: nat | First(b, j) <= n < i && Worked(b, j, f, n)
  }

  lemma {:induction false} ChangedCount(b: Board, j: Job, f: seq<byte>, i: nat)
    requires b.Valid() && j.Fits(b) && |f| == b.Size() && j.mode.Patch?
    requires First(b, j) <= i <= Last(b, j) + 1
    ensures ChangedBlocks(b, j, f, i) == |WorkedBlocks(b, j, f, i)|
    decreases i
  {
    hide TaskOf, Block, Task.Skips, Meets;
    if i == First(b, j) {
      assert WorkedBlocks(b, j, f, i) == {};
    } else {
      MeetsIsBetween(b, j, i - 1);
      ChangedCount(b, j, f, i - 1);
      var before := WorkedBlocks(b, j, f, i - 1);
      assert WorkedBlocks(b, j, f, i) == before + if Worked(b, j, f, i - 1) then {i - 1} else {};
    }
  }

  /** With an old image, the walk works on the blocks on which the two images differ. */
  lemma WorkedIffImagesDiffer(b: Board, j: Job, f: seq<byte>, n: nat)
    requires b.Valid() && j.Fits(b) && |f| == b.Size() && j.mode.Patch? && j.mode.prior.Some?
    requires n + 1 < |b.cuts|
    ensures Worked(b, j, f, n) <==> !LeftAlone(b, j, n)
  {
    hide TaskOf, Block, Slice, Board.Valid;
    if Meets(b, j, n) { TaskShape(b, j, n); }
  }

  /** With no or a true old image, it works on the blocks whose contents are to change. */
  lemma WorkedIffDiffers(b: Board, j: Job, f: seq<byte>, n: nat)
    requires b.Valid() && |f| == b.Size() && Honest(b, j, f) && j.mode.Patch? && n + 1 < |b.cuts|
    ensures Worked(b, j, f, n) <==> Meets(b, j, n) && Differs(b, j, f, n)
  {
    hide TaskOf, Block, Meets, Differs;
    if Meets(b, j, n) { SkipsIffSame(b, j, f, n); }
  }

  /**
    `sectors_changed` counts the blocks that meet the region and whose contents differ, if the old
    image is NULL or true. If one is supplied, true or wrong, it counts the blocks on which it
    differs from the new one.
   */
  lemma ChangedMeaning(b: Board, j: Job, f: seq<byte>)
    requires b.Valid() && j.Fits(b) && |f| == b.Size() && j.mode.Patch? && j.End() < LIMIT32
    ensures var changed := StatsAt(b, j, f, Stop(b, j)).changed;
            && (Honest(b, j, f) ==>
                  changed == |set n: nat | n < |b.cuts| - 1 && Meets(b, j, n) && Differs(b, j, f, n)|)
            && (j.mode.prior.Some? ==>
                  changed == |set n: nat | n < |b.cuts| - 1 && !LeftAlone(b, j, n)|)
  {
    hide ChangedBlocks, Differs, Meets, TallyOf, WalkEvents, Worked, LeftAlone, Honest;
    var worked := WorkedBlocks(b, j, f, Last(b, j) + 1);
    ChangedCount(b, j, f, Last(b, j) + 1);
    forall n: nat | n < |b.cuts| - 1 ensures n in worked <==> Worked(b, j, f, n) {
      WorkedInWalk(b, j, f, n);
    }
    if Honest(b, j, f) {
      forall n: nat | n < |b.cuts| - 1 ensures Worked(b, j, f, n) <==> Meets(b, j, n) && Differs(b, j, f, n) {
        WorkedIffDiffers(b, j, f, n);
      }
      assert worked == set n: nat | n < |b.cuts| - 1 && Meets(b, j, n) && Differs(b, j, f, n);
    }
    if j.mode.prior.Some? {
      forall n: nat | n < |b.cuts| - 1 ensures Worked(b, j, f, n) <==> !LeftAlone(b, j, n) {
        WorkedIffImagesDiffer(b, j, f, n);
      }
      assert worked == set n: nat | n < |b.cuts| - 1 && !LeftAlone(b, j, n);
    }
  }

  lemma WorkedInWalk(b: Board, j: Job, f: seq<byte>, n: nat)
    requires b.Valid() && j.Fits(b) && |f| == b.Size()
    ensures Worked(b, j, f, n) ==> First(b, j) <= n <= Last(b, j)
  {
    hide Meets;
    MeetsIsBetween(b, j, n);
  }

  /** What the counters mean when the walk has dealt with the blocks before i. */
  lemma StatsMeaningAt(b: Board, j: Job, f: seq<byte>, i: nat)
    requires b.Valid() && j.Fits(b) && |f| == b.Size() && j.mode.Patch?
    requires First(b, j) <= i <= Last(b, j) + 1
    ensures var s, es := StatsAt(b, j, f, i), WalkEvents(b, j, f, i);
            && s.total == |set n: nat | n < i && Meets(b, j, n)|
            && s.changed == |set n: nat | n < i && Worked(b, j, f, n)|
            && s.erased == |set k: nat | k < |es| && es[k].Erase?| && s.written == TallyOf(es).written
            && s.erased <= s.changed <= s.total < LIMIT32
            && s.written <= b.Size() < LIMIT32
  {
    hide WalkEvents, TallyOf, ChangedBlocks, Meets, Worked;
    var lo, es := First(b, j), WalkEvents(b, j, f, i);
    StatsBounded(b, j, f, i);
    assert b.cuts[i] - b.cuts[lo] <= b.Size() by { CutsInFlash(b, lo, i); }
    forall n: nat | n < i ensures Meets(b, j, n) <==> lo <= n {
      MeetsIsBetween(b, j, n);
    }
    assert (set n: nat | n < i && Meets(b, j, n)) == set n: nat | n < i && AtLeast(n, lo);
    RangeSize(lo, i);
    ChangedCount(b, j, f, i);
    forall n: nat | n < i ensures Worked(b, j, f, n) ==> lo <= n {
      WorkedInWalk(b, j, f, n);
    }
    assert WorkedBlocks(b, j, f, i) == set n: nat | n < i && Worked(b, j, f, n);
    ErasesCounted(es);
  }

  lemma CutsInFlash(b: Board, i: nat, k: nat)
    requires b.Valid() && i <= k < |b.cuts|
    ensures b.Base() <= b.cuts[i] <= b.cuts[k] <= b.Limit()
  {
    assert 0 < i ==> b.Before(0, i);
    assert i < k ==> b.Before(i, k);
    assert k < |b.cuts| - 1 ==> b.Before(k, |b.cuts| - 1);
  }

  lemma {:induction false} ErasesCounted(es: seq<Event>)
    ensures TallyOf(es).erases == |set k: nat | k < |es| && es[k].Erase?|
    decreases |es|
  {
    hide TallyOf;
    var now := set k: nat | k < |es| && es[k].Erase?;
    if es == [] {
      TallyOfNone();
      assert now == {};
    } else {
      var n := |es| - 1;
      var front := es[..n];
      assert es == front + [es[n]];
      ErasesCounted(front);
      TallyCounts(front, es[n]);
      var before := set k: nat | k < |front| && front[k].Erase?;
      assert now == before + if es[n].Erase? then {n} else {};
    }
  }

  /**
    What the counters of a patch mean. A region that ends at 2^32 is not walked, so there they stay
    zero although blocks meet the region.
   */
  lemma StatsMeaning(b: Board, j: Job, f: seq<byte>)
    requires b.Valid() && j.Fits(b) && |f| == b.Size() && j.mode.Patch?
    ensures var s, es := StatsAt(b, j, f, Stop(b, j)), WalkEvents(b, j, f, Stop(b, j));
            && s.total == (if j.addr + |j.image| == LIMIT32 then 0
                           else |set n: nat | n < |b.cuts| && Meets(b, j, n)|)
            && s.erased == |set k: nat | k < |es| && es[k].Erase?| && s.written == TallyOf(es).written
            && s.erased <= s.changed <= s.total < LIMIT32
            && s.written <= b.Size() < LIMIT32
  {
    hide WalkEvents, TallyOf, Meets, StatsAt, Worked;
    StatsMeaningAt(b, j, f, Stop(b, j));
    if j.End() == LIMIT32 {
      StatsStart(b, j, f);
    } else {
      forall n: nat | n < |b.cuts| ensures Meets(b, j, n) ==> n < Last(b, j) + 1 {
        MeetsIsBetween(b, j, n);
      }
      assert (set n: nat | n < |b.cuts| && Meets(b, j, n)) == set n: nat | n < Last(b, j) + 1 && Meets(b, j, n);
    }
  }

  ghost predicate AtLeast(i: nat, lo: nat) { lo <= i }

  lemma {:induction false} RangeSize(lo: nat, hi: nat)
    requires lo <= hi
    ensures |set i: nat | i < hi && AtLeast(i, lo)| == hi - lo
    decreases hi - lo
  {
    var s := set i: nat | i < hi && AtLeast(i, lo);
    if lo == hi {
      assert s == {};
    } else {
      RangeSize(lo, hi - 1);
      assert s == (set i: nat | i < hi - 1 && AtLeast(i, lo)) + {hi - 1};
    }
  }
}
