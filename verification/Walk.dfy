/** Facts about the walk over the erase blocks that the loops and the theorems share. */
module Walk {
  import opened Words
  import opened Nor
  import opened FlashSpec
  import opened Backend

  /** Flash position x lies in block i. */
  ghost predicate Inside(b: Board, i: nat, x: nat)
    requires b.Valid() && i + 1 < |b.cuts|
  {
    b.cuts[i] <= b.Base() + x < b.cuts[i + 1]
  }

  ghost predicate InRegion(b: Board, j: Job, x: nat)
    requires b.Valid()
  {
    j.addr <= b.Base() + x < j.End()
  }

  /** Before the first block nothing has happened. */
  lemma WalkStart(b: Board, j: Job, f: seq<byte>, i: nat)
    requires b.Valid() && j.Fits(b) && |f| == b.Size() && i <= First(b, j)
    ensures Contents(b, j, f, i) == f && WalkEvents(b, j, f, i) == []
  {
  }

  lemma EventsStep(b: Board, j: Job, f: seq<byte>, i: nat)
    requires b.Valid() && j.Fits(b) && |f| == b.Size() && First(b, j) <= i <= Last(b, j)
    ensures Meets(b, j, i)
    ensures WalkEvents(b, j, f, i + 1) == WalkEvents(b, j, f, i) + TaskOf(b, j, i).Events(b, Block(b, f, i))
  {
    hide Contents, TaskOf, Block, Task.Events, Meets, BlockSize;
    MeetsIsBetween(b, j, i);
  }

  lemma ContentsStep(b: Board, j: Job, f: seq<byte>, i: nat)
    requires b.Valid() && j.Fits(b) && |f| == b.Size() && First(b, j) <= i <= Last(b, j)
    ensures Meets(b, j, i)
    ensures b.Base() <= b.cuts[i] && b.cuts[i] - b.Base() + BlockSize(b, i) <= |f|
    ensures Contents(b, j, f, i + 1)
            == Splice(Contents(b, j, f, i), b.cuts[i] - b.Base(), TaskOf(b, j, i).Next(Block(b, f, i)))
  {
    hide WalkEvents, TaskOf, Block, Task.Next, Meets, Splice;
    MeetsIsBetween(b, j, i);
    HullOfBlock(b, i);
  }

  /** Outside the region nothing ever changes; from block i on nothing has changed yet. */
  lemma {:induction false} ContentsFrame(b: Board, j: Job, f: seq<byte>, i: nat, x: nat)
    requires b.Valid() && j.Fits(b) && |f| == b.Size() && i <= Last(b, j) + 1 && x < |f|
    requires !InRegion(b, j, x) || b.cuts[i] <= b.Base() + x
    ensures Contents(b, j, f, i)[x] == f[x]
    decreases i
  {
    hide Contents;
    if i <= First(b, j) {
      WalkStart(b, j, f, i);
    } else {
      assert b.Before(i - 1, i);
      ContentsFrame(b, j, f, i - 1, x);
      BlockFrame(b, j, f, i - 1, x);
    }
  }

  /** Rewriting block m changes block m and no other. */
  lemma BlockOfSplice(b: Board, g: seq<byte>, m: nat, data: seq<byte>, n: nat)
    requires b.Valid() && |g| == b.Size() && m + 1 < |b.cuts| && n + 1 < |b.cuts|
    requires |data| == BlockSize(b, m)
    ensures b.Base() <= b.cuts[m] && b.cuts[m] - b.Base() + |data| <= |g|
    ensures Block(b, Splice(g, b.cuts[m] - b.Base(), data), n) == if n == m then data else Block(b, g, n)
  {
    hide Splice;
    HullOfBlock(b, m);
    HullOfBlock(b, n);
    assert m + 1 < n ==> b.Before(m + 1, n);
    assert n + 1 < m ==> b.Before(n + 1, m);
    var h := Splice(g, b.cuts[m] - b.Base(), data);
    if n == m {
      SameElements(Block(b, h, n), data);
    } else {
      SameElements(Block(b, h, n), Block(b, g, n));
    }
  }

  /** Splicing changes nothing outside the spliced addresses. */
  lemma SpliceSameOutside(b: Board, f: seq<byte>, lo: nat, data: seq<byte>)
    requires b.Valid() && |f| == b.Size() && b.Base() <= lo && lo - b.Base() + |data| <= |f|
    ensures SameOutside(b, f, Splice(f, lo - b.Base(), data), lo, lo + |data|)
  {
    hide Splice;
  }

  lemma BlockByte(b: Board, f: seq<byte>, i: nat, x: nat)
    requires b.Valid() && |f| == b.Size() && i + 1 < |b.cuts| && Inside(b, i, x)
    ensures b.Base() <= b.cuts[i] && x < |f|
    ensures Block(b, f, i)[x - (b.cuts[i] - b.Base())] == f[x]
  {
    HullOfBlock(b, i);
  }

  lemma NextFrame(k: Task, cur: seq<byte>, y: nat)
    requires k.Holds(cur) && y < |cur| && !(k.off <= y < k.off + |k.data|)
    ensures k.Next(cur)[y] == cur[y]
  {
  }

  /** One block's turn leaves the bytes outside the block and outside the region alone. */
  lemma BlockFrame(b: Board, j: Job, f: seq<byte>, i: nat, x: nat)
    requires b.Valid() && j.Fits(b) && |f| == b.Size() && First(b, j) <= i <= Last(b, j) && x < |f|
    requires !InRegion(b, j, x) || b.cuts[i + 1] <= b.Base() + x
    requires Contents(b, j, f, i)[x] == f[x]
    ensures Contents(b, j, f, i + 1)[x] == f[x]
  {
    hide Contents, Splice, Task.Next, TaskOf, Block;
    ContentsStep(b, j, f, i);
    HullOfBlock(b, i);
    TaskShape(b, j, i);
    var at, k, cur := b.cuts[i] - b.Base(), TaskOf(b, j, i), Block(b, f, i);
    if Inside(b, i, x) {
      BlockByte(b, f, i, x);
      NextFrame(k, cur, x - at);
    }
  }

  lemma BlockAhead(b: Board, j: Job, f: seq<byte>, i: nat, n: nat)
    requires b.Valid() && j.Fits(b) && |f| == b.Size() && i <= Last(b, j) + 1
    requires i <= n && n + 1 < |b.cuts|
    ensures Block(b, Contents(b, j, f, i), n) == Block(b, f, n)
  {
    hide Contents;
    HullOfBlock(b, n);
    assert i < n ==> b.Before(i, n);
    forall x | 0 <= x < |f| && b.cuts[n] <= b.Base() + x < b.cuts[n + 1]
      ensures Contents(b, j, f, i)[x] == f[x]
    {
      ContentsFrame(b, j, f, i, x);
    }
  }

  /** One turn of the walk. */
  lemma WalkStep(b: Board, j: Job, f: seq<byte>, i: nat)
    requires b.Valid() && j.Fits(b) && |f| == b.Size() && First(b, j) <= i <= Last(b, j)
    ensures Meets(b, j, i)
    ensures Block(b, Contents(b, j, f, i), i) == Block(b, f, i)
    ensures WalkEvents(b, j, f, i + 1) == WalkEvents(b, j, f, i) + TaskOf(b, j, i).Events(b, Block(b, f, i))
    ensures b.Base() <= b.cuts[i] && b.cuts[i] - b.Base() + BlockSize(b, i) <= |f|
    ensures Contents(b, j, f, i + 1)
            == Splice(Contents(b, j, f, i), b.cuts[i] - b.Base(), TaskOf(b, j, i).Next(Block(b, f, i)))
  {
    hide *;
    EventsStep(b, j, f, i);
    ContentsStep(b, j, f, i);
    BlockAhead(b, j, f, i, i);
  }

  /** Once the region holds the image, the flash is the old one with the image written in. */
  lemma RegionHolds(b: Board, j: Job, f: seq<byte>, i: nat)
    requires b.Valid() && j.Fits(b) && |f| == b.Size() && i <= Last(b, j) + 1
    requires var at := j.addr - b.Base(); Slice(Contents(b, j, f, i), at, |j.image|) == j.image
    ensures Contents(b, j, f, i) == Splice(f, j.addr - b.Base(), j.image)
  {
    hide Contents, Splice, Slice;
    var at := j.addr - b.Base();
    var g := Contents(b, j, f, i);
    forall x | 0 <= x < |f| ensures g[x] == Splice(f, at, j.image)[x] {
      if InRegion(b, j, x) {
        assert Slice(g, at, |j.image|)[x - at] == g[x];
      } else {
        ContentsFrame(b, j, f, i, x);
      }
    }
    SameElements(g, Splice(f, at, j.image));
  }

  /** What the job's share of a block is, in absolute addresses. */
  lemma TaskShape(b: Board, j: Job, i: nat)
    requires b.Valid() && j.Fits(b) && Meets(b, j, i)
    ensures var k := TaskOf(b, j, i);
            var lo, hi := Max(b.cuts[i], j.addr), Min(b.cuts[i + 1], j.End());
            && k.off == lo - b.cuts[i] && k.off + |k.data| == hi - b.cuts[i]
            && k.data == Slice(j.image, lo - j.addr, hi - lo)
            && b.cuts[i] + k.size == b.cuts[i + 1]
            && (k.rule.Always? <==> j.mode.Update?)
            && (k.rule.Compare? <==> j.mode == Patch(None))
            && (k.rule.Told? ==> k.rule.prior == Slice(j.mode.prior.value, lo - j.addr, hi - lo))
  {
    HullOfBlock(b, i);
  }

  /** The walk accepted every block before i. */
  ghost predicate WalkCompletes(b: Board, j: Job, f: seq<byte>, i: nat)
    requires b.Valid() && j.Fits(b) && |f| == b.Size() && i <= Last(b, j) + 1
  {
    forall n :: First(b, j) <= n < i ==> BlockCompletes(b, j, f, n)
  }

  /** Block n ends below 2^32 and the backend accepts every access it needs. */
  ghost predicate BlockCompletes(b: Board, j: Job, f: seq<byte>, n: nat)
    requires b.Valid() && j.Fits(b) && |f| == b.Size() && First(b, j) <= n <= Last(b, j)
  {
    MeetsIsBetween(b, j, n);
    b.cuts[n + 1] < LIMIT32 && TaskOf(b, j, n).Completes(b, Block(b, f, n))
  }

  ghost predicate Runnable(b: Board) {
    b.ops.flashErase && b.ops.flashWrite && b.ops.flashInfo && b.pageSize > 0
  }

  /** What a run without outside failures needs in order to return 0. */
  ghost predicate Succeeds(b: Board, j: Job, f: seq<byte>)
    requires b.Valid() && j.Fits(b) && |f| == b.Size()
  {
    && Runnable(b)
    && WalkCompletes(b, j, f, Stop(b, j))
    && CanRead(b, j.addr, |j.image|)
    && var at := j.addr - b.Base();
       Slice(Contents(b, j, f, Stop(b, j)), at, |j.image|) == j.image
  }

  /** Blocks before i are done, block i may hold anything, everything else is as it was. */
  ghost predicate StoppedIn(b: Board, j: Job, f: seq<byte>, now: seq<byte>, i: nat)
    requires b.Valid() && j.Fits(b) && |f| == b.Size()
  {
    && First(b, j) <= i <= Last(b, j)
    && SameOutside(b, Contents(b, j, f, i), now, b.cuts[i], b.cuts[i + 1])
  }

  /** What a run starts from: the flash contents and the access log so far. */
  datatype Start = Start(f: seq<byte>, log: seq<Event>)

  /** The walk has dealt with exactly the blocks before i: contents g, access log `log`. */
  ghost predicate WalkAt(b: Board, j: Job, s: Start, i: nat, g: seq<byte>, log: seq<Event>)
    requires b.Valid() && j.Fits(b) && |s.f| == b.Size()
  {
    && First(b, j) <= i <= Last(b, j) + 1
    && g == Contents(b, j, s.f, i)
    && log == s.log + WalkEvents(b, j, s.f, i)
  }

  lemma WalkBegins(b: Board, j: Job, s: Start)
    requires b.Valid() && j.Fits(b) && |s.f| == b.Size()
    ensures WalkAt(b, j, s, First(b, j), s.f, s.log)
  {
    WalkStart(b, j, s.f, First(b, j));
  }

  /** Where `pos` stands when the walk has dealt with the blocks before i. */
  ghost function PosAt(b: Board, j: Job, i: nat): nat
    requires b.Valid() && j.Fits(b) && First(b, j) <= i <= Last(b, j) + 1
  {
    if i == First(b, j) then j.addr else b.cuts[i]
  }

  /** The walk's position is short of the region's end exactly while blocks remain, and lies in
      the next of them. */
  lemma PosInBlock(b: Board, j: Job, i: nat)
    requires b.Valid() && j.Fits(b) && First(b, j) <= i <= Last(b, j) + 1
    ensures PosAt(b, j, i) < j.End() <==> i <= Last(b, j)
    ensures i <= Last(b, j) ==>
              Meets(b, j, i) && b.Base() <= PosAt(b, j, i) < b.Limit() &&
              b.Index(PosAt(b, j, i)) == i
  {
    MeetsIsBetween(b, j, i);
    if i <= Last(b, j) {
      HullOfBlock(b, i);
      IndexUnique(b, PosAt(b, j, i), i);
    }
  }

  lemma {:induction false} WalkPrefix(b: Board, j: Job, f: seq<byte>, i: nat, n: nat)
    requires b.Valid() && j.Fits(b) && |f| == b.Size() && i <= n <= Last(b, j) + 1
    ensures WalkEvents(b, j, f, i) <= WalkEvents(b, j, f, n)
    decreases n
  {
    hide WalkEvents;
    if i == n {
    } else {
      WalkPrefix(b, j, f, i, n - 1);
      WalkGrows(b, j, f, n - 1);
    }
  }

  lemma WalkGrows(b: Board, j: Job, f: seq<byte>, i: nat)
    requires b.Valid() && j.Fits(b) && |f| == b.Size() && i <= Last(b, j)
    ensures WalkEvents(b, j, f, i) <= WalkEvents(b, j, f, i + 1)
  {
    hide WalkEvents, Task.Events, TaskOf, Block;
    if i < First(b, j) {
      WalkStart(b, j, f, i);
      WalkStart(b, j, f, i + 1);
    } else {
      EventsStep(b, j, f, i);
    }
  }

  /** The end of a run: contents g, access log `log`. */
  ghost predicate RunOutcome(b: Board, j: Job, s: Start, g: seq<byte>, log: seq<Event>, ok: bool, stuck: nat)
    requires b.Valid() && j.Fits(b) && |s.f| == b.Size()
  {
    && log <= s.log + RunEvents(b, j, s.f)
    && (ok ==> log == s.log + RunEvents(b, j, s.f))
    && (ok ==> g == Splice(s.f, j.addr - b.Base(), j.image))
    && (!ok ==> StoppedIn(b, j, s.f, g, stuck))
  }

  /** A run that ends before its walk starts. */
  lemma NeverStarted(b: Board, j: Job, s: Start)
    requires b.Valid() && j.Fits(b) && |s.f| == b.Size()
    ensures RunOutcome(b, j, s, s.f, s.log, false, First(b, j))
  {
    hide Contents, WalkEvents, RunEvents;
    WalkStart(b, j, s.f, First(b, j));
  }

  /** What a turn did to block i carries the walk on. */
  lemma Advance(b: Board, j: Job, s: Start, i: nat, g: seq<byte>, log: seq<Event>,
                g': seq<byte>, log': seq<Event>)
    requires b.Valid() && j.Fits(b) && |s.f| == b.Size()
    requires WalkAt(b, j, s, i, g, log) && i <= Last(b, j) && Meets(b, j, i)
    requires log' == log + TaskOf(b, j, i).Events(b, Block(b, s.f, i))
    requires var at := b.cuts[i] - b.Base();
             var next := TaskOf(b, j, i).Next(Block(b, s.f, i));
             0 <= at && at + |next| <= |g| && g' == Splice(g, at, next)
    ensures WalkAt(b, j, s, i + 1, g', log')
  {
    hide Contents, WalkEvents, TaskOf, Task.Events, Task.Next, Block, Splice;
    WalkStep(b, j, s.f, i);
  }

  lemma PrefixOfSum(log: seq<Event>, s: seq<Event>, t: seq<Event>, now: seq<Event>)
    requires s <= t && now <= log + s
    ensures now <= log + t
  {
  }

  /** A turn that failed in block i leaves the run stopped there. */
  lemma Fails(b: Board, j: Job, s: Start, i: nat, g: seq<byte>, log: seq<Event>,
              g': seq<byte>, log': seq<Event>)
    requires b.Valid() && j.Fits(b) && |s.f| == b.Size() && j.End() < LIMIT32
    requires WalkAt(b, j, s, i, g, log) && i <= Last(b, j) && Meets(b, j, i)
    requires log' <= log + TaskOf(b, j, i).Events(b, Block(b, s.f, i))
    requires SameOutside(b, g, g', b.cuts[i], b.cuts[i + 1])
    ensures RunOutcome(b, j, s, g', log', false, i)
  {
    hide Contents, WalkEvents, TaskOf, Task.Events, Block;
    EventsStep(b, j, s.f, i);
    assert log + TaskOf(b, j, i).Events(b, Block(b, s.f, i)) == s.log + WalkEvents(b, j, s.f, i + 1);
    WalkPrefix(b, j, s.f, i + 1, Stop(b, j));
    PrefixOfSum(s.log, WalkEvents(b, j, s.f, i + 1), RunEvents(b, j, s.f), log');
  }

  /** Giving up in block i before touching it. */
  lemma StopsHere(b: Board, j: Job, s: Start, i: nat, g: seq<byte>, log: seq<Event>)
    requires b.Valid() && j.Fits(b) && |s.f| == b.Size() && j.End() < LIMIT32
    requires WalkAt(b, j, s, i, g, log) && i <= Last(b, j) && Meets(b, j, i)
    ensures RunOutcome(b, j, s, g, log, false, i)
  {
    hide Contents, WalkEvents, TaskOf, Task.Events, Block, RunOutcome;
    Fails(b, j, s, i, g, log, g, log);
  }

  /** The block a run that walked to its end counts as having stopped in. */
  ghost function Resting(b: Board, j: Job): nat
    requires b.Valid() && j.Fits(b)
  {
    if j.End() == LIMIT32 then First(b, j) else Last(b, j)
  }

  lemma SameAsItself(b: Board, f: seq<byte>, i: nat)
    requires b.Valid() && |f| == b.Size() && i + 1 < |b.cuts|
    ensures SameOutside(b, f, f, b.cuts[i], b.cuts[i + 1])
  {
  }

  lemma RestsAtStop(b: Board, j: Job, f: seq<byte>)
    requires b.Valid() && j.Fits(b) && |f| == b.Size()
    ensures StoppedIn(b, j, f, Contents(b, j, f, Stop(b, j)), Resting(b, j))
  {
    hide Contents, WalkEvents, TaskOf, Task.Next, Block, Splice, SameOutside;
    var m := Last(b, j);
    if j.End() == LIMIT32 {
      SameAsItself(b, f, First(b, j));
      WalkStart(b, j, f, First(b, j));
    } else {
      ContentsStep(b, j, f, m);
      SpliceSameOutside(b, Contents(b, j, f, m), b.cuts[m], TaskOf(b, j, m).Next(Block(b, f, m)));
    }
  }

  /** The closing verify of a run. */
  lemma Closes(b: Board, j: Job, s: Start, g: seq<byte>, log: seq<Event>, log': seq<Event>, ok: bool)
    requires b.Valid() && j.Fits(b) && |s.f| == b.Size()
    requires WalkAt(b, j, s, Stop(b, j), g, log)
    requires log' <= log + ReadEvents(b, j.addr, |j.image|)
    requires ok ==> log' == log + ReadEvents(b, j.addr, |j.image|)
    requires ok ==> Slice(g, j.addr - b.Base(), |j.image|) == j.image
    ensures RunOutcome(b, j, s, g, log', ok, Resting(b, j))
  {
    hide Contents, WalkEvents, ReadEvents, Splice;
    RestsAtStop(b, j, s.f);
    if ok {
      RegionHolds(b, j, s.f, Stop(b, j));
    }
    assert s.log + RunEvents(b, j, s.f) == log + ReadEvents(b, j.addr, |j.image|);
  }
}
