/** The counters of a patch run: how each block adds to them, and what bounds them. */
module Accounting {
  import opened Words
  import opened Nor
  import opened FlashSpec
  import opened Walk

  lemma {:induction false} LoadsTally(b: Board, addr: nat, len: nat)
    ensures TallyOf(Loads(b, addr, len)).erases == 0 && TallyOf(Loads(b, addr, len)).written == 0
    decreases len
  {
    hide TallyOf, Loads;
    TallyOfNone();
    LoadsUnfold(b, addr, len);
    if len == 0 {
    } else {
      var width := if addr % 4 == 0 && len >= 4 && b.ops.read32 then 4 else 1;
      var e := Load(addr, width);
      LoadsTally(b, addr + width, len - width);
      TallyConcat([e], Loads(b, addr + width, len - width));
      TallyOfOne(e);
    }
  }

  lemma ReadsTally(b: Board, addr: nat, len: nat)
    ensures TallyOf(ReadEvents(b, addr, len)).erases == 0 && TallyOf(ReadEvents(b, addr, len)).written == 0
  {
    hide TallyOf, Loads;
    LoadsTally(b, addr, len);
    TallyOfNone();
    TallyOfOne(Read(addr, len));
  }

  /** What a tally counts: the erases, the bytes of all programs and the single-byte loads. */
  lemma TallyCounts(es: seq<Event>, e: Event)
    ensures TallyOf([]) == Tally(0, 0, 0)
    ensures var before, after := TallyOf(es), TallyOf(es + [e]);
            && after.erases == before.erases + (if e.Erase? then 1 else 0)
            && after.written == before.written + (if e.Program? then |e.data| else 0)
            && after.byteLoads == before.byteLoads + (if e.Load? && e.width == 1 then 1 else 0)
  {
    hide TallyOf;
    TallyOfNone();
    TallyConcat(es, [e]);
    TallyOfOne(e);
  }

  /** A patched block costs at most one erase and its own size in programmed bytes; a skipped one
      costs nothing. */
  lemma BlockSpends(b: Board, k: Task, cur: seq<byte>)
    requires k.Holds(cur) && !k.rule.Always?
    ensures TallyOf(k.Edits(b, cur)).erases <= if k.Skips(cur) then 0 else 1
    ensures TallyOf(k.Edits(b, cur)).written <= if k.Skips(cur) then 0 else k.size
    ensures TallyOf(k.Events(b, cur)).erases == TallyOf(k.Edits(b, cur)).erases
    ensures TallyOf(k.Events(b, cur)).written == TallyOf(k.Edits(b, cur)).written
  {
    hide Task.Want, Clears, WindowLo, WindowHi, TallyOf, ReadEvents;
    TallyOfNone();
    TallyConcat(k.Reads(b, cur), k.Edits(b, cur));
    ReadsTally(b, k.base, k.size);
    var want := k.Want(cur);
    TallyOfPair(Erase(k.base, |cur|), Program(k.base, want));
    if !k.Skips(cur) && want != cur && Clears(cur, want) {
      DiffersInside(cur, want);
      TallyOfOne(k.Edits(b, cur)[0]);
    }
  }

  lemma StatsStep(b: Board, j: Job, f: seq<byte>, i: nat)
    requires b.Valid() && j.Fits(b) && |f| == b.Size() && j.mode.Patch?
    requires First(b, j) <= i <= Last(b, j)
    ensures Meets(b, j, i)
    ensures var before := StatsAt(b, j, f, i);
            StatsAt(b, j, f, i + 1)
            == CountBlock(b, TaskOf(b, j, i), Block(b, f, i), before.(total := before.total + 1))
  {
    hide WalkEvents, TaskOf, Block, Task.Events, Task.Edits, TallyOf;
    EventsStep(b, j, f, i);
    TaskShape(b, j, i);
    var k, cur := TaskOf(b, j, i), Block(b, f, i);
    BlockSpends(b, k, cur);
    TallyConcat(WalkEvents(b, j, f, i), k.Events(b, cur));
  }

  lemma StatsStart(b: Board, j: Job, f: seq<byte>)
    requires b.Valid() && j.Fits(b) && |f| == b.Size()
    ensures StatsAt(b, j, f, First(b, j)) == Stats(0, 0, 0, 0)
  {
    WalkStart(b, j, f, First(b, j));
  }

  /** The counters stay ordered and below the number of bytes walked over. */
  lemma {:induction false} StatsBounded(b: Board, j: Job, f: seq<byte>, i: nat)
    requires b.Valid() && j.Fits(b) && |f| == b.Size() && j.mode.Patch?
    requires First(b, j) <= i <= Last(b, j) + 1
    ensures var s := StatsAt(b, j, f, i);
            && s.erased <= s.changed <= s.total == i - First(b, j)
            && s.total <= b.cuts[i] - b.cuts[First(b, j)]
            && s.written <= b.cuts[i] - b.cuts[First(b, j)]
    decreases i
  {
    hide WalkEvents, TaskOf, Block, Task.Events, Task.Edits, TallyOf, StatsAt;
    if i == First(b, j) {
      StatsStart(b, j, f);
    } else {
      StatsBounded(b, j, f, i - 1);
      StatsStep(b, j, f, i - 1);
      TaskShape(b, j, i - 1);
      HullOfBlock(b, i - 1);
      BlockSpends(b, TaskOf(b, j, i - 1), Block(b, f, i - 1));
    }
  }
}
