/** Patches one after the other: a patch with nothing to do is silent, a patch can be patched back. */
module Repeats {
  import opened Words
  import opened Nor
  import opened FlashSpec
  import opened Walk
  import opened FlashResults
  import opened Optimality
  import opened Comparison

  /** The contents a run reaches depend on its programs and erases alone. */
  lemma {:induction false} MutationsDecide(b: Board, f: seq<byte>, es: seq<Event>)
    requires b.Valid() && |f| == b.Size() && AllInRange(b, es)
    ensures AllInRange(b, Mutations(es)) && Replay(b, f, Mutations(es)) == Replay(b, f, es)
    decreases |es|
  {
    hide Apply, Event.InRange;
    if es == [] {
    } else {
      var front, e := es[..|es| - 1], es[|es| - 1];
      MutationsDecide(b, f, front);
      KeepsContents(b, Replay(b, f, front), e);
      OneEventReplay(b, Replay(b, f, front), e);
      if e.Mutates() {
        ReplayConcat(b, f, Mutations(front), [e]);
      } else {
        assert Mutations(es) == Mutations(front);
      }
    }
  }

  lemma KeepsContents(b: Board, f: seq<byte>, e: Event)
    requires b.Valid() && |f| == b.Size() && e.InRange(b)
    ensures !e.Mutates() ==> Apply(b, f, e) == f
  {
  }

  /** A block that is as it should be costs a patch no program and no erase. */
  lemma NothingToEdit(b: Board, j: Job, f: seq<byte>, n: nat)
    requires b.Valid() && j.Fits(b) && |f| == b.Size() && j.mode.Patch?
    requires First(b, j) <= n <= Last(b, j) && Goal(b, j, f) == f
    ensures Meets(b, j, n) && TaskOf(b, j, n).Edits(b, Block(b, f, n)) == []
  {
    hide TaskOf, Block, Task.Skips, Task.Want, Goal;
    WantIsGoal(b, j, f, n);
    TaskShape(b, j, n);
  }

  lemma {:induction false} NothingToDo(b: Board, j: Job, f: seq<byte>, i: nat)
    requires b.Valid() && j.Fits(b) && |f| == b.Size() && j.mode.Patch? && Goal(b, j, f) == f
    requires First(b, j) <= i <= Last(b, j) + 1
    ensures Mutations(WalkEvents(b, j, f, i)) == []
    decreases i
  {
    hide WalkEvents, TaskOf, Block, Task.Events, Task.Edits, Goal;
    if i == First(b, j) {
      WalkStart(b, j, f, i);
    } else {
      NothingToDo(b, j, f, i - 1);
      EventsStep(b, j, f, i - 1);
      NothingToEdit(b, j, f, i - 1);
      var k, cur := TaskOf(b, j, i - 1), Block(b, f, i - 1);
      BlockMutations(b, k, cur);
      MutationsConcat(WalkEvents(b, j, f, i - 1), k.Events(b, cur));
    }
  }

  /**
    A patch with no or a true old image programs or erases something exactly when the region does
    not hold the new image yet. In particular, repeating a patch wears no flash.
   */
  lemma QuietIffDone(b: Board, j: Job, f: seq<byte>)
    requires b.Valid() && |f| == b.Size() && Honest(b, j, f) && j.mode.Patch?
    ensures Mutations(WalkEvents(b, j, f, Last(b, j) + 1)) == [] <==> Goal(b, j, f) == f
  {
    hide WalkEvents, Contents, Replay, Mutations, Goal;
    var es := WalkEvents(b, j, f, Last(b, j) + 1);
    LogReplaysToContents(b, j, f, Last(b, j) + 1);
    HonestReachesGoal(b, j, f);
    MutationsDecide(b, f, es);
    ReadsChangeNothing(b, f, []);
    if Goal(b, j, f) == f {
      NothingToDo(b, j, f, Last(b, j) + 1);
    }
  }

  /** The patch that takes a region back to what it held before. */
  ghost function Inverse(b: Board, j: Job, f: seq<byte>): Job
    requires b.Valid() && j.Fits(b) && |f| == b.Size()
  {
    Job(j.addr, Slice(f, j.addr - b.Base(), |j.image|), Patch(Some(j.image)))
  }

  /** Writing back what a splice covered undoes it. */
  lemma SpliceBack<T>(s: seq<T>, at: nat, data: seq<T>)
    requires at + |data| <= |s|
    ensures Slice(Splice(s, at, data), at, |data|) == data
    ensures Splice(Splice(s, at, data), at, Slice(s, at, |data|)) == s
  {
    hide Splice, Slice;
    SameElements(Slice(Splice(s, at, data), at, |data|), data);
    SameElements(Splice(Splice(s, at, data), at, Slice(s, at, |data|)), s);
  }

  lemma GoalIs(b: Board, j: Job, f: seq<byte>)
    requires b.Valid() && j.Fits(b) && |f| == b.Size()
    ensures Goal(b, j, f) == Splice(f, j.addr - b.Base(), j.image)
  {
  }

  /** The region holds the image once the goal is reached. */
  lemma GoalHoldsImage(b: Board, j: Job, f: seq<byte>)
    requires b.Valid() && j.Fits(b) && |f| == b.Size()
    ensures Slice(Goal(b, j, f), j.addr - b.Base(), |j.image|) == j.image
  {
    hide Splice, Slice;
    SpliceBack(f, j.addr - b.Base(), j.image);
  }

  /** The inverse fits, and from contents g that hold the image it is handed a true old image. */
  lemma InverseIsHonest(b: Board, j: Job, f: seq<byte>, g: seq<byte>)
    requires b.Valid() && j.Fits(b) && |f| == b.Size() == |g|
    requires Slice(g, j.addr - b.Base(), |j.image|) == j.image
    ensures Inverse(b, j, f).Fits(b) && Honest(b, Inverse(b, j, f), g)
  {
    hide Slice;
  }

  lemma GoalBack(b: Board, j: Job, f: seq<byte>)
    requires b.Valid() && j.Fits(b) && |f| == b.Size() && Inverse(b, j, f).Fits(b)
    ensures Goal(b, Inverse(b, j, f), Goal(b, j, f)) == f
  {
    hide Splice, Slice, Goal;
    GoalIs(b, j, f);
    GoalIs(b, Inverse(b, j, f), Goal(b, j, f));
    SpliceBack(f, j.addr - b.Base(), j.image);
  }

  /** Patching back with the two images exchanged restores every byte, and the exchanged image is
      a true old image, so all that holds of true old images holds of the way back. */
  lemma PatchBackRestores(b: Board, j: Job, f: seq<byte>)
    requires b.Valid() && |f| == b.Size() && Honest(b, j, f)
    ensures var g, back := Contents(b, j, f, Last(b, j) + 1), Inverse(b, j, f);
            Honest(b, back, g) && Contents(b, back, g, Last(b, back) + 1) == f
  {
    hide Contents, Goal, Inverse;
    HonestReachesGoal(b, j, f);
    GoalHoldsImage(b, j, f);
    InverseIsHonest(b, j, f, Goal(b, j, f));
    GoalBack(b, j, f);
    HonestReachesGoal(b, Inverse(b, j, f), Goal(b, j, f));
  }
}
