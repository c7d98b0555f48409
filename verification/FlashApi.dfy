/**
  The two composite operations as a caller sees them: what they leave in the flash, byte by byte and
  address by address, without the vocabulary of their specification.
 */
module FlashApi {
  import opened Words
  import opened Nor
  import opened FlashSpec
  import opened Backend
  import opened Walk
  import opened FlashCore
  import opened FlashPatch
  import opened FlashResults
  import opened Comparison

  /** A run that issued only reads and loads was quiet. */
  lemma QuietMeans(trace: seq<Event>, trace': seq<Event>)
    requires trace <= trace'
    ensures Quiet(trace, trace') <==> forall k :: |trace| <= k < |trace'| ==> trace'[k].Read? || trace'[k].Load?
  {
  }

  /** The log has grown, and every new entry was made in the present halt state. */
  lemma LoggedMeans(t: Target, trace: seq<Event>, haltedAt: seq<bool>)
    requires Logged(t, trace, haltedAt)
    ensures trace <= t.trace && |t.haltedAt| == |t.trace|
    ensures forall k :: |trace| <= k < |t.trace| ==> t.haltedAt[k] == t.halted
  {
  }

  /** A flash below 2^32 behind the operations a run needs, whose blocks and reported granularity are
      whole program units of the part. */
  ghost predicate Programmable(b: Board)
    requires b.Valid()
  {
    && b.cuts[|b.cuts| - 1] < 0x1_0000_0000
    && b.ops.flashInfo && b.ops.flashErase && b.ops.flashWrite && (b.ops.flashRead || b.ops.read8)
    && b.pageSize > 0 && (if b.writeAlign == 0 then 1 else b.writeAlign) % b.unit == 0
    && forall i :: 0 <= i < |b.cuts| ==> b.cuts[i] % b.unit == 0
  }

  lemma ProgrammableSucceeds(b: Board, j: Job, f: seq<byte>)
    requires b.Valid() && |f| == b.Size() && Programmable(b) && Honest(b, j, f)
    ensures Succeeds(b, j, f)
  {
    hide Succeeds, Honest;
    HonestAlwaysSucceeds(b, j, f);
  }

  /** hw_flash_update, as seen by its caller. */
  method UpdateRegion(t: Target, addr: nat, image: seq<byte>) returns (ok: bool, ghost stuck: nat)
    requires t.Valid() && addr < LIMIT32
    modifies t, t.flash
    ensures t.Valid()
    // On success exactly the region has changed.
    ensures ok ==>
              var f, g, base := old(t.flash[..]), t.flash[..], t.board.cuts[0];
              forall x :: 0 <= x < |g| ==>
                g[x] == if addr <= base + x < addr + |image| then image[base + x - addr] else f[x]
    // On failure one block is in progress: the region below it is done, all else is untouched.
    ensures !ok ==> stuck + 1 < |t.board.cuts|
    ensures !ok ==>
              var f, g, base := old(t.flash[..]), t.flash[..], t.board.cuts[0];
              forall x :: 0 <= x < |g| && !(t.board.cuts[stuck] <= base + x < t.board.cuts[stuck + 1])
                          && (t.board.cuts[stuck] <= base + x || !(addr <= base + x < addr + |image|)) ==>
                g[x] == f[x]
    ensures !ok ==>
              var g, base := t.flash[..], t.board.cuts[0];
              forall x :: 0 <= x < |g| && addr <= base + x < addr + |image| && base + x < t.board.cuts[stuck] ==>
                g[x] == image[base + x - addr]
    // Nothing changes without a program or an erase, and those are made while the core is halted.
    ensures old(t.trace) <= t.trace && |t.haltedAt| == |t.trace|
    ensures (forall k :: |old(t.trace)| <= k < |t.trace| ==> t.trace[k].Read? || t.trace[k].Load?) ==>
              t.flash[..] == old(t.flash[..])
    ensures t.board.ops.boardHalt ==> forall k :: |old(t.trace)| <= k < |t.trace| ==> t.haltedAt[k]
    ensures t.board.ops.boardHalt && ok && image != [] ==> t.halted
    // Without outside failures it succeeds on every range inside a served flash below 2^32, and on no other.
    ensures ok && image != [] ==>
              t.board.cuts[0] <= addr && addr + |image| <= t.board.cuts[|t.board.cuts| - 1]
    ensures && old(t.Healthy()) && Programmable(t.board)
            && t.board.cuts[0] <= addr && addr + |image| <= t.board.cuts[|t.board.cuts| - 1] ==>
              ok
  {
    hide Logged, Target.Healthy, Splice, Slice, RunOutcome, Succeeds, Quiet, Programmable, WalkEvents, ReadEvents,
      Stop;
    ghost var b, j, f, log := t.board, Job(addr, image, Update), t.flash[..], t.trace;
    if Programmable(b) && j.Fits(b) { ProgrammableSucceeds(b, j, f); }
    ok, stuck := HwFlashUpdate(t, addr, image);
    LoggedMeans(t, log, old(t.haltedAt));
    QuietMeans(log, t.trace);
    if j.Fits(b) {
      OutcomeMeans(b, j, Start(f, log), t.flash[..], t.trace, ok, stuck);
    } else {
      stuck := 0;
    }
  }

  /** The old image is NULL or what the flash holds from position `at` on. */
  ghost predicate NullOrTrue(prior: Option<seq<byte>>, f: seq<byte>, at: int) {
    prior.Some? ==>
      0 <= at && at + |prior.value| <= |f| && forall y :: 0 <= y < |prior.value| ==> prior.value[y] == f[at + y]
  }

  lemma TruthIsHonest(b: Board, j: Job, f: seq<byte>)
    requires b.Valid() && |f| == b.Size() && j.Fits(b) && j.mode.Patch?
    ensures NullOrTrue(j.mode.prior, f, j.addr - b.cuts[0]) <==> Honest(b, j, f)
  {
    hide Slice;
    var at := j.addr - b.Base();
    if j.mode.prior.Some? && NullOrTrue(j.mode.prior, f, at) {
      SameElements(j.mode.prior.value, Slice(f, at, |j.image|));
    }
  }

  /** The counters a patch hands out, whether or not it succeeded. */
  lemma CountersMean(b: Board, j: Job, f: seq<byte>, i: nat, stats: Stats)
    requires b.Valid() && j.Fits(b) && |f| == b.Size() && j.mode.Patch?
    requires CountedUpTo(b, j, f, i, stats) || stats == StatsAt(b, j, f, Stop(b, j))
    ensures stats.erased <= stats.changed <= stats.total
    ensures stats == StatsAt(b, j, f, Stop(b, j)) && j.End() < LIMIT32 ==>
              stats.total == |set n: nat | n < |b.cuts| && Meets(b, j, n)|
  {
    hide StatsAt, Meets;
    StatsMeaning(b, j, f);
    if CountedUpTo(b, j, f, i, stats) { StatsMeaningAt(b, j, f, i); }
  }

  /** hw_flash_patch, as seen by its caller. What it says of the part of the region below a failed block
      and of success needs an old image that is NULL or true. */
  method PatchRegion(t: Target, addr: nat, prior: Option<seq<byte>>, image: seq<byte>)
    returns (ok: bool, stats: Stats, ghost stuck: nat)
    requires t.Valid() && addr < LIMIT32
    requires prior.Some? ==> |prior.value| == |image|
    modifies t, t.flash
    ensures t.Valid()
    // On success exactly the region has changed.
    ensures ok ==>
              var f, g, base := old(t.flash[..]), t.flash[..], t.board.cuts[0];
              forall x :: 0 <= x < |g| ==>
                g[x] == if addr <= base + x < addr + |image| then image[base + x - addr] else f[x]
    // On failure one block is in progress: the region below it is done, all else is untouched.
    ensures !ok ==> stuck + 1 < |t.board.cuts|
    ensures !ok ==>
              var f, g, base := old(t.flash[..]), t.flash[..], t.board.cuts[0];
              forall x :: 0 <= x < |g| && !(t.board.cuts[stuck] <= base + x < t.board.cuts[stuck + 1])
                          && (t.board.cuts[stuck] <= base + x || !(addr <= base + x < addr + |image|)) ==>
                g[x] == f[x]
    ensures !ok && NullOrTrue(prior, old(t.flash[..]), addr - t.board.cuts[0]) ==>
              var g, base := t.flash[..], t.board.cuts[0];
              forall x :: 0 <= x < |g| && addr <= base + x < addr + |image| && base + x < t.board.cuts[stuck] ==>
                g[x] == image[base + x - addr]
    // Nothing changes without a program or an erase, and those are made while the core is halted.
    ensures old(t.trace) <= t.trace && |t.haltedAt| == |t.trace|
    ensures (forall k :: |old(t.trace)| <= k < |t.trace| ==> t.trace[k].Read? || t.trace[k].Load?) ==>
              t.flash[..] == old(t.flash[..])
    ensures t.board.ops.boardHalt ==> forall k :: |old(t.trace)| <= k < |t.trace| ==> t.haltedAt[k]
    ensures t.board.ops.boardHalt && ok && image != [] ==> t.halted
    // Without outside failures it succeeds on every range inside a served flash below 2^32, and on no other.
    ensures ok && image != [] ==>
              t.board.cuts[0] <= addr && addr + |image| <= t.board.cuts[|t.board.cuts| - 1]
    ensures && old(t.Healthy()) && Programmable(t.board)
            && t.board.cuts[0] <= addr && addr + |image| <= t.board.cuts[|t.board.cuts| - 1]
            && NullOrTrue(prior, old(t.flash[..]), addr - t.board.cuts[0]) ==>
              ok
    // The counters.
    ensures stats.erased <= stats.changed <= stats.total
    ensures ok && image != [] && addr + |image| < 0x1_0000_0000 ==>
              stats.total == |set n: nat | n < |t.board.cuts| && Meets(t.board, Job(addr, image, Patch(prior)), n)|
  {
    hide Logged, Target.Healthy, Splice, Slice, RunOutcome, Succeeds, Quiet, Programmable, StatsAt, CountedUpTo,
      Honest, NullOrTrue, Meets, WalkEvents, ReadEvents, Stop;
    ghost var b, j, f, log := t.board, Job(addr, image, Patch(prior)), t.flash[..], t.trace;
    if j.Fits(b) { TruthIsHonest(b, j, f); }
    if Programmable(b) && j.Fits(b) && NullOrTrue(prior, f, addr - b.cuts[0]) { ProgrammableSucceeds(b, j, f); }
    ok, stats, stuck := HwFlashPatch(t, addr, prior, image);
    LoggedMeans(t, log, old(t.haltedAt));
    QuietMeans(log, t.trace);
    if j.Fits(b) {
      OutcomeMeans(b, j, Start(f, log), t.flash[..], t.trace, ok, stuck);
      CountersMean(b, j, f, stuck, stats);
    } else {
      stuck := 0;
    }
  }
}
