/** core/hw_state.c: which state a target implements, decided from evidence and never from a read,
    and the transfer of core registers through DCRSR and DCRDR. */
module StateQuery {
  import opened Words
  import opened Fields

  const DCRSR: nat := 0xE000_EDF4
  const DCRDR: nat := 0xE000_EDF8
  const DHCSR: nat := 0xE000_EDF0
  const S_REGRDY: bv32 := 0x0001_0000
  const MAX_POLLS: nat := 100

  datatype Namespace = Arch | Cpu | DebugBlock | Cluster | Undocumented

  datatype EncKind = Absolute | Offset | SysM | CoreNumber | FpSysReg

  /** hw_state_desc_t; `address` is the encoding when its text starts with 0x. */
  datatype Desc = Desc(name: string, ns: Namespace, memoryMapped: bool, encKind: EncKind,
                       address: Option<nat>, readable: bool, feature: string, component: string)

  /** The part of hw_cpu_features_t the feature rules look at. */
  datatype Features = Features(fpExtension: nat, mpu: nat, dwtNumcomp: nat)

  /** hw_state_dbgreg_t: lsb and width are 8-bit numbers. */
  datatype DbgReg = DbgReg(name: string, regsel: nat, lsb: bv8, width: bv8)

  datatype Component = Component(name: string, base: nat)

  datatype Db = Db(dbgregs: seq<DbgReg>, components: seq<Component>)

  datatype Presence =
    Unknown | Architectural | ConfigConfirmed | ConfigDenied | Discovered | DiscoveryAbsent

  datatype ReadStatus = NotAttempted | ReadOk | BackendUnsupported | Unsafe | AccessDenied | ReadFailed

  datatype Result = Result(presence: Presence, read: ReadStatus, value: bv32, valueIsZero: bool)

  // ----- The target -----

  /** How a word of memory answers a load. */
  datatype Reply = Silent | Answer(value: bv32)

  datatype Access = Fetch(addr: nat) | Store(addr: nat, value: nat)

  /** A register transfer under way: the register, and the polls that still find it not ready. */
  datatype Transfer = Transfer(regsel: nat, left: nat)

  /**
    A target behind a debug port. Plain addresses answer a fixed word or fail. Writing DCRSR
    starts a transfer and clears S_REGRDY; polling DHCSR finds it set again after a delay that
    depends on the register, and only then does DCRDR hold the new value. `fails(n)` says that the
    n-th access to the three port registers fails.
   */
  class CoreTarget {
    const word: nat -> Reply
    const regs: nat -> bv32
    const delay: nat -> nat
    const fails: nat -> bool
    const otherFlags: bv32
    var halted: bool
    var dcrdr: bv32
    var transfer: Option<Transfer>
    var clock: nat
    ghost var log: seq<Access>

    constructor (word: nat -> Reply, regs: nat -> bv32, delay: nat -> nat, fails: nat -> bool,
                 otherFlags: bv32, halted: bool, dcrdr: bv32)
      ensures this.word == word && this.regs == regs && this.delay == delay && this.fails == fails
      ensures this.halted == halted && this.dcrdr == dcrdr && log == [] && clock == 0
    {
      this.word, this.regs, this.delay, this.fails := word, regs, delay, fails;
      this.otherFlags, this.halted, this.dcrdr := otherFlags, halted, dcrdr;
      transfer, clock, log := None, 0, [];
    }

    /** hw_read32 on anything but the port registers. */
    method ReadPlain(addr: nat) returns (ok: bool, v: bv32)
      modifies this`log
      ensures log == old(log) + [Fetch(addr)]
      ensures ok <==> word(addr).Answer?
      ensures ok ==> v == word(addr).value
    {
      log := log + [Fetch(addr)];
      ok := word(addr).Answer?;
      v := if ok then word(addr).value else 0;
    }

    method ReadDhcsr() returns (ok: bool, v: bv32)
      modifies this`dcrdr, this`transfer, this`clock, this`log
      ensures log == old(log) + [Fetch(DHCSR)] && clock == old(clock) + 1
      ensures ok <==> !fails(old(clock))
      ensures !ok ==> transfer == old(transfer) && dcrdr == old(dcrdr)
      ensures ok ==> (v & S_REGRDY != 0 <==> (old(transfer).None? || old(transfer).value.left == 0))
      ensures ok && old(transfer).Some? && old(transfer).value.left == 0 ==>
                transfer == None && dcrdr == regs(old(transfer).value.regsel)
      ensures ok && old(transfer).Some? && old(transfer).value.left > 0 ==>
                transfer == Some(Transfer(old(transfer).value.regsel, old(transfer).value.left - 1)) &&
                dcrdr == old(dcrdr)
      ensures ok && old(transfer).None? ==> transfer == None && dcrdr == old(dcrdr)
    {
      log := log + [Fetch(DHCSR)];
      ok, v := !fails(clock), 0;
      clock := clock + 1;
      if !ok { return; }
      if transfer.Some? && transfer.value.left > 0 {
        transfer := Some(transfer.value.(left := transfer.value.left - 1));
        v := NotReady(otherFlags);
      } else {
        if transfer.Some? { dcrdr := regs(transfer.value.regsel); }
        transfer := None;
        v := Ready(otherFlags);
      }
    }

    method ReadDcrdr() returns (ok: bool, v: bv32)
      modifies this`clock, this`log
      ensures log == old(log) + [Fetch(DCRDR)] && clock == old(clock) + 1
      ensures ok <==> !fails(old(clock))
      ensures ok ==> v == dcrdr
    {
      log := log + [Fetch(DCRDR)];
      ok, v := !fails(clock), dcrdr;
      clock := clock + 1;
    }

    method WriteDcrsr(regsel: nat) returns (ok: bool)
      modifies this`transfer, this`clock, this`log
      ensures log == old(log) + [Store(DCRSR, regsel)] && clock == old(clock) + 1
      ensures ok <==> !fails(old(clock))
      ensures ok ==> transfer == Some(Transfer(regsel, delay(regsel)))
    {
      log := log + [Store(DCRSR, regsel)];
      ok := !fails(clock);
      clock := clock + 1;
      if ok { transfer := Some(Transfer(regsel, delay(regsel))); }
    }

    /** hw_read32. */
    method Read32(addr: nat) returns (ok: bool, v: bv32)
      modifies this`dcrdr, this`transfer, this`clock, this`log
      ensures log == old(log) + [Fetch(addr)]
      ensures !Port(addr) ==> word(addr) == if ok then Answer(v) else Silent
      ensures !Port(addr) ==> dcrdr == old(dcrdr) && transfer == old(transfer) && clock == old(clock)
    {
      if addr == DHCSR {
        ok, v := ReadDhcsr();
      } else if addr == DCRDR {
        ok, v := ReadDcrdr();
      } else {
        ok, v := ReadPlain(addr);
      }
    }
  }

  /** The registers whose reads depend on a transfer under way. */
  predicate Port(addr: nat) { addr == DHCSR || addr == DCRDR }

  function Ready(flags: bv32): (r: bv32)
    ensures r & S_REGRDY != 0
  {
    flags | S_REGRDY
  }

  function NotReady(flags: bv32): (r: bv32)
    ensures r & S_REGRDY == 0
  {
    flags & !S_REGRDY
  }

  // ----- Register transfers -----

  /** The polling loop: at most 100 reads of DHCSR until S_REGRDY is set. */
  method PollReady(t: CoreTarget) returns (ok: bool, ready: bool)
    requires t.transfer.Some?
    modifies t`dcrdr, t`transfer, t`clock, t`log
    ensures ok && ready <==>
              var d := old(t.transfer).value.left;
              d < 100 && forall k :: old(t.clock) <= k <= old(t.clock) + d ==> !t.fails(k)
    ensures ok && ready ==>
              t.dcrdr == t.regs(old(t.transfer).value.regsel) &&
              t.clock == old(t.clock) + old(t.transfer).value.left + 1 &&
              |t.log| == |old(t.log)| + old(t.transfer).value.left + 1
    ensures old(t.log) <= t.log && |t.log| <= |old(t.log)| + 100
    ensures forall k :: |old(t.log)| <= k < |t.log| ==> t.log[k] == Fetch(0xE000_EDF0)
  {
    ghost var d, sel, c := t.transfer.value.left, t.transfer.value.regsel, t.clock;
    var spin := 0;
    ok, ready := true, false;
    while spin < MAX_POLLS && !ready
      invariant 0 <= spin <= MAX_POLLS && t.clock == c + spin
      invariant forall k :: c <= k < c + spin ==> !t.fails(k)
      invariant !ready ==> spin <= d && t.transfer == Some(Transfer(sel, d - spin))
      invariant ready ==> spin == d + 1 && t.dcrdr == t.regs(sel)
      invariant old(t.log) <= t.log && |t.log| == |old(t.log)| + spin
      invariant forall k :: |old(t.log)| <= k < |t.log| ==> t.log[k] == Fetch(0xE000_EDF0)
    {
      var dhcsr;
      ok, dhcsr := t.ReadDhcsr();
      if !ok { return; }
      ready := dhcsr & S_REGRDY != 0;
      spin := spin + 1;
    }
  }

  /**
    hw_state_read_dbgreg: succeeds exactly when the target is halted, every access succeeds and
    ready appears within 100 polls; the value is then the field of the selected register and
    never what DCRDR held before.
   */
  method ReadDbgReg(t: CoreTarget, reg: DbgReg) returns (ok: bool, value: bv32, why: ReadStatus)
    requires reg.lsb < 32
    modifies t`dcrdr, t`transfer, t`clock, t`log
    ensures ok <==> t.halted && t.delay(reg.regsel) < 100
                    && forall k :: old(t.clock) <= k <= old(t.clock) + t.delay(reg.regsel) + 2 ==> !t.fails(k)
    ensures why == if ok then ReadOk else if t.halted then ReadFailed else Unsafe
    // The value: the register divided by 2^lsb, and of that the `width` lowest binary digits.
    ensures ok && reg.width >= 32 ==> value == Halved(t.regs(reg.regsel), reg.lsb)
    ensures ok && reg.width <= 32 ==> value == LowDigits(Halved(t.regs(reg.regsel), reg.lsb), reg.width)
    ensures ok && reg.lsb == 0 && reg.width == 32 ==> value == t.regs(reg.regsel)
    ensures ok && reg.lsb == 0 && reg.width == 9 ==> value == t.regs(reg.regsel) % 0x200
    ensures ok && reg.lsb == 0 && reg.width == 8 ==> value == t.regs(reg.regsel) % 0x100
    ensures ok && reg.lsb == 8 && reg.width == 8 ==> value == (t.regs(reg.regsel) / 0x100) % 0x100
    ensures ok && reg.lsb == 16 && reg.width == 8 ==> value == (t.regs(reg.regsel) / 0x1_0000) % 0x100
    ensures ok && reg.lsb == 24 && reg.width == 8 ==> value == t.regs(reg.regsel) / 0x100_0000
    // The accesses: the selection, the polls, the data; none at all on a running target.
    ensures !t.halted ==> t.log == old(t.log) && t.transfer == old(t.transfer)
    ensures old(t.log) <= t.log && |t.log| <= |old(t.log)| + 102
    ensures ok ==>
              var c, d := |old(t.log)|, t.delay(reg.regsel);
              && |t.log| == c + d + 3 && t.log[c] == Store(0xE000_EDF4, reg.regsel)
              && (forall k :: c < k <= c + d + 1 ==> t.log[k] == Fetch(0xE000_EDF0))
              && t.log[c + d + 2] == Fetch(0xE000_EDF8)
  {
    hide Field, Halved, LowDigits;
    value, ok := 0, false;
    if !t.halted { return false, 0, Unsafe; }
    why := ReadFailed;
    ok := t.WriteDcrsr(reg.regsel);
    if !ok { return; }
    var ready;
    ok, ready := PollReady(t);
    if !ok || !ready { return false, 0, ReadFailed; }
    var v;
    ok, v := t.ReadDcrdr();
    if !ok { return; }
    FieldDigits(v, reg.lsb, reg.width);
    TableFields(v);
    value, why := Field(v, reg.lsb, reg.width), ReadOk;
  }

  // ----- Presence -----

  /** hw_state_expected: 1, 0, the flag's own value, or -1 for a rule nobody knows. */
  function Expected(desc: Desc, f: Option<Features>): int {
    if desc.feature == "" then 1
    else if f.None? then 1
    else if desc.feature == "FP_EXTENSION" then f.value.fpExtension
    else if desc.feature == "MPU" then f.value.mpu
    else if desc.feature == "IMPDEF:DWT_CTRL.NUMCOMP" then (if f.value.dwtNumcomp > 0 then 1 else 0)
    else -1
  }

  ghost predicate NoComponent(cs: seq<Component>, name: string) {
    forall c :: c in cs ==> c.name != name
  }

  /** find_component: a hit carries the name; a miss means that no component does. */
  function FindComponent(cs: seq<Component>, name: string): (r: Option<Component>)
    ensures r.Some? ==> r.value in cs && r.value.name == name != ""
    ensures r.None? <==> name == "" || NoComponent(cs, name)
  {
    if name == "" || cs == [] then None
    else if cs[0].name == name then Some(cs[0])
    else FindComponent(cs[1..], name)
  }

  /** The component of the first database that knows the name. */
  function FindBlock(dbs: seq<Db>, name: string): (r: Option<Component>)
    ensures r.None? <==> name == "" || forall k :: 0 <= k < |dbs| ==> NoComponent(dbs[k].components, name)
    ensures r.Some? ==>
              r.value.name == name &&
              exists k :: 0 <= k < |dbs| && r.value in dbs[k].components &&
                          forall m :: 0 <= m < k ==> NoComponent(dbs[m].components, name)
  {
    if dbs == [] then None
    else
      var c := FindComponent(dbs[0].components, name);
      if c.Some? then c
      else
        var rest := dbs[1..];
        var r := FindBlock(rest, name);
        assert forall k :: 0 <= k < |rest| ==> rest[k] == dbs[k + 1];
        assert forall m :: 0 < m < |dbs| ==> dbs[m] == rest[m - 1];
        assert r.Some? ==>
            var k :| 0 <= k < |rest| && r.value in rest[k].components &&
                     forall m :: 0 <= m < k ==> NoComponent(rest[m].components, name);
            r.value in dbs[k + 1].components &&
            forall m :: 0 <= m < k + 1 ==> NoComponent(dbs[m].components, name);
        r
  }

  function IdAddress(base: nat, k: nat): nat { U32(base + 0xFF0 + 4 * k) }

  datatype Found = Absent | There | Unreadable

  /** The verdict on a block, from the answers of its four component ID words. */
  function Identify(word: nat -> Reply, base: nat): Found {
    Judge(word(IdAddress(base, 0)), word(IdAddress(base, 1)), word(IdAddress(base, 2)), word(IdAddress(base, 3)))
  }

  /** The CoreSight preamble. */
  function Judge(c0: Reply, c1: Reply, c2: Reply, c3: Reply): Found {
    if c0.Silent? || c1.Silent? || c2.Silent? || c3.Silent? then Unreadable
    else if c0.value & 0xFF == 0x0D && c1.value & 0x0F == 0x00
         && c2.value & 0xFF == 0x05 && c3.value & 0xFF == 0xB1 then There
    else Absent
  }

  /** What decides presence: the feature rule, else the block's ID words, else the architecture. */
  function Verdict(dbs: seq<Db>, desc: Desc, f: Option<Features>, word: nat -> Reply): Presence {
    if desc.feature != "" then
      var rule := Expected(desc, f);
      if rule == 1 then ConfigConfirmed else if rule == 0 then ConfigDenied else Unknown
    else if desc.ns == DebugBlock then
      match FindBlock(dbs, desc.component)
      case None => Unknown
      case Some(c) =>
        match Identify(word, c.base)
        case There => Discovered
        case Absent => DiscoveryAbsent
        case Unreadable => Unknown
    else if desc.ns == Arch then Architectural
    else Unknown
  }

  /** The addresses presence may look at. */
  ghost function Evidence(dbs: seq<Db>, desc: Desc): set<nat> {
    if desc.feature != "" || desc.ns != DebugBlock then {}
    else
      match FindBlock(dbs, desc.component)
      case None => {}
      case Some(c) => set k: nat | k < 4 :: IdAddress(c.base, k)
  }

  lemma IdsAre(base: nat)
    ensures IdAddress(base, 0) == (base + 0xFF0) % 0x1_0000_0000
    ensures IdAddress(base, 1) == (base + 0xFF4) % 0x1_0000_0000
    ensures IdAddress(base, 2) == (base + 0xFF8) % 0x1_0000_0000
    ensures IdAddress(base, 3) == (base + 0xFFC) % 0x1_0000_0000
  {
  }

  lemma EvidenceMeans(dbs: seq<Db>, desc: Desc, a: nat)
    ensures a in Evidence(dbs, desc) <==>
              && desc.feature == "" && desc.ns == DebugBlock && FindBlock(dbs, desc.component).Some?
              && var base := FindBlock(dbs, desc.component).value.base;
                 || a == (base + 0xFF0) % 0x1_0000_0000 || a == (base + 0xFF4) % 0x1_0000_0000
                 || a == (base + 0xFF8) % 0x1_0000_0000 || a == (base + 0xFFC) % 0x1_0000_0000
  {
    hide IdAddress, FindBlock;
    if desc.feature == "" && desc.ns == DebugBlock && FindBlock(dbs, desc.component).Some? {
      IdsAre(FindBlock(dbs, desc.component).value.base);
      var base := FindBlock(dbs, desc.component).value.base;
      assert IdAddress(base, 0) in Evidence(dbs, desc) && IdAddress(base, 1) in Evidence(dbs, desc);
      assert IdAddress(base, 2) in Evidence(dbs, desc) && IdAddress(base, 3) in Evidence(dbs, desc);
    }
  }

  /** Presence is independent of reads: targets that agree on the block's ID words agree on it. */
  lemma PresenceNonInterference(dbs: seq<Db>, desc: Desc, f: Option<Features>,
                                w: nat -> Reply, w': nat -> Reply)
    requires forall a :: a in Evidence(dbs, desc) ==> w(a) == w'(a)
    ensures Verdict(dbs, desc, f, w) == Verdict(dbs, desc, f, w')
  {
    hide U32, IdAddress, FindBlock, Expected;
    if desc.feature == "" && desc.ns == DebugBlock {
      match FindBlock(dbs, desc.component)
      case None =>
      case Some(c) =>
        assert forall k: nat :: k < 4 ==> IdAddress(c.base, k) in Evidence(dbs, desc);
        assert w(IdAddress(c.base, 0)) == w'(IdAddress(c.base, 0));
        assert w(IdAddress(c.base, 1)) == w'(IdAddress(c.base, 1));
        assert w(IdAddress(c.base, 2)) == w'(IdAddress(c.base, 2));
        assert w(IdAddress(c.base, 3)) == w'(IdAddress(c.base, 3));
    }
  }

  /** Every access of the log since `before` is a fetch from one of the addresses. */
  ghost predicate FetchedOnly(before: seq<Access>, log: seq<Access>, from: set<nat>) {
    && before <= log
    && forall k :: |before| <= k < |log| ==> log[k].Fetch? && log[k].addr in from
  }

  /** None of the ID words is a port register. */
  ghost predicate OffPorts(from: set<nat>) { DHCSR !in from && DCRDR !in from }

  /** The blocks of the generated tables, whose bases are multiples of 4 KB, keep off the ports. */
  lemma PagedBlocksAreOffPorts(dbs: seq<Db>, desc: Desc)
    requires forall k, c :: 0 <= k < |dbs| && c in dbs[k].components ==> c.base % 0x1000 == 0 && c.base < LIMIT32
    ensures OffPorts(Evidence(dbs, desc))
  {
  }

  lemma IdsApart(base: nat)
    ensures IdAddress(base, 0) != IdAddress(base, 1) && IdAddress(base, 0) != IdAddress(base, 2)
    ensures IdAddress(base, 0) != IdAddress(base, 3) && IdAddress(base, 1) != IdAddress(base, 2)
    ensures IdAddress(base, 1) != IdAddress(base, 3) && IdAddress(base, 2) != IdAddress(base, 3)
  {
  }

  /** The words w, but for one that answered v. */
  ghost function With(w: nat -> Reply, addr: nat, v: Reply): (r: nat -> Reply)
    ensures r(addr) == v && forall a :: a != addr ==> r(a) == w(a)
  {
    (a: nat) => if a == addr then v else w(a)
  }

  /** The two agree on every word that is not a port register. */
  ghost predicate Agree(seen: nat -> Reply, word: nat -> Reply) {
    forall a :: !Port(a) ==> seen(a) == word(a)
  }

  /** One ID word, recorded in what has been seen. */
  method ReadId(t: CoreTarget, base: nat, k: nat, ghost from: set<nat>, ghost log: seq<Access>,
                ghost before: nat -> Reply)
    returns (answer: Reply, ghost seen: nat -> Reply)
    requires k < 4 && IdAddress(base, k) in from && FetchedOnly(log, t.log, from) && Agree(before, t.word)
    modifies t`dcrdr, t`transfer, t`clock, t`log
    ensures FetchedOnly(log, t.log, from)
    ensures seen == With(before, IdAddress(base, k), answer) && Agree(seen, t.word)
    ensures OffPorts(from) ==>
              t.dcrdr == old(t.dcrdr) && t.transfer == old(t.transfer) && t.clock == old(t.clock)
  {
    hide U32;
    var ok, v := t.Read32(U32(base + 0xFF0 + 4 * k));
    answer := if ok then Answer(v) else Silent;
    seen := With(before, IdAddress(base, k), answer);
  }

  /** component_present. `seen` holds the answers of the ID words, which are the target's plain words
      wherever the block keeps off the port registers. */
  method ComponentPresent(t: CoreTarget, base: nat)
    returns (found: Found, ghost seen: nat -> Reply, ghost c0: Reply, ghost c1: Reply, ghost c2: Reply,
             ghost c3: Reply)
    modifies t`dcrdr, t`transfer, t`clock, t`log
    ensures c0 == seen((base + 0xFF0) % 0x1_0000_0000) && c1 == seen((base + 0xFF4) % 0x1_0000_0000)
    ensures c2 == seen((base + 0xFF8) % 0x1_0000_0000) && c3 == seen((base + 0xFFC) % 0x1_0000_0000)
    ensures found == if c0.Silent? || c1.Silent? || c2.Silent? || c3.Silent? then Unreadable
                     else if c0.value & 0xFF == 0x0D && c1.value & 0x0F == 0
                          && c2.value & 0xFF == 0x05 && c3.value & 0xFF == 0xB1 then There
                     else Absent
    ensures forall k :: |old(t.log)| <= k < |t.log| ==>
              && t.log[k].Fetch?
              && (|| t.log[k].addr == (base + 0xFF0) % 0x1_0000_0000 || t.log[k].addr == (base + 0xFF4) % 0x1_0000_0000
                  || t.log[k].addr == (base + 0xFF8) % 0x1_0000_0000 || t.log[k].addr == (base + 0xFFC) % 0x1_0000_0000)
    ensures found == Identify(seen, base) && Agree(seen, t.word)
    ensures FetchedOnly(old(t.log), t.log, set k: nat | k < 4 :: IdAddress(base, k))
    ensures OffPorts(set k: nat | k < 4 :: IdAddress(base, k)) ==>
              t.dcrdr == old(t.dcrdr) && t.transfer == old(t.transfer) && t.clock == old(t.clock)
  {
    hide U32, IdAddress, FetchedOnly, OffPorts, Agree, Identify, Judge;
    found, seen := ReadIds(t, base);
    c0, c1, c2, c3 := IdentifyMeans(seen, base);
    JudgeMeans(c0, c1, c2, c3);
    FetchedMeans(old(t.log), t.log, base);
  }

  lemma IdentifyMeans(seen: nat -> Reply, base: nat) returns (c0: Reply, c1: Reply, c2: Reply, c3: Reply)
    ensures c0 == seen((base + 0xFF0) % 0x1_0000_0000) && c1 == seen((base + 0xFF4) % 0x1_0000_0000)
    ensures c2 == seen((base + 0xFF8) % 0x1_0000_0000) && c3 == seen((base + 0xFFC) % 0x1_0000_0000)
    ensures Identify(seen, base) == Judge(c0, c1, c2, c3)
  {
    hide IdAddress, Judge;
    IdsAre(base);
    c0, c1 := seen((base + 0xFF0) % 0x1_0000_0000), seen((base + 0xFF4) % 0x1_0000_0000);
    c2, c3 := seen((base + 0xFF8) % 0x1_0000_0000), seen((base + 0xFFC) % 0x1_0000_0000);
  }

  lemma JudgeMeans(c0: Reply, c1: Reply, c2: Reply, c3: Reply)
    ensures Judge(c0, c1, c2, c3) ==
            (if c0.Silent? || c1.Silent? || c2.Silent? || c3.Silent? then Unreadable
             else if c0.value & 0xFF == 0x0D && c1.value & 0x0F == 0
                  && c2.value & 0xFF == 0x05 && c3.value & 0xFF == 0xB1 then There
             else Absent)
  {
  }

  lemma FetchedMeans(before: seq<Access>, log: seq<Access>, base: nat)
    requires FetchedOnly(before, log, set k: nat | k < 4 :: IdAddress(base, k))
    ensures before <= log
    ensures forall k :: |before| <= k < |log| ==>
              && log[k].Fetch?
              && (|| log[k].addr == (base + 0xFF0) % 0x1_0000_0000 || log[k].addr == (base + 0xFF4) % 0x1_0000_0000
                  || log[k].addr == (base + 0xFF8) % 0x1_0000_0000 || log[k].addr == (base + 0xFFC) % 0x1_0000_0000)
  {
    hide IdAddress;
    IdsAre(base);
  }

  /** The four reads of component_present and the comparison. */
  method ReadIds(t: CoreTarget, base: nat)
    returns (found: Found, ghost seen: nat -> Reply)
    modifies t`dcrdr, t`transfer, t`clock, t`log
    ensures found == Identify(seen, base) && Agree(seen, t.word)
    ensures FetchedOnly(old(t.log), t.log, set k: nat | k < 4 :: IdAddress(base, k))
    ensures OffPorts(set k: nat | k < 4 :: IdAddress(base, k)) ==>
              t.dcrdr == old(t.dcrdr) && t.transfer == old(t.transfer) && t.clock == old(t.clock)
  {
    hide U32, IdAddress, FetchedOnly, OffPorts, Agree;
    ghost var ids := set k: nat | k < 4 :: IdAddress(base, k);
    ghost var log := t.log;
    NothingFetched(log, ids);
    AgreesWithItself(t.word);
    IdsApart(base);
    var c0, c1, c2, c3;
    c0, seen := ReadId(t, base, 0, ids, log, t.word);
    if c0.Silent? { return Unreadable, seen; }
    c1, seen := ReadId(t, base, 1, ids, log, seen);
    if c1.Silent? { return Unreadable, seen; }
    c2, seen := ReadId(t, base, 2, ids, log, seen);
    if c2.Silent? { return Unreadable, seen; }
    c3, seen := ReadId(t, base, 3, ids, log, seen);
    if c3.Silent? { return Unreadable, seen; }
    if c0.value & 0xFF != 0x0D { return Absent, seen; }
    if c1.value & 0x0F != 0x00 { return Absent, seen; }
    if c2.value & 0xFF != 0x05 { return Absent, seen; }
    if c3.value & 0xFF != 0xB1 { return Absent, seen; }
    return There, seen;
  }

  lemma NothingFetched(log: seq<Access>, from: set<nat>)
    ensures FetchedOnly(log, log, from)
  {
  }

  lemma AgreesWithItself(w: nat -> Reply)
    ensures Agree(w, w)
  {
  }

  /** Off the port registers, the verdict from what was seen is the verdict from the target's words. */
  lemma SeenVerdict(dbs: seq<Db>, desc: Desc, f: Option<Features>,
                    seen: nat -> Reply, word: nat -> Reply)
    requires Agree(seen, word)
    ensures OffPorts(Evidence(dbs, desc)) ==> Verdict(dbs, desc, f, seen) == Verdict(dbs, desc, f, word)
  {
    hide Verdict;
    if OffPorts(Evidence(dbs, desc)) {
      assert forall a :: a in Evidence(dbs, desc) ==> !Port(a);
      PresenceNonInterference(dbs, desc, f, seen, word);
    }
  }

  /** hw_state_presence: looks at nothing but the block's ID words. */
  method StatePresence(t: CoreTarget, dbs: seq<Db>, desc: Desc, f: Option<Features>)
    returns (p: Presence, ghost seen: nat -> Reply, ghost c0: Reply, ghost c1: Reply, ghost c2: Reply, ghost c3: Reply)
    modifies t`dcrdr, t`transfer, t`clock, t`log
    // A feature settles it, whichever way.
    ensures desc.feature == "FP_EXTENSION" ==>
              p == if f.None? || f.value.fpExtension == 1 then ConfigConfirmed
                   else if f.value.fpExtension == 0 then ConfigDenied else Unknown
    ensures desc.feature == "MPU" ==>
              p == if f.None? || f.value.mpu == 1 then ConfigConfirmed
                   else if f.value.mpu == 0 then ConfigDenied else Unknown
    ensures desc.feature == "IMPDEF:DWT_CTRL.NUMCOMP" ==>
              p == if f.None? || f.value.dwtNumcomp > 0 then ConfigConfirmed else ConfigDenied
    ensures desc.feature != "" && desc.feature != "FP_EXTENSION" && desc.feature != "MPU"
            && desc.feature != "IMPDEF:DWT_CTRL.NUMCOMP" ==>
              p == if f.None? then ConfigConfirmed else Unknown
    // Else a debug block identifies itself, through four words and no other access.
    ensures desc.feature == "" && desc.ns == DebugBlock ==>
              match FindBlock(dbs, desc.component)
              case None => p == Unknown && t.log == old(t.log)
              case Some(c) =>
                && c0 == seen((c.base + 0xFF0) % 0x1_0000_0000) && c1 == seen((c.base + 0xFF4) % 0x1_0000_0000)
                && c2 == seen((c.base + 0xFF8) % 0x1_0000_0000) && c3 == seen((c.base + 0xFFC) % 0x1_0000_0000)
                && p == (if c0.Silent? || c1.Silent? || c2.Silent? || c3.Silent? then Unknown
                         else if c0.value & 0xFF == 0x0D && c1.value & 0x0F == 0
                              && c2.value & 0xFF == 0x05 && c3.value & 0xFF == 0xB1 then Discovered
                         else DiscoveryAbsent)
                && forall k :: |old(t.log)| <= k < |t.log| ==>
                     && t.log[k].Fetch?
                     && (|| t.log[k].addr == (c.base + 0xFF0) % 0x1_0000_0000
                         || t.log[k].addr == (c.base + 0xFF4) % 0x1_0000_0000
                         || t.log[k].addr == (c.base + 0xFF8) % 0x1_0000_0000
                         || t.log[k].addr == (c.base + 0xFFC) % 0x1_0000_0000)
    // Else the architecture does.
    ensures desc.feature == "" && desc.ns != DebugBlock ==>
              p == if desc.ns == Arch then Architectural else Unknown
    ensures desc.feature != "" || desc.ns != DebugBlock ==> t.log == old(t.log)
    // What was seen are the target's plain words, but for the two transfer registers.
    ensures forall a :: a != 0xE000_EDF0 && a != 0xE000_EDF8 ==> seen(a) == t.word(a)
    ensures p == Verdict(dbs, desc, f, seen) && Agree(seen, t.word)
    ensures OffPorts(Evidence(dbs, desc)) ==> p == Verdict(dbs, desc, f, t.word)
    ensures FetchedOnly(old(t.log), t.log, Evidence(dbs, desc))
    ensures OffPorts(Evidence(dbs, desc)) ==>
              t.dcrdr == old(t.dcrdr) && t.transfer == old(t.transfer) && t.clock == old(t.clock)
  {
    hide Verdict, Identify, Judge, FindBlock, Agree, OffPorts, Evidence, FetchedOnly;
    p, seen, c0, c1, c2, c3 := BlockPresence(t, dbs, desc, f);
    VerdictMeans(dbs, desc, f, seen);
  }

  /** The verdict, with the evidence of a debug block spelled out. */
  method BlockPresence(t: CoreTarget, dbs: seq<Db>, desc: Desc, f: Option<Features>)
    returns (p: Presence, ghost seen: nat -> Reply, ghost c0: Reply, ghost c1: Reply, ghost c2: Reply, ghost c3: Reply)
    modifies t`dcrdr, t`transfer, t`clock, t`log
    ensures desc.feature == "" && desc.ns == DebugBlock ==>
              match FindBlock(dbs, desc.component)
              case None => p == Unknown && t.log == old(t.log)
              case Some(c) =>
                && c0 == seen((c.base + 0xFF0) % 0x1_0000_0000) && c1 == seen((c.base + 0xFF4) % 0x1_0000_0000)
                && c2 == seen((c.base + 0xFF8) % 0x1_0000_0000) && c3 == seen((c.base + 0xFFC) % 0x1_0000_0000)
                && p == (if c0.Silent? || c1.Silent? || c2.Silent? || c3.Silent? then Unknown
                         else if c0.value & 0xFF == 0x0D && c1.value & 0x0F == 0
                              && c2.value & 0xFF == 0x05 && c3.value & 0xFF == 0xB1 then Discovered
                         else DiscoveryAbsent)
                && forall k :: |old(t.log)| <= k < |t.log| ==>
                     && t.log[k].Fetch?
                     && (|| t.log[k].addr == (c.base + 0xFF0) % 0x1_0000_0000
                         || t.log[k].addr == (c.base + 0xFF4) % 0x1_0000_0000
                         || t.log[k].addr == (c.base + 0xFF8) % 0x1_0000_0000
                         || t.log[k].addr == (c.base + 0xFFC) % 0x1_0000_0000)
    ensures desc.feature != "" || desc.ns != DebugBlock ==> t.log == old(t.log)
    ensures forall a :: a != 0xE000_EDF0 && a != 0xE000_EDF8 ==> seen(a) == t.word(a)
    ensures p == Verdict(dbs, desc, f, seen) && Agree(seen, t.word)
    ensures OffPorts(Evidence(dbs, desc)) ==> p == Verdict(dbs, desc, f, t.word)
    ensures FetchedOnly(old(t.log), t.log, Evidence(dbs, desc))
    ensures OffPorts(Evidence(dbs, desc)) ==>
              t.dcrdr == old(t.dcrdr) && t.transfer == old(t.transfer) && t.clock == old(t.clock)
  {
    hide Verdict, Identify, Judge, FindBlock, Agree, OffPorts, Evidence, FetchedOnly;
    ghost var log := t.log;
    p, seen := DecidePresence(t, dbs, desc, f);
    c0, c1, c2, c3 := Silent, Silent, Silent, Silent;
    if desc.feature == "" && desc.ns == DebugBlock { BlockVerdict(dbs, desc, f, seen); }
    AgreeMeans(seen, t.word);
    if desc.feature == "" && desc.ns == DebugBlock && FindBlock(dbs, desc.component).Some? {
      assert Evidence(dbs, desc) == set k: nat | k < 4 :: IdAddress(FindBlock(dbs, desc.component).value.base, k) by {
        EvidenceOfBlock(dbs, desc);
      }
      c0, c1, c2, c3 := IdentifyMeans(seen, FindBlock(dbs, desc.component).value.base);
      JudgeMeans(c0, c1, c2, c3);
      FetchedMeans(log, t.log, FindBlock(dbs, desc.component).value.base);
    } else {
      NoEvidence(dbs, desc, log, t.log);
    }
  }

  lemma EvidenceOfBlock(dbs: seq<Db>, desc: Desc)
    requires desc.feature == "" && desc.ns == DebugBlock && FindBlock(dbs, desc.component).Some?
    ensures Evidence(dbs, desc) == set k: nat | k < 4 :: IdAddress(FindBlock(dbs, desc.component).value.base, k)
  {
  }

  /** Without a block to ask nothing is fetched. */
  lemma NoEvidence(dbs: seq<Db>, desc: Desc, before: seq<Access>, log: seq<Access>)
    requires FetchedOnly(before, log, Evidence(dbs, desc))
    requires !(desc.feature == "" && desc.ns == DebugBlock && FindBlock(dbs, desc.component).Some?)
    ensures log == before
  {
    hide FetchedOnly;
    FetchedAfter(before, log, Evidence(dbs, desc));
    if |before| < |log| { FetchedFrom(before, log, Evidence(dbs, desc)); }
  }

  lemma FetchedAfter(before: seq<Access>, log: seq<Access>, from: set<nat>)
    requires FetchedOnly(before, log, from)
    ensures before <= log
  {
  }

  lemma FetchedFrom(before: seq<Access>, log: seq<Access>, from: set<nat>)
    requires FetchedOnly(before, log, from) && |before| < |log|
    ensures log[|before|].Fetch? && log[|before|].addr in from
  {
  }

  lemma VerdictMeans(dbs: seq<Db>, desc: Desc, f: Option<Features>, seen: nat -> Reply)
    ensures var p := Verdict(dbs, desc, f, seen);
            && (desc.feature == "FP_EXTENSION" ==>
                  p == if f.None? || f.value.fpExtension == 1 then ConfigConfirmed
                       else if f.value.fpExtension == 0 then ConfigDenied else Unknown)
            && (desc.feature == "MPU" ==>
                  p == if f.None? || f.value.mpu == 1 then ConfigConfirmed
                       else if f.value.mpu == 0 then ConfigDenied else Unknown)
            && (desc.feature == "IMPDEF:DWT_CTRL.NUMCOMP" ==>
                  p == if f.None? || f.value.dwtNumcomp > 0 then ConfigConfirmed else ConfigDenied)
            && (desc.feature != "" && desc.feature != "FP_EXTENSION" && desc.feature != "MPU"
                && desc.feature != "IMPDEF:DWT_CTRL.NUMCOMP" ==>
                  p == if f.None? then ConfigConfirmed else Unknown)
            && (desc.feature == "" && desc.ns != DebugBlock ==>
                  p == if desc.ns == Arch then Architectural else Unknown)
  {
    hide Identify, FindBlock;
  }

  lemma BlockVerdict(dbs: seq<Db>, desc: Desc, f: Option<Features>, seen: nat -> Reply)
    requires desc.feature == "" && desc.ns == DebugBlock
    ensures match FindBlock(dbs, desc.component)
            case None => Verdict(dbs, desc, f, seen) == Unknown
            case Some(c) =>
              Verdict(dbs, desc, f, seen) == match Identify(seen, c.base)
                                             case There => Discovered
                                             case Absent => DiscoveryAbsent
                                             case Unreadable => Unknown
  {
    hide Identify, FindBlock, Expected;
  }

  /** The three steps of hw_state_presence. */
  method DecidePresence(t: CoreTarget, dbs: seq<Db>, desc: Desc, f: Option<Features>)
    returns (p: Presence, ghost seen: nat -> Reply)
    modifies t`dcrdr, t`transfer, t`clock, t`log
    ensures p == Verdict(dbs, desc, f, seen) && Agree(seen, t.word)
    ensures OffPorts(Evidence(dbs, desc)) ==> p == Verdict(dbs, desc, f, t.word)
    ensures FetchedOnly(old(t.log), t.log, Evidence(dbs, desc))
    ensures OffPorts(Evidence(dbs, desc)) ==>
              t.dcrdr == old(t.dcrdr) && t.transfer == old(t.transfer) && t.clock == old(t.clock)
  {
    hide Identify, Agree, OffPorts, IdAddress;
    seen := t.word;
    AgreesWithItself(seen);
    p := Unknown;
    if desc.feature != "" {
      var rule := Expected(desc, f);
      if rule == 1 { p := ConfigConfirmed; } else if rule == 0 { p := ConfigDenied; }
    } else if desc.ns == DebugBlock {
      var comp := FindBlock(dbs, desc.component);
      if comp.Some? {
        var found;
        ghost var c0, c1, c2, c3;
        found, seen, c0, c1, c2, c3 := ComponentPresent(t, comp.value.base);
        p := if found.There? then Discovered else if found.Absent? then DiscoveryAbsent else Unknown;
      }
    } else if desc.ns == Arch {
      p := Architectural;
    }
    SeenVerdict(dbs, desc, f, seen, t.word);
  }

  lemma AgreeMeans(seen: nat -> Reply, word: nat -> Reply)
    ensures Agree(seen, word) <==> forall a :: a != 0xE000_EDF0 && a != 0xE000_EDF8 ==> seen(a) == word(a)
  {
  }

  // ----- Reading and querying -----

  ghost predicate NoRegister(rs: seq<DbgReg>, name: string) {
    forall r :: r in rs ==> r.name != name
  }

  /** hw_state_dbgreg. */
  function FindDbgReg(rs: seq<DbgReg>, name: string): (r: Option<DbgReg>)
    ensures r.Some? ==> r.value in rs && r.value.name == name
    ensures r.None? <==> NoRegister(rs, name)
  {
    if rs == [] then None else if rs[0].name == name then Some(rs[0]) else FindDbgReg(rs[1..], name)
  }

  /** The access path of the first database that has one for the name. */
  function FindAccessPath(dbs: seq<Db>, name: string): (r: Option<DbgReg>)
    ensures r.None? <==> forall k :: 0 <= k < |dbs| ==> NoRegister(dbs[k].dbgregs, name)
    ensures r.Some? ==>
              r.value.name == name &&
              exists k :: 0 <= k < |dbs| && r.value in dbs[k].dbgregs &&
                          forall m :: 0 <= m < k ==> NoRegister(dbs[m].dbgregs, name)
  {
    if dbs == [] then None
    else
      var c := FindDbgReg(dbs[0].dbgregs, name);
      if c.Some? then c
      else
        var rest := dbs[1..];
        var r := FindAccessPath(rest, name);
        assert forall k :: 0 <= k < |rest| ==> rest[k] == dbs[k + 1];
        assert forall m :: 0 < m < |dbs| ==> dbs[m] == rest[m - 1];
        assert r.Some? ==>
            var k :| 0 <= k < |rest| && r.value in rest[k].dbgregs &&
                     forall m :: 0 <= m < k ==> NoRegister(rest[m].dbgregs, name);
            r.value in dbs[k + 1].dbgregs &&
            forall m :: 0 <= m < k + 1 ==> NoRegister(dbs[m].dbgregs, name);
        r
  }

  /** No generated register field starts beyond its word. */
  ghost predicate WellFormedRegs(dbs: seq<Db>) {
    forall k, r :: 0 <= k < |dbs| && r in dbs[k].dbgregs ==> r.lsb < 32
  }

  /** hw_state_read. A read that is refused causes no access. */
  method StateRead(t: CoreTarget, dbs: seq<Db>, desc: Desc) returns (ok: bool, value: bv32, why: ReadStatus)
    requires WellFormedRegs(dbs)
    modifies t`dcrdr, t`transfer, t`clock, t`log
    ensures (ok <==> why == ReadOk) && why != NotAttempted && why != AccessDenied
    ensures !desc.readable ==> why == Unsafe
    ensures desc.readable && desc.encKind == Offset ==> why == BackendUnsupported
    ensures desc.readable && desc.memoryMapped && desc.encKind == Absolute && desc.address.Some? ==>
              t.log == old(t.log) + [Fetch(desc.address.value)]
    ensures desc.readable && desc.memoryMapped && desc.encKind == Absolute && desc.address.Some?
            && desc.address.value != 0xE000_EDF0 && desc.address.value != 0xE000_EDF8 ==>
              match t.word(desc.address.value)
              case Answer(v) => why == ReadOk && value == v
              case Silent => why == ReadFailed
    ensures desc.readable && desc.encKind != Offset
            && !(desc.memoryMapped && desc.encKind == Absolute && desc.address.Some?) ==>
              match FindAccessPath(dbs, desc.name)
              case None => why == BackendUnsupported
              case Some(r) =>
                if !t.halted then why == Unsafe
                else if t.delay(r.regsel) < 100
                        && forall k :: old(t.clock) <= k <= old(t.clock) + t.delay(r.regsel) + 2 ==> !t.fails(k) then
                  && why == ReadOk
                  && value == if r.width >= 32 then Halved(t.regs(r.regsel), r.lsb)
                                  else LowDigits(Halved(t.regs(r.regsel), r.lsb), r.width)
                else why == ReadFailed
    ensures old(t.log) <= t.log
    ensures why == Unsafe || why == BackendUnsupported ==> t.log == old(t.log)
  {
    hide Field, Halved, LowDigits;
    ok, value := false, 0;
    if !desc.readable { return false, 0, Unsafe; }
    if desc.encKind == Offset { return false, 0, BackendUnsupported; }
    if !desc.memoryMapped || desc.encKind != Absolute || desc.address.None? {
      var reg := FindAccessPath(dbs, desc.name);
      if reg.None? { return false, 0, BackendUnsupported; }
      ok, value, why := ReadDbgReg(t, reg.value);
      return;
    }
    ok, value := t.Read32(desc.address.value);
    why := if ok then ReadOk else ReadFailed;
  }

  /**
    hw_state_query: reports the presence verdict unchanged, whatever the read does, and of elements
    that are not denied what the read comes to. An element that is denied, absent or refused causes
    no access beyond the ID words of its block. The read starts with port access number `n`.
   */
  method StateQuery(t: CoreTarget, dbs: seq<Db>, desc: Desc, f: Option<Features>)
    returns (out: Result, ghost seen: nat -> Reply, ghost n: nat)
    requires WellFormedRegs(dbs)
    modifies t`dcrdr, t`transfer, t`clock, t`log
    ensures out.presence == Verdict(dbs, desc, f, seen)
    ensures forall a :: a != 0xE000_EDF0 && a != 0xE000_EDF8 ==> seen(a) == t.word(a)
    ensures OffPorts(Evidence(dbs, desc)) ==> out.presence == Verdict(dbs, desc, f, t.word) && n == old(t.clock)
    ensures out.read == NotAttempted <==> out.presence == ConfigDenied || out.presence == DiscoveryAbsent
    ensures out.read != NotAttempted && !desc.readable ==> out.read == Unsafe
    ensures out.read != NotAttempted && desc.readable && desc.encKind == Offset ==> out.read == BackendUnsupported
    ensures out.read != NotAttempted && desc.readable
            && desc.memoryMapped && desc.encKind == Absolute && desc.address.Some?
            && desc.address.value != 0xE000_EDF0 && desc.address.value != 0xE000_EDF8 ==>
              match t.word(desc.address.value)
              case Answer(v) => out.read == ReadOk && out.value == v
              case Silent => out.read == ReadFailed
    ensures out.read != NotAttempted && desc.readable && desc.encKind != Offset
            && !(desc.memoryMapped && desc.encKind == Absolute && desc.address.Some?) ==>
              match FindAccessPath(dbs, desc.name)
              case None => out.read == BackendUnsupported
              case Some(r) =>
                if !t.halted then out.read == Unsafe
                else if t.delay(r.regsel) < 100
                        && forall k :: n <= k <= n + t.delay(r.regsel) + 2 ==> !t.fails(k) then
                  && out.read == ReadOk
                  && out.value == if r.width >= 32 then Halved(t.regs(r.regsel), r.lsb)
                                  else LowDigits(Halved(t.regs(r.regsel), r.lsb), r.width)
                else out.read == ReadFailed
    ensures old(t.log) <= t.log
    ensures out.read == NotAttempted || out.read == Unsafe || out.read == BackendUnsupported ==>
              FetchedOnly(old(t.log), t.log, Evidence(dbs, desc))
    ensures out.presence == ConfigDenied ==> t.log == old(t.log)
    ensures out.read != ReadOk ==> out.value == 0 && !out.valueIsZero
    ensures out.read == ReadOk ==> (out.valueIsZero <==> out.value == 0)
  {
    hide Field, Halved, LowDigits, Identify, Agree, OffPorts, FindAccessPath, Verdict, Evidence, WellFormedRegs;
    var p;
    ghost var c0, c1, c2, c3;
    p, seen, c0, c1, c2, c3 := StatePresence(t, dbs, desc, f);
    n := t.clock;
    out := Result(p, NotAttempted, 0, false);
    if p == ConfigDenied || p == DiscoveryAbsent { return; }
    if !desc.readable {
      out := out.(read := Unsafe);
      return;
    }
    var ok, v, why := StateRead(t, dbs, desc);
    if ok { out := out.(value := v, valueIsZero := v == 0); }
    out := out.(read := why);
  }

  /** Two targets that differ in anything but the block's ID words get the same verdict. */
  method SameVerdict(t: CoreTarget, t': CoreTarget, dbs: seq<Db>, desc: Desc, f: Option<Features>)
    returns (out: Result, out': Result)
    requires t != t' && OffPorts(Evidence(dbs, desc)) && WellFormedRegs(dbs)
    requires forall a :: a in Evidence(dbs, desc) ==> t.word(a) == t'.word(a)
    modifies t, t'
    ensures out.presence == out'.presence
  {
    PresenceNonInterference(dbs, desc, f, t.word, t'.word);
    ghost var seen, n;
    out, seen, n := StateQuery(t, dbs, desc, f);
    out', seen, n := StateQuery(t', dbs, desc, f);
  }
}
