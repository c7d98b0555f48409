/** The chunked flash reads of the ST-Link and OpenOCD backends, over a target that only serves
    whole words at word-aligned addresses. */
module ChunkedRead {
  import opened Words
  import opened Arith

  /** One device read. */
  datatype Window = Window(addr: nat, len: nat) {
    function End(): nat { addr + len }
  }

  const CHUNK: nat := 1024

  function Up4(n: nat): (r: nat)
    ensures r % 4 == 0 && n <= r < n + 4
  {
    n + (4 - n % 4) % 4
  }

  /** The n-th address from `addr` on, on a 32-bit bus. */
  function At(addr: nat, n: nat): nat { U32(addr + n) }

  /** The bytes of the request one device read serves. */
  ghost function Served(addr: nat, len: nat): nat {
    Min(Up4(Min(len + addr % 4, CHUNK)) - addr % 4, len)
  }

  /** The aligned window around as much of the request as one transfer takes. */
  ghost function FirstWindow(addr: nat, len: nat): Window {
    Window(addr - addr % 4, Up4(Min(len + addr % 4, CHUNK)))
  }

  /** The device reads of a request, in order. */
  ghost function Windows(addr: nat, len: nat): seq<Window>
    decreases len
  {
    if len == 0 then []
    else
      [FirstWindow(addr, len)]
      + Windows(At(addr, Served(addr, len)), len - Served(addr, len))
  }

  /** Each read starts where the one before it ended, in 32-bit addresses. */
  ghost predicate Chained(ws: seq<Window>, lo: nat, hi: nat)
    decreases |ws|
  {
    if ws == [] then lo == hi else ws[0].addr == lo && Chained(ws[1..], U32(ws[0].End()), hi)
  }

  /** The bytes all reads together move. */
  ghost function Moved(ws: seq<Window>): nat
    decreases |ws|
  {
    if ws == [] then 0 else ws[0].len + Moved(ws[1..])
  }

  lemma WrapShift(n: nat, q: nat)
    ensures U32(n + q * LIMIT32) == U32(n)
  {
    DivisionLaw(n, LIMIT32);
    QuotientUnique(n + q * LIMIT32, LIMIT32, n / LIMIT32 + q);
  }

  /** An address is its 32-bit form and some whole turns around the bus. */
  lemma Turns(a: nat) returns (q: nat)
    ensures a == U32(a) + q * LIMIT32
  {
    DivisionLaw(a, LIMIT32);
    q := a / LIMIT32;
  }

  /** Wrapping a term of a sum early does not matter. */
  lemma WrapOnce(a: nat, n: nat, m: nat)
    ensures At(At(a, n), m) == At(a, n + m)
    ensures U32(a + U32(n)) == At(a, n)
  {
    hide U32;
    var p := Turns(a + n);
    WrapShift(U32(a + n) + m, p);
    var q := Turns(n);
    WrapShift(a + U32(n), q);
  }

  /** A byte of the request, counted from the start of the window that serves it. */
  lemma FromWindow(addr: nat, done: nat, skip: nat, k: nat)
    requires skip <= At(addr, done)
    ensures At(At(addr, done) - skip, skip + k) == At(addr, done + k)
  {
    hide U32;
    WrapOnce(addr, done, k);
    assert At(addr, done) - skip + (skip + k) == At(addr, done) + k;
  }

  lemma StartsThere(addr: nat)
    requires addr < LIMIT32
    ensures At(addr, 0) == addr
  {
  }

  lemma WordShift(n: nat, q: nat)
    ensures (n + q * LIMIT32) % 4 == n % 4 && Up4(n + q * LIMIT32) == Up4(n) + q * LIMIT32
  {
    DivisionLaw(n, 4);
    QuotientUnique(n + q * LIMIT32, 4, n / 4 + q * 0x4000_0000);
  }

  /** Wrapping moves no word boundary. */
  lemma WrapKeepsWords(a: nat, n: nat)
    ensures U32(a) % 4 == a % 4
    ensures U32(Up4(U32(a) + n)) == U32(Up4(a + n))
    ensures Up4(U32(a) + n) - U32(a) == Up4(a + n) - a
  {
    hide U32, Up4;
    var q := Turns(a);
    WordShift(U32(a), q);
    WordShift(U32(a) + n, q);
    WrapShift(Up4(U32(a) + n), q);
  }

  /** A request that fits one chunk is served whole; a longer one leaves an aligned rest. */
  lemma ChunkArithmetic(addr: nat, len: nat)
    requires len > 0
    ensures var bytes, k := Up4(Min(len + addr % 4, CHUNK)), Served(addr, len);
            && 0 < bytes <= CHUNK && bytes % 4 == 0 && 0 < k <= len
            && (len + addr % 4 <= CHUNK ==>
                  k == len && addr - addr % 4 + bytes == Up4(addr + len)
                  && (addr % 4 + len + CHUNK - 1) / CHUNK == 1)
            && (len + addr % 4 > CHUNK ==>
                  k == CHUNK - addr % 4 < len && bytes == CHUNK && (addr + k) % 4 == 0
                  && (len - k + CHUNK - 1) / CHUNK + 1 == (addr % 4 + len + CHUNK - 1) / CHUNK)
  {
    var skip := addr % 4;
    if len + skip > CHUNK {
      assert Up4(CHUNK) == CHUNK;
      assert addr + (CHUNK - skip) == (addr - skip) + CHUNK;
    } else {
      assert addr + len == (addr - skip) + (len + skip);
    }
  }

  lemma WindowsStep(addr: nat, len: nat)
    requires len > 0
    ensures Windows(addr, len)
            == [FirstWindow(addr, len)]
               + Windows(At(addr, Served(addr, len)), len - Served(addr, len))
  {
  }

  lemma NoWindows(addr: nat)
    ensures Windows(addr, 0) == []
  {
  }

  /**
    The reads of a request are acceptable, follow each other without a gap or an overlap, start and
    end at the word boundaries around the request, move just the bytes between those boundaries, so
    at most three beyond either end, and are as few as whole chunks allow. Addresses wrap at 2^32.
   */
  lemma WindowsExact(addr: nat, len: nat)
    requires len > 0 && addr < LIMIT32
    ensures forall w :: w in Windows(addr, len) ==> w.addr % 4 == 0 && w.len % 4 == 0 && 0 < w.len <= 1024
    ensures Chained(Windows(addr, len), addr - addr % 4, U32(Up4(addr + len)))
    ensures Moved(Windows(addr, len)) == addr % 4 + len + (Up4(addr + len) - (addr + len))
    ensures |Windows(addr, len)| == (addr % 4 + len + 1023) / 1024
  {
    hide Windows, Chained, Moved, Up4;
    WindowsShape(addr, len);
  }

  /** The device accepts the read, and it fits one transfer. */
  ghost predicate Acceptable(w: Window) {
    w.addr % 4 == 0 && w.len % 4 == 0 && 0 < w.len <= CHUNK
  }

  lemma FirstAcceptable(addr: nat, len: nat)
    requires len > 0
    ensures Acceptable(FirstWindow(addr, len))
  {
    ChunkArithmetic(addr, len);
  }

  lemma {:induction false} WindowsShape(addr: nat, len: nat)
    requires len > 0 && addr < LIMIT32
    ensures forall w :: w in Windows(addr, len) ==> Acceptable(w)
    ensures Chained(Windows(addr, len), addr - addr % 4, U32(Up4(addr + len)))
    ensures Moved(Windows(addr, len)) == addr % 4 + len + (Up4(addr + len) - (addr + len))
    ensures |Windows(addr, len)| == (addr % 4 + len + 1023) / 1024
    decreases len
  {
    hide Windows, Served, Up4, U32, Acceptable;
    ChunkArithmetic(addr, len);
    WindowsStep(addr, len);
    FirstAcceptable(addr, len);
    var w, k := Window(addr - addr % 4, Up4(Min(len + addr % 4, CHUNK))), Served(addr, len);
    var next := At(addr, k);
    var rest := Windows(next, len - k);
    assert ([w] + rest)[1..] == rest;
    if len + addr % 4 <= CHUNK {
      NoWindows(next);
    } else {
      WindowsShape(next, len - k);
      WrapKeepsWords(addr + k, len - k);
    }
  }

  /** Below 2^32 nothing wraps: the reads cover one stretch of addresses. */
  lemma {:induction false} WindowsInOrder(addr: nat, len: nat)
    requires addr + len <= LIMIT32
    ensures var ws := Windows(addr, len);
            && (forall i, k :: 0 <= i < k < |ws| ==> ws[i].End() <= ws[k].addr)
            && forall w :: w in ws ==> addr - addr % 4 <= w.addr && w.End() <= Up4(addr + len) <= LIMIT32
    decreases len
  {
    hide Windows, Served, Up4;
    if len == 0 {
      NoWindows(addr);
      assert addr <= LIMIT32;
    } else {
      ChunkArithmetic(addr, len);
      WindowsStep(addr, len);
      var k := Served(addr, len);
      UpToLimit(addr + len);
      if k < len {
        WindowsInOrder(addr + k, len - k);
      } else {
        NoWindows(At(addr, k));
      }
    }
  }

  lemma UpToLimit(n: nat)
    requires n <= LIMIT32
    ensures Up4(n) <= LIMIT32
  {
  }

  // ----- The port -----

  /** The plan that is left after one more call; an empty plan lets every call succeed. */
  function Rest<T>(plan: seq<T>): seq<T> {
    if plan == [] then [] else plan[1..]
  }

  /** The first n reads of the plan succeed. */
  ghost predicate Grants(plan: seq<bool>, n: nat) {
    forall k :: 0 <= k < n && k < |plan| ==> plan[k]
  }

  lemma GrantsStep(plan: seq<bool>, n: nat)
    requires n > 0
    ensures Grants(plan, n) <==> (plan == [] || plan[0]) && Grants(Rest(plan), n - 1)
  {
    if plan != [] {
      assert forall k :: 0 < k < |plan| ==> plan[k] == plan[1..][k - 1];
      assert forall k :: 0 <= k < |plan| - 1 ==> plan[1..][k] == plan[k + 1];
    }
  }

  /** A debug port onto a target's memory, of 32-bit addresses. `plan` decides which reads fail. */
  class WordPort {
    const memory: nat -> byte
    const qbuf: array<byte>
    var plan: seq<bool>
    ghost var log: seq<Window>

    ghost predicate Valid()
      reads this
    {
      CHUNK <= qbuf.Length
    }

    constructor (memory: nat -> byte, plan: seq<bool>)
      ensures Valid() && this.memory == memory && this.plan == plan && log == [] && fresh(qbuf)
    {
      this.memory, this.plan, log := memory, plan, [];
      qbuf := new byte[100 * 1024];
    }

    /** stlink_read_mem32: fills the transfer buffer; refuses what is not whole aligned words. */
    method ReadMem32(addr: nat, len: nat) returns (ok: bool)
      requires Valid()
      modifies this`plan, this`log, qbuf
      ensures log == old(log) + [Window(addr, len)] && plan == Rest(old(plan))
      ensures ok <==> addr % 4 == 0 && len % 4 == 0 && len <= qbuf.Length && (old(plan) == [] || old(plan)[0])
      ensures ok ==> forall k :: 0 <= k < len ==> qbuf[k] == memory(At(addr, k))
    {
      log := log + [Window(addr, len)];
      ok := addr % 4 == 0 && len % 4 == 0 && len <= qbuf.Length;
      if plan != [] {
        ok := ok && plan[0];
        plan := plan[1..];
      }
      if ok {
        forall k | 0 <= k < len { qbuf[k] := memory(At(addr, k)); }
      }
    }
  }

  /** One turn of the loop of stlink_impl_flash_read. */
  method StlinkChunk(p: WordPort, cur: nat, buf: array<byte>, done: nat, want: nat, ghost addr: nat)
    returns (ok: bool, copy: nat)
    requires p.Valid() && buf != p.qbuf && want > 0 && done + want <= buf.Length && cur == At(addr, done)
    modifies p`plan, p`log, p.qbuf, buf
    ensures p.log == old(p.log) + [FirstWindow(cur, want)]
    ensures p.plan == Rest(old(p.plan)) && (ok <==> old(p.plan) == [] || old(p.plan)[0])
    ensures ok ==> copy == Served(cur, want) <= want
    ensures ok ==> forall k :: done <= k < done + copy ==> buf[k] == p.memory(At(addr, k))
    ensures forall k :: 0 <= k < done || done + want <= k < buf.Length ==> buf[k] == old(buf[k])
  {
    hide U32, At, Up4;
    var aligned := cur - cur % 4;
    var skip := cur - aligned;
    var chunk := want + skip;
    if chunk > CHUNK { chunk := CHUNK; }
    chunk := Up4(chunk);
    ChunkArithmetic(cur, want);
    ok := p.ReadMem32(aligned, chunk);
    copy := 0;
    if !ok { return; }
    copy := chunk - skip;
    if copy > want { copy := want; }
    forall k | 0 <= k < copy { buf[done + k] := p.qbuf[skip + k]; }
    forall k | done <= k < done + copy ensures buf[k] == p.memory(At(addr, k)) {
      FromWindow(addr, done, skip, k - done);
      assert buf[k] == p.qbuf[skip + (k - done)];
    }
  }

  /**
    stlink_impl_flash_read: exactly memory[addr..addr+len), in 32-bit addresses, through aligned
    whole-word reads; it succeeds exactly when none of these reads fails.
   */
  method StlinkFlashRead(p: WordPort, addr: nat, buf: array<byte>, len: nat) returns (ok: bool)
    requires p.Valid() && len <= buf.Length && buf != p.qbuf && addr < LIMIT32
    modifies p`plan, p`log, p.qbuf, buf
    ensures p.log <= old(p.log) + Windows(addr, len)
    ensures ok ==> p.log == old(p.log) + Windows(addr, len)
    ensures ok ==> forall k :: 0 <= k < len ==> buf[k] == p.memory((addr + k) % 0x1_0000_0000)
    ensures forall k :: len <= k < buf.Length ==> buf[k] == old(buf[k])
    ensures ok <==> forall k :: 0 <= k < |Windows(addr, len)| && k < |old(p.plan)| ==> old(p.plan)[k]
  {
    hide Windows, At;
    ok := StlinkReadChunks(p, addr, buf, len);
    forall k | 0 <= k < len ensures At(addr, k) == (addr + k) % 0x1_0000_0000 { AtIs(addr, k); }
  }

  lemma AtIs(addr: nat, k: nat)
    ensures At(addr, k) == (addr + k) % 0x1_0000_0000
  {
  }

  /** The loop of stlink_impl_flash_read. */
  method StlinkReadChunks(p: WordPort, addr: nat, buf: array<byte>, len: nat) returns (ok: bool)
    requires p.Valid() && len <= buf.Length && buf != p.qbuf && addr < LIMIT32
    modifies p`plan, p`log, p.qbuf, buf
    ensures p.log <= old(p.log) + Windows(addr, len)
    ensures ok ==> p.log == old(p.log) + Windows(addr, len)
    ensures ok ==> forall k :: 0 <= k < len ==> buf[k] == p.memory(At(addr, k))
    ensures forall k :: len <= k < buf.Length ==> buf[k] == old(buf[k])
    ensures ok <==> Grants(old(p.plan), |Windows(addr, len)|)
  {
    hide Windows, Served, FirstWindow, At, U32, Grants, Rest;
    StartsThere(addr);
    var done := 0;
    while done < len
      invariant 0 <= done <= len
      invariant p.log + Windows(At(addr, done), len - done) == old(p.log) + Windows(addr, len)
      invariant forall k :: 0 <= k < done ==> buf[k] == p.memory(At(addr, k))
      invariant forall k :: len <= k < buf.Length ==> buf[k] == old(buf[k])
      invariant Grants(p.plan, |Windows(At(addr, done), len - done)|)
                <==> Grants(old(p.plan), |Windows(addr, len)|)
    {
      WrapOnce(addr, done, 0);
      var cur := U32(addr + U32(done));
      var want := len - done;
      ghost var log := p.log;
      NextRead(log, addr, done, want);
      GrantsStep(p.plan, |Windows(cur, want)|);
      var got, copy := StlinkChunk(p, cur, buf, done, want, addr);
      if !got { return false; }
      done := done + copy;
    }
    NoWindows(At(addr, done));
    GrantsNone(p.plan);
    return true;
  }

  /** One device read brings the log one step closer to the whole request. */
  lemma NextRead(log: seq<Window>, addr: nat, done: nat, want: nat)
    requires want > 0
    ensures var cur := At(addr, done);
            var w := FirstWindow(cur, want);
            var copy := Served(cur, want);
            && 0 < copy <= want
            && Windows(cur, want) == [w] + Windows(At(addr, done + copy), want - copy)
            && (log + [w]) + Windows(At(addr, done + copy), want - copy) == log + Windows(cur, want)
            && log + [w] <= log + Windows(cur, want)
  {
    hide At, Served, Up4, Windows;
    var cur := At(addr, done);
    WindowsStep(cur, want);
    ChunkArithmetic(cur, want);
    WrapOnce(addr, done, Served(cur, want));
  }

  lemma GrantsNone(plan: seq<bool>)
    ensures Grants(plan, 0)
  {
  }

  // ----- OpenOCD: words arrive as lines of a reply -----

  /** A line of a reply: words after a colon, or a line without one. */
  datatype Line = Noise | Data(words: seq<bv32>)

  /** How the server answers a command: not at all, or with lines of these many words. */
  datatype Answer = Refused | Lines(widths: seq<nat>) {
    /** The answer carries at least this many words. */
    ghost predicate Full(words: nat) { Lines? && Sum(widths) >= words }
  }

  ghost function Sum(widths: seq<nat>): nat {
    if widths == [] then 0 else Sum(widths[..|widths| - 1]) + widths[|widths| - 1]
  }

  lemma SumNext(widths: seq<nat>, i: nat)
    requires i < |widths|
    ensures Sum(widths[..i + 1]) == Sum(widths[..i]) + widths[i]
  {
    assert widths[..i + 1][..i] == widths[..i];
  }

  /** The server's answers carry all the words of these reads; after the plan it always does. */
  ghost predicate Serves(plan: seq<Answer>, ws: seq<Window>) {
    forall k :: 0 <= k < |ws| && k < |plan| ==> plan[k].Full(ws[k].len / 4)
  }

  lemma ServesStep(plan: seq<Answer>, w: Window, ws: seq<Window>)
    ensures Serves(plan, [w] + ws) <==> (plan == [] || plan[0].Full(w.len / 4)) && Serves(Rest(plan), ws)
  {
    hide Answer.Full;
    var all := [w] + ws;
    if plan != [] {
      assert forall k :: 0 < k < |all| && k < |plan| ==> all[k] == ws[k - 1] && plan[k] == plan[1..][k - 1];
      assert forall k :: 0 <= k < |ws| && k < |plan| - 1 ==> all[k + 1] == ws[k] && plan[1..][k] == plan[k + 1];
    }
  }

  function WordsOf(line: Line): seq<bv32> {
    if line.Data? then line.words else []
  }

  /** The words of a reply in order, however they are split into lines. */
  ghost function Flatten(reply: seq<Line>): seq<bv32> {
    if reply == [] then [] else Flatten(reply[..|reply| - 1]) + WordsOf(reply[|reply| - 1])
  }

  lemma {:induction false} FlattenPrefix(reply: seq<Line>, k: nat)
    requires k <= |reply|
    ensures Flatten(reply[..k]) <= Flatten(reply)
    decreases |reply| - k
  {
    if k == |reply| {
      assert reply[..k] == reply;
    } else {
      FlattenNext(reply, k);
      FlattenPrefix(reply, k + 1);
    }
  }

  lemma FlattenNext(reply: seq<Line>, k: nat)
    requires k < |reply|
    ensures Flatten(reply[..k + 1]) == Flatten(reply[..k]) + WordsOf(reply[k])
  {
    assert reply[..k + 1][..k] == reply[..k];
  }

  function WordAt(memory: nat -> byte, addr: nat): bv32 {
    Word(memory(At(addr, 0)), memory(At(addr, 1)), memory(At(addr, 2)), memory(At(addr, 3)))
  }

  lemma ByteOfWordAt(memory: nat -> byte, addr: nat, x: nat)
    requires x < 4
    ensures ByteOf(WordAt(memory, addr), x) == memory(At(addr, x))
  {
    BytesOfWord(memory(At(addr, 0)), memory(At(addr, 1)), memory(At(addr, 2)), memory(At(addr, 3)));
  }

  /** The reply carries words of memory from addr on, at most as many as were asked for. */
  ghost predicate Faithful(memory: nat -> byte, addr: nat, words: nat, reply: seq<Line>) {
    && |Flatten(reply)| <= words
    && forall k :: 0 <= k < |Flatten(reply)| ==> Flatten(reply)[k] == WordAt(memory, At(addr, 4 * k))
  }

  lemma FlattenAppend(reply: seq<Line>, line: Line)
    ensures Flatten(reply + [line]) == Flatten(reply) + WordsOf(line)
  {
    assert (reply + [line])[..|reply + [line]| - 1] == reply;
  }

  /** Some way for the server to lay a stretch of memory out in lines, possibly falling short. */
  method SplitIntoLines(memory: nat -> byte, addr: nat, words: nat, widths: seq<nat>)
    returns (reply: seq<Line>)
    ensures Faithful(memory, addr, words, reply) && |Flatten(reply)| == Min(words, Sum(widths))
  {
    hide Flatten, WordAt, Sum;
    reply := [];
    var sent := 0;
    FlattenEmpty(reply);
    SumOfNone(widths);
    for i := 0 to |widths|
      invariant sent == |Flatten(reply)| == Min(words, Sum(widths[..i])) && Faithful(memory, addr, words, reply)
    {
      SumNext(widths, i);
      var width, from := Min(widths[i], words - sent), sent;
      var line := if width == 0 then Noise
                  else Data(seq(width, k requires k >= 0 => WordAt(memory, At(addr, 4 * (from + k)))));
      FlattenAppend(reply, line);
      reply, sent := reply + [line], sent + width;
    }
    assert widths[..|widths|] == widths;
  }

  lemma SumOfNone(widths: seq<nat>)
    ensures Sum(widths[..0]) == 0
  {
  }

  method OneLine(memory: nat -> byte, addr: nat, words: nat) returns (reply: seq<Line>)
    ensures Faithful(memory, addr, words, reply) && |Flatten(reply)| == words
  {
    hide Flatten, WordAt;
    var line := Data(seq(words, k requires k >= 0 => WordAt(memory, At(addr, 4 * k))));
    FlattenEmpty([]);
    FlattenAppend([], line);
    reply := [] + [line];
  }

  class TclPort {
    const memory: nat -> byte
    var plan: seq<Answer>
    ghost var log: seq<Window>

    constructor (memory: nat -> byte, plan: seq<Answer>)
      ensures this.memory == memory && this.plan == plan && log == []
    {
      this.memory, this.plan, log := memory, plan, [];
    }

    /** "mdw addr words". */
    method Mdw(addr: nat, words: nat) returns (ok: bool, reply: seq<Line>)
      modifies this
      ensures log == old(log) + [Window(addr, 4 * words)] && plan == Rest(old(plan))
      ensures ok <==> old(plan) == [] || old(plan)[0].Lines?
      ensures ok ==> Faithful(memory, addr, words, reply)
      ensures ok ==> |Flatten(reply)| == if old(plan) == [] then words else Min(words, Sum(old(plan)[0].widths))
    {
      hide Faithful, Flatten, Sum;
      log := log + [Window(addr, 4 * words)];
      var m := memory;
      if plan == [] {
        reply := OneLine(m, addr, words);
        return true, reply;
      }
      var answer := plan[0];
      plan := plan[1..];
      if answer.Refused? { return false, []; }
      reply := SplitIntoLines(m, addr, words, answer.widths);
      ok := true;
    }
  }

  /** The bytes of the first n words of a reply are in place. */
  ghost predicate Unpacked(raw: array<byte>, n: nat, words: seq<bv32>)
    reads raw
  {
    && 4 * n <= raw.Length && n <= |words|
    && forall x :: 0 <= x < 4 * n ==> raw[x] == ByteOf(words[x / 4], x % 4)
  }

  method UnpackWord(raw: array<byte>, n: nat, word: bv32, ghost words: seq<bv32>)
    requires Unpacked(raw, n, words) && n < |words| && words[n] == word && 4 * n + 4 <= raw.Length
    modifies raw
    ensures Unpacked(raw, n + 1, words)
  {
    hide ByteOf;
    raw[n * 4 + 0] := ByteOf(word, 0);
    raw[n * 4 + 1] := ByteOf(word, 1);
    raw[n * 4 + 2] := ByteOf(word, 2);
    raw[n * 4 + 3] := ByteOf(word, 3);
  }

  /** The parse loop: the words of the reply, in order, until enough were taken. */
  method TakeWords(reply: seq<Line>, words: nat, raw: array<byte>) returns (n: nat)
    requires raw.Length == 4 * words
    modifies raw
    ensures n == Min(words, |Flatten(reply)|)
    ensures Unpacked(raw, n, Flatten(reply))
  {
    hide Flatten;
    ghost var all := Flatten(reply);
    n := 0;
    var i := 0;
    FlattenEmpty(reply);
    while i < |reply| && n < words
      invariant 0 <= i <= |reply| && n <= words
      invariant n < words ==> n == |Flatten(reply[..i])|
      invariant Unpacked(raw, n, all)
    {
      FlattenNext(reply, i);
      FlattenPrefix(reply, i + 1);
      ghost var before := n;
      if reply[i].Data? {
        var k := 0;
        while n < words && k < |reply[i].words|
          invariant 0 <= k <= |reply[i].words| && n == before + k <= words
          invariant Unpacked(raw, n, all)
        {
          assert all[n] == Flatten(reply[..i + 1])[n] == reply[i].words[k];
          UnpackWord(raw, n, reply[i].words[k], all);
          n, k := n + 1, k + 1;
        }
      }
      i := i + 1;
    }
    if n < words {
      assert reply[..i] == reply;
    }
  }

  lemma UnpackedIsMemory(memory: nat -> byte, addr: nat, words: nat, reply: seq<Line>, raw: array<byte>)
    requires Faithful(memory, addr, words, reply) && Unpacked(raw, words, Flatten(reply))
    ensures forall x :: 0 <= x < 4 * words ==> raw[x] == memory(At(addr, x))
  {
    hide Flatten, ByteOf, Word, WordAt, At;
    forall x | 0 <= x < 4 * words ensures raw[x] == memory(At(addr, x)) {
      ByteOfWordAt(memory, At(addr, 4 * (x / 4)), x % 4);
      WrapOnce(addr, 4 * (x / 4), x % 4);
    }
  }

  lemma FlattenEmpty(reply: seq<Line>)
    ensures Flatten(reply[..0]) == []
  {
  }

  lemma WordsUp4(bytes: nat)
    ensures 4 * ((bytes + 3) / 4) == Up4(bytes)
  {
  }

  /** One turn of the loop: read the enclosing aligned window and copy out the middle. */
  method OpenocdChunk(p: TclPort, cur: nat, buf: array<byte>, done: nat, want: nat, ghost addr: nat)
    returns (ok: bool, copy: nat)
    requires want > 0 && done + want <= buf.Length && cur == At(addr, done)
    modifies p, buf
    ensures p.log == old(p.log) + [FirstWindow(cur, want)]
    ensures p.plan == Rest(old(p.plan))
    ensures ok <==> old(p.plan) == [] || old(p.plan)[0].Full(FirstWindow(cur, want).len / 4)
    ensures copy == Served(cur, want) <= want
    ensures forall k :: 0 <= k < done || done + copy <= k < buf.Length ==> buf[k] == old(buf[k])
    ensures ok ==> forall k :: done <= k < done + copy ==> buf[k] == p.memory(At(addr, k))
  {
    hide Flatten, ByteOf, Word, WordAt, Windows, Up4, Faithful, Unpacked, U32, At, Rest, Sum;
    var aligned := cur - cur % 4;
    var skip := cur - aligned;
    var bytes := want + skip;
    if bytes > CHUNK { bytes := CHUNK; }
    var words := (bytes + 3) / 4;
    WordsUp4(bytes);
    ChunkArithmetic(cur, want);
    copy := words * 4 - skip;
    if copy > want { copy := want; }
    var reply;
    ok, reply := p.Mdw(aligned, words);
    if !ok { return; }
    var raw := new byte[words * 4];
    var n := TakeWords(reply, words, raw);
    if n < words { return false, copy; }
    UnpackedIsMemory(p.memory, aligned, words, reply, raw);
    forall k | 0 <= k < copy { buf[done + k] := raw[skip + k]; }
    forall k | done <= k < done + copy ensures buf[k] == p.memory(At(addr, k)) {
      FromWindow(addr, done, skip, k - done);
      assert buf[k] == raw[skip + (k - done)];
    }
  }

  /**
    openocd_impl_flash_read: the same device reads, parsed out of textual replies. However the server
    splits its words into lines, the read succeeds exactly when every reply carries all its words.
   */
  method OpenocdFlashRead(p: TclPort, addr: nat, buf: array<byte>, len: nat) returns (ok: bool)
    requires len <= buf.Length && addr < LIMIT32
    modifies p, buf
    ensures p.log <= old(p.log) + Windows(addr, len)
    ensures ok ==> p.log == old(p.log) + Windows(addr, len)
    ensures ok ==> forall k :: 0 <= k < len ==> buf[k] == p.memory((addr + k) % 0x1_0000_0000)
    ensures forall k :: len <= k < buf.Length ==> buf[k] == old(buf[k])
    ensures ok <==> forall k :: 0 <= k < |Windows(addr, len)| && k < |old(p.plan)| ==>
                      old(p.plan)[k].Lines? && Sum(old(p.plan)[k].widths) >= Windows(addr, len)[k].len / 4
  {
    hide Windows, At, Sum;
    ok := OpenocdReadChunks(p, addr, buf, len);
    forall k | 0 <= k < len ensures At(addr, k) == (addr + k) % 0x1_0000_0000 { AtIs(addr, k); }
  }

  /** The loop of openocd_impl_flash_read. */
  method OpenocdReadChunks(p: TclPort, addr: nat, buf: array<byte>, len: nat) returns (ok: bool)
    requires len <= buf.Length && addr < LIMIT32
    modifies p, buf
    ensures p.log <= old(p.log) + Windows(addr, len)
    ensures ok ==> p.log == old(p.log) + Windows(addr, len)
    ensures ok ==> forall k :: 0 <= k < len ==> buf[k] == p.memory(At(addr, k))
    ensures forall k :: len <= k < buf.Length ==> buf[k] == old(buf[k])
    ensures ok <==> Serves(old(p.plan), Windows(addr, len))
  {
    hide Windows, Served, FirstWindow, At, U32, Serves, Rest, Answer.Full, Up4;
    StartsThere(addr);
    var done := 0;
    while done < len
      invariant 0 <= done <= len
      invariant p.log + Windows(At(addr, done), len - done) == old(p.log) + Windows(addr, len)
      invariant forall k :: 0 <= k < done ==> buf[k] == p.memory(At(addr, k))
      invariant forall k :: len <= k < buf.Length ==> buf[k] == old(buf[k])
      invariant Serves(p.plan, Windows(At(addr, done), len - done))
                <==> Serves(old(p.plan), Windows(addr, len))
    {
      WrapOnce(addr, done, 0);
      var cur := U32(addr + U32(done));
      ghost var want, log := len - done, p.log;
      ghost var w, served := FirstWindow(cur, want), Served(cur, want);
      NextRead(log, addr, done, want);
      ServesStep(p.plan, w, Windows(At(addr, done + served), want - served));
      var got, copy := OpenocdChunk(p, cur, buf, done, len - done, addr);
      if !got { return false; }
      done := done + copy;
    }
    NoWindows(At(addr, done));
    ServesNothing(p.plan);
    return true;
  }

  lemma ServesNothing(plan: seq<Answer>)
    ensures Serves(plan, [])
  {
  }
}
