/** Framing of OpenOCD's TCL replies: bytes arrive in arbitrary pieces, a reply ends at 0x1a. */
module ReplyFraming {
  import opened Words

  const TERMINATOR: byte := 0x1A

  /** What the next recv does: deliver at most this many bytes, or fail. */
  datatype Delivery = Piece(size: nat) | Broken

  /** The position of the first terminator, or the length of the stream. */
  function FirstTerminator(s: seq<byte>): (k: nat)
    ensures k <= |s|
    ensures forall x :: 0 <= x < k ==> s[x] != TERMINATOR
    ensures k < |s| ==> s[k] == TERMINATOR
  {
    if s == [] || s[0] == TERMINATOR then 0 else 1 + FirstTerminator(s[1..])
  }

  /** The first terminator does not move when more bytes arrive behind it. */
  lemma FirstTerminatorStays(s: seq<byte>, k: nat)
    requires k <= |s| && FirstTerminator(s[..k]) < k
    ensures FirstTerminator(s) == FirstTerminator(s[..k])
  {
    var p, q := FirstTerminator(s[..k]), FirstTerminator(s);
    assert forall x :: 0 <= x < k ==> s[..k][x] == s[x];
  }

  /** A connected socket: the bytes still to come, and how they will be cut into pieces. */
  class Socket {
    var stream: seq<byte>
    var schedule: seq<Delivery>

    constructor (stream: seq<byte>, schedule: seq<Delivery>)
      ensures this.stream == stream && this.schedule == schedule
    {
      this.stream, this.schedule := stream, schedule;
    }

    /** The peer never breaks the connection in mid-stream. */
    ghost predicate Steady()
      reads this`schedule
    {
      forall k :: 0 <= k < |schedule| ==> schedule[k].Piece?
    }

    /** recv: at least one byte when any is left, never more than `room`; none once closed. */
    method Recv(buf: array<byte>, at: nat, room: nat) returns (ok: bool, got: nat)
      requires 0 < room && at + room <= buf.Length
      modifies this, buf
      ensures got <= room && got <= |old(stream)|
      ensures ok ==> stream == old(stream)[got..] && (got == 0 <==> old(stream) == [])
      ensures ok ==> buf[at..at + got] == old(stream)[..got]
      ensures forall k :: 0 <= k < at ==> buf[k] == old(buf[k])
      ensures old(Steady()) ==> ok && Steady()
    {
      var size := room;
      if schedule != [] {
        var next := schedule[0];
        schedule := schedule[1..];
        if next.Broken? { return false, 0; }
        size := Max(1, Min(next.size, room));
      }
      got := Min(size, |stream|);
      var s := stream;
      forall k | 0 <= k < got { buf[at + k] := s[k]; }
      stream := stream[got..];
      ok := true;
    }
  }

  /** memchr over the first n bytes. */
  method FindTerminator(buf: array<byte>, n: nat) returns (found: bool, k: nat)
    requires n <= buf.Length
    ensures k == FirstTerminator(buf[..n]) && (found <==> k < n)
  {
    k := 0;
    while k < n && buf[k] != TERMINATOR
      invariant 0 <= k <= FirstTerminator(buf[..n])
    {
      assert buf[..n][k] == buf[k];
      k := k + 1;
    }
    found := k < n;
    assert found ==> buf[..n][k] == TERMINATOR;
  }

  /** realloc to twice the size, with the contents in use kept. */
  method Grow(buf: array<byte>, used: nat) returns (bigger: array<byte>)
    requires used <= buf.Length
    ensures fresh(bigger) && bigger.Length == 2 * buf.Length
    ensures bigger[..used] == buf[..used]
  {
    bigger := new byte[buf.Length * 2];
    forall k | 0 <= k < used { bigger[k] := buf[k]; }
  }

  /** One recv into the free part of the buffer, which holds the first `used` bytes of `all`. */
  method ReceiveMore(sock: Socket, buf: array<byte>, used: nat, ghost all: seq<byte>)
    returns (received: bool, got: nat)
    requires used + 1 < buf.Length && used <= |all|
    requires buf[..used] == all[..used] && sock.stream == all[used..]
    modifies sock, buf
    ensures used + got < buf.Length && used + got <= |all|
    ensures received ==> buf[..used + got] == all[..used + got] && sock.stream == all[used + got..]
    ensures received ==> (got == 0 <==> used == |all|)
    ensures old(sock.Steady()) ==> received && sock.Steady()
  {
    received, got := sock.Recv(buf, used, buf.Length - used - 1);
    if received {
      forall k | 0 <= k < used + got ensures buf[k] == all[k] {
        if k < used {
          assert all[..used][k] == all[k];
        } else {
          assert buf[used..used + got][k - used] == all[used..][..got][k - used];
        }
      }
    }
  }

  /**
    openocd_tcl_exec_alloc after the command has been sent. The reply is the part of the stream
    before its first terminator, whatever the pieces; the buffer is never overrun (the bounds of
    every access are part of what is verified) and recv is never asked for zero bytes.
   */
  method ExecAlloc(sock: Socket) returns (ok: bool, reply: seq<byte>)
    modifies sock
    ensures ok ==> |reply| < |old(sock.stream)| && old(sock.stream)[|reply|] == 0x1A
    ensures ok ==> reply == old(sock.stream)[..|reply|] && 0x1A !in reply
    ensures old(sock.Steady()) ==> (ok <==> 0x1A in old(sock.stream))
    ensures ok ==> |reply| == FirstTerminator(old(sock.stream))
  {
    ok, reply := ReceiveReply(sock);
  }

  /** The receive loop. */
  method ReceiveReply(sock: Socket) returns (ok: bool, reply: seq<byte>)
    modifies sock
    ensures ok ==> FirstTerminator(old(sock.stream)) < |old(sock.stream)|
    ensures ok ==> reply == old(sock.stream)[..FirstTerminator(old(sock.stream))]
    ensures old(sock.Steady()) ==> (ok <==> FirstTerminator(old(sock.stream)) < |old(sock.stream)|)
  {
    hide FirstTerminator;
    ghost var all := sock.stream;
    var buf := new byte[4096];
    var used: nat := 0;
    while true
      invariant fresh(buf) && used < buf.Length && buf.Length >= 4096
      invariant used <= |all| && buf[..used] == all[..used] && sock.stream == all[used..]
      invariant FirstTerminator(all[..used]) == used
      invariant old(sock.Steady()) ==> sock.Steady()
      decreases |sock.stream|
    {
      if used + 1 >= buf.Length {
        buf := Grow(buf, used);
      }
      var received, got := ReceiveMore(sock, buf, used, all);
      if !received { return false, []; }
      if got == 0 {
        assert all[..used] == all;
        return false, [];
      }
      used := used + got;
      var found, k := FindTerminator(buf, used);
      if found {
        FirstTerminatorStays(all, used);
        return true, buf[..k];
      }
    }
  }

  /** Reading twice from sockets that carry the same bytes in different pieces gives the same reply. */
  method SameReplyForEverySplit(a: Socket, b: Socket) returns (okA: bool, okB: bool, x: seq<byte>, y: seq<byte>)
    requires a != b && a.stream == b.stream && a.Steady() && b.Steady()
    modifies a, b
    ensures okA == okB && (okA ==> x == y)
  {
    okA, x := ExecAlloc(a);
    okB, y := ExecAlloc(b);
  }
}
