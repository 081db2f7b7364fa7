/** The handlers of src/sdk/server.c, updating one client's connection and the shared transmit buffer. */
module EchoDriver {
  import opened Bytes
  import opened FrameHeader
  import opened ConnSpec
  import opened Echo
  import opened Conn

  class Client {
    const conn: Connection
    /** `g_tx`, the one transmit buffer. */
    const tx: array<byte>
    const txAddr: nat
    /** Everything written to the socket so far. */
    var wire: seq<byte>
    /** How many bytes the socket takes in all before a write fails: any number. */
    const limit: nat

    ghost predicate Ok()
      reads this, conn, conn.msg, conn.rxhdr, conn.utf8
    {
      conn.Ok() && tx != conn.msg && tx != conn.rxhdr && tx.Length == TXBUF && |wire| <= limit
    }

    constructor (conn: Connection, tx: array<byte>, txAddr: nat, limit: nat)
      requires conn.Ok() && tx != conn.msg && tx != conn.rxhdr && tx.Length == 131088
      ensures this.conn == conn && this.tx == tx && this.limit == limit && wire == [] && Ok()
    {
      this.conn, this.tx, this.txAddr, this.limit, wire := conn, tx, txAddr, limit, [];
    }

    ghost function Now(keep: bool): Driven
      reads this, conn, conn.msg, conn.rxhdr, conn.utf8
    {
      Driven(conn.Value(), wire, keep)
    }

    /** The outcome `d` if its writes succeed; otherwise its output up to the failure, and the connection dropped. */
    ghost predicate Came(d: Driven, keep: bool)
      reads this, conn, conn.msg, conn.rxhdr, conn.utf8
    {
      if |d.wire| <= limit then Now(keep) == d else wire == d.wire[..limit] && !keep
    }

    /** `write_all`: false when the socket does not take everything. */
    method WriteAll(n: nat) returns (ok: bool)
      requires n <= tx.Length && |wire| <= limit
      modifies this`wire
      ensures ok == (|old(wire)| + n <= limit)
      ensures wire == if ok then old(wire) + tx[..n] else (old(wire) + tx[..n])[..limit]
    {
      ok := |wire| + n <= limit;
      wire := wire + tx[..if ok then n else limit - |wire|];
    }

    /** Sends what was staged, if anything, and keeps the connection. */
    method ReplyOpen(n: nat) returns (keep: bool)
      requires n <= tx.Length && |wire| <= limit
      modifies this`wire
      ensures var all := old(wire) + tx[..n];
        if |all| <= limit then wire == all && keep == (n != 0) else wire == all[..limit] && !keep
    {
      if n == 0 {
        return false;
      }
      keep := WriteAll(n);
    }

    /** Sends what was staged, if anything, and gives the connection up. */
    method ReplyClose(n: nat) returns (keep: bool)
      requires n <= tx.Length && |wire| <= limit
      modifies this`wire
      ensures var all := old(wire) + tx[..n];
        !keep && wire == if |all| <= limit then all else all[..limit]
    {
      if n != 0 {
        var _ := WriteAll(n);
      }
      return false;
    }

    method HandleDataEvent(ev: Event) returns (keep: bool, handled: bool)
      requires Ok()
      requires ev.kind in {EV_MESSAGE, EV_PING} ==> ev.off + ev.len <= conn.msg.Length
      modifies this`wire, tx
      ensures Ok() && handled == (ev.kind in {EV_MESSAGE, EV_PING})
      ensures if handled then Came(Handle(old(conn.Value()), old(wire), ev), keep)
              else keep && Now(keep) == old(Now(true))
    {
      hide Valid, Built, Written, Splice, ConnSpec.SendMessage;
      handled := true;
      if ev.kind == EV_MESSAGE {
        assert conn.Value().msg[ev.off..ev.off + ev.len] == conn.msg[ev.off..ev.off + ev.len];
        var n := conn.SendMessage(ev.opcode, conn.msg, ev.off, ev.len, tx, txAddr, TXBUF, None);
        keep := ReplyOpen(n);
        return;
      }
      if ev.kind == EV_PING {
        assert conn.Value().msg[ev.off..ev.off + ev.len] == conn.msg[ev.off..ev.off + ev.len];
        var n := conn.SendPong(conn.msg, ev.off, ev.len, tx, txAddr, TXBUF, None);
        keep := ReplyOpen(n);
        return;
      }
      handled := false;
      return true, handled;
    }

    method HandleCloseEvent(ev: Event) returns (keep: bool)
      requires Ok() && ev.kind !in {EV_MESSAGE, EV_PING}
      modifies this`wire, tx, conn
      ensures Ok() && Came(Handle(old(conn.Value()), old(wire), ev), keep)
    {
      hide Valid, ConnSpec.SendClose;
      if ev.kind == EV_ERROR {
        var n := conn.SendClose(CLOSE_PROTOCOL, tx, txAddr, TXBUF, None);
        keep := ReplyClose(n);
        return;
      }
      if ev.kind == EV_CLOSE {
        var n := conn.SendClose(EchoCloseCode(ev.code), tx, txAddr, TXBUF, None);
        keep := ReplyClose(n);
        return;
      }
      return true;
    }

    method HandleEvent(ev: Event) returns (keep: bool)
      requires Ok()
      requires ev.kind in {EV_MESSAGE, EV_PING} ==> ev.off + ev.len <= conn.msg.Length
      modifies this`wire, tx, conn
      ensures Ok() && Came(Handle(old(conn.Value()), old(wire), ev), keep)
    {
      hide Valid, Handle;
      var handled;
      keep, handled := HandleDataEvent(ev);
      if !handled {
        keep := HandleCloseEvent(ev);
      }
    }

    /** Polls and handles until nothing is pending. */
    method DrainEvents() returns (keep: bool)
      requires Ok()
      modifies this`wire, tx, conn
      ensures Ok() && Came(Drain(old(conn.Value()), old(wire)), keep)
      ensures keep ==> conn.pending == EV_NONE
    {
      ghost var s, w := conn.Value(), wire;
      while true
        invariant Ok() && Valid(s)
        invariant conn.pending == EV_NONE || (conn.Value() == s && wire == w)
        invariant conn.pending == EV_NONE ==> Now(true) == Drain(s, w)
        decreases if conn.pending == EV_NONE then 0 else 1
      {
        HandleQuiet(conn.Value(), wire);
        var kind, ev := conn.Poll();
        if kind == EV_NONE {
          assert conn.Value() == Poll(conn.Value());
          return true;
        }
        keep := HandleEvent(ev);
        if !keep {
          return false;
        }
      }
    }

    /** No progress, and no longer open. */
    predicate FeedStalled(used: nat)
      reads this, conn
    {
      used == 0 && conn.status != OPEN
    }

    /** One slice: receive, handle, advance. */
    method FeedStep(buf: seq<byte>, off: nat) returns (keep: bool, next: nat)
      requires Ok() && off <= |buf|
      modifies this`wire, tx, conn, conn.msg, conn.rxhdr, conn.utf8
      ensures Ok() && off <= next <= |buf|
      ensures var (d, used) := Slice(old(conn.Value()), old(wire), buf[off..]);
        Came(d, keep) && next == (if keep then off + used else off)
    {
      hide Valid, Handle, Drain, ConnSpec.Recv;
      var used := conn.Recv(buf[off..]);
      keep := DrainEvents();
      var stalled := FeedStalled(used);
      if !keep || stalled {
        return false, off;
      }
      return true, off + used;
    }

    /** `feed_frames`: one read, until it is used up or the connection is to be dropped. */
    method FeedFrames(buf: seq<byte>) returns (keep: bool)
      requires Ok() && Feedable(conn.Value())
      modifies this`wire, tx, conn, conn.msg, conn.rxhdr, conn.utf8
      ensures Ok() && Came(Echo.FeedFrames(old(conn.Value()), old(wire), buf), keep)
      ensures keep ==> Feedable(conn.Value())
    {
      hide Valid, Feedable, Slice;
      ghost var s, w := conn.Value(), wire;
      var off := 0;
      assert buf[0..] == buf;
      while off < |buf|
        invariant Ok() && off <= |buf| && Feedable(conn.Value()) && Feedable(s)
        invariant Echo.FeedFrames(s, w, buf) == Echo.FeedFrames(conn.Value(), wire, buf[off..])
        decreases |buf| - off, if conn.pending == EV_NONE then 0 else 1
      {
        ghost var before := off;
        ghost var s0, w0 := conn.Value(), wire;
        ghost var d := Slice(s0, w0, buf[off..]).0;
        if d.keep {
          SliceFeeds(s0, w0, buf[off..]);
          FeedAppends(d.s, d.wire, buf[off..][Slice(s0, w0, buf[off..]).1..]);
        }
        keep, off := FeedStep(buf, off);
        if !keep {
          return false;
        }
        assert buf[before..][off - before..] == buf[off..];
      }
      return true;
    }
  }

  /** Handling an event leaves nothing pending. */
  lemma HandleQuiet(s: State, wire: seq<byte>)
    requires Valid(s)
    ensures s.pending == EV_NONE ==> Drain(s, wire) == Driven(s, wire, true)
    ensures s.pending != EV_NONE ==>
      Drain(s, wire) == Handle(Poll(s), wire, s.ev) && Handle(Poll(s), wire, s.ev).s.pending == EV_NONE
    ensures s.pending in {EV_MESSAGE, EV_PING} ==> s.ev.off + s.ev.len <= |s.msg|
    ensures s.pending != EV_NONE ==> s.ev.kind == s.pending
  {
    hide Built, ClosePayload;
  }
}
