/**
 * The buffered line reader of the counter server and of its client
 * (`read_line`): hand out the bytes before the first '\n' of the connection
 * buffer, receiving more bytes while the buffer holds no complete line.
 * The socket is replaced by the list of results its `recv` calls return.
 */
module LineReader {
  import opened Wrappers
  import opened Text

  /** One result of `recv`: the bytes received (none means the peer closed), or an error. */
  datatype RecvResult = Received(bytes: string) | Interrupted | WouldBlock | Failed

  /**
   * What `read_line` produces: a line and the buffer left after it, or the end
   * of the stream with the partial line still buffered. `used` counts the
   * `recv` results consumed.
   */
  datatype ReadOutcome = Line(line: string, rest: string, used: nat) | Eof(rest: string, used: nat)

  /** An error result after which `recv` is simply called again: EINTR always, EAGAIN only for the server. */
  predicate Retried(r: RecvResult, retryWouldBlock: bool) {
    r.Interrupted? || (r.WouldBlock? && retryWouldBlock)
  }

  /** Every byte the given `recv` results deliver, in order. */
  function Bytes(rs: seq<RecvResult>): string {
    if |rs| == 0 then []
    else (if rs[0].Received? then rs[0].bytes else []) + Bytes(rs[1..])
  }

  function Later(r: ReadOutcome): ReadOutcome {
    r.(used := r.used + 1)
  }

  lemma BytesCons(rs: seq<RecvResult>, u: nat)
    requires u < |rs|
    ensures Bytes(rs[..u + 1]) == (if rs[0].Received? then rs[0].bytes else []) + Bytes(rs[1..][..u])
  {
    assert rs[..u + 1][1..] == rs[1..][..u];
  }

  /**
   * The outcome of one `read_line` call on buffer `buf` when the next `recv`
   * calls return `recvs` in order (a list that runs out counts as a closed
   * peer). What the outcome holds is stated by NextLineSplitsStream.
   */
  function NextLine(buf: string, recvs: seq<RecvResult>, retryWouldBlock: bool): (r: ReadOutcome)
    ensures r.used <= |recvs|
    ensures r.Line? && r.used == 0 ==> |r.rest| < |buf|
    decreases |recvs|
  {
    match IndexOf(buf, '\n')
    case Some(pos) => Line(buf[..pos], buf[pos + 1..], 0)
    case None =>
      if |recvs| == 0 then Eof(buf, 0)
      else if recvs[0].Received? && recvs[0].bytes != [] then
        Later(NextLine(buf + recvs[0].bytes, recvs[1..], retryWouldBlock))
      else if Retried(recvs[0], retryWouldBlock) then
        Later(NextLine(buf, recvs[1..], retryWouldBlock))
      else
        Eof(buf, 1)
  }

  /**
   * A line is everything before the first newline of the buffered and received
   * bytes; the newline is dropped and what follows it stays buffered. At the
   * end of the stream every byte received stays buffered, and it holds no
   * newline. A buffered newline is served without any `recv`.
   */
  predicate SplitsStream(buf: string, recvs: seq<RecvResult>, r: ReadOutcome)
    requires r.used <= |recvs|
  {
    && (r.Line? ==> r.line + "\n" + r.rest == buf + Bytes(recvs[..r.used]) && '\n' !in r.line)
    && (r.Eof? ==> r.rest == buf + Bytes(recvs[..r.used]) && '\n' !in r.rest)
    && ('\n' in buf ==> r.Line? && r.used == 0)
  }

  lemma {:induction false} NextLineSplitsStream(buf: string, recvs: seq<RecvResult>, retryWouldBlock: bool)
    ensures SplitsStream(buf, recvs, NextLine(buf, recvs, retryWouldBlock))
    decreases |recvs|
  {
    if IndexOf(buf, '\n').Some? {
      SplitsBuffered(buf, recvs, retryWouldBlock);
    } else if |recvs| > 0 && recvs[0].Received? && recvs[0].bytes != [] {
      var b := recvs[0].bytes;
      NextLineSplitsStream(buf + b, recvs[1..], retryWouldBlock);
      SplitsAfterReceive(buf, b, recvs, NextLine(buf + b, recvs[1..], retryWouldBlock));
    } else if |recvs| > 0 && Retried(recvs[0], retryWouldBlock) {
      NextLineSplitsStream(buf, recvs[1..], retryWouldBlock);
      SplitsAfterReceive(buf, [], recvs, NextLine(buf, recvs[1..], retryWouldBlock));
    } else {
      SplitsAtEnd(buf, recvs, retryWouldBlock);
    }
  }

  /** A buffered newline: the line is served from the buffer alone. */
  lemma SplitsBuffered(buf: string, recvs: seq<RecvResult>, retryWouldBlock: bool)
    requires IndexOf(buf, '\n').Some?
    ensures SplitsStream(buf, recvs, NextLine(buf, recvs, retryWouldBlock))
  {
    var pos := IndexOf(buf, '\n').value;
    assert NextLine(buf, recvs, retryWouldBlock) == Line(buf[..pos], buf[pos + 1..], 0);
    assert buf == buf[..pos] + "\n" + buf[pos + 1..];
  }

  /** No newline buffered and a `recv` that ends the stream: the partial line stays buffered. */
  lemma SplitsAtEnd(buf: string, recvs: seq<RecvResult>, retryWouldBlock: bool)
    requires IndexOf(buf, '\n').None?
    requires |recvs| > 0 ==> !(recvs[0].Received? && recvs[0].bytes != []) && !Retried(recvs[0], retryWouldBlock)
    ensures SplitsStream(buf, recvs, NextLine(buf, recvs, retryWouldBlock))
  {
    if |recvs| == 0 {
      assert recvs[..0] == [];
    } else {
      BytesCons(recvs, 0);
      assert Bytes(recvs[..1]) == [];
    }
  }

  /**
   * One `recv` that delivered `b` (nothing, for a retried error) before the
   * outcome `r` of the rest of the stream: the split of the rest is a split
   * of the whole.
   */
  lemma SplitsAfterReceive(buf: string, b: string, recvs: seq<RecvResult>, r: ReadOutcome)
    requires '\n' !in buf && |recvs| > 0 && r.used <= |recvs| - 1
    requires b == if recvs[0].Received? then recvs[0].bytes else []
    requires SplitsStream(buf + b, recvs[1..], r)
    ensures SplitsStream(buf, recvs, Later(r))
  {
    BytesCons(recvs, r.used);
    assert buf + Bytes(recvs[..r.used + 1]) == (buf + b) + Bytes(recvs[1..][..r.used]);
  }

  /**
   * `read_line(fd, out, buf)`: returns whether a line was read; `out` keeps its
   * old value at the end of the stream.
   */
  method ReadLine(out0: string, buf0: string, recvs: seq<RecvResult>, retryWouldBlock: bool)
    returns (ok: bool, out: string, buf: string, used: nat)
    ensures ok ==> NextLine(buf0, recvs, retryWouldBlock) == Line(out, buf, used)
    ensures !ok ==> NextLine(buf0, recvs, retryWouldBlock) == Eof(buf, used) && out == out0
  {
    out, buf, used := out0, buf0, 0;
    while true
      invariant used <= |recvs|
      invariant NextLine(buf0, recvs, retryWouldBlock)
             == NextLine(buf, recvs[used..], retryWouldBlock).(used := NextLine(buf, recvs[used..], retryWouldBlock).used + used)
      invariant out == out0
      decreases |recvs| - used
    {
      var pos := IndexOf(buf, '\n');
      if pos.Some? {
        out := buf[..pos.value];
        buf := buf[pos.value + 1..];
        return true, out, buf, used;
      }
      if used == |recvs| {
        return false, out, buf, used;
      }
      var n := recvs[used];
      assert recvs[used..][1..] == recvs[used + 1..];
      if n.Received? && n.bytes == [] {
        return false, out, buf, used + 1;    // peer closed
      }
      if !n.Received? {
        used := used + 1;
        if Retried(n, retryWouldBlock) {
          continue;
        }
        return false, out, buf, used;        // receive error
      }
      buf := buf + n.bytes;
      used := used + 1;
    }
  }

  // ---------------------------------------------------------------------------
  // Properties of the line reader.

  /** With a newline already buffered, no `recv` happens: the line is the text before the first newline and the buffer keeps what follows it. */
  lemma SplitsAtFirstNewline(buf: string, recvs: seq<RecvResult>, retryWouldBlock: bool, pos: nat)
    requires pos < |buf| && buf[pos] == '\n' && '\n' !in buf[..pos]
    ensures NextLine(buf, recvs, retryWouldBlock) == Line(buf[..pos], buf[pos + 1..], 0)
  {
    var r := NextLine(buf, recvs, retryWouldBlock);
    NextLineSplitsStream(buf, recvs, retryWouldBlock);
    assert buf == buf[..pos] + "\n" + buf[pos + 1..];
    LineIsUnique(r.line, r.rest, buf[..pos], buf[pos + 1..]);
  }

  /** Two "line, newline, rest" splits of the same text whose lines hold no newline are the same split. */
  lemma {:induction false} LineIsUnique(l1: string, r1: string, l2: string, r2: string)
    requires l1 + "\n" + r1 == l2 + "\n" + r2
    requires '\n' !in l1 && '\n' !in l2
    ensures l1 == l2 && r1 == r2
  {
    var s := l1 + "\n" + r1;
    if |l1| != |l2| {
      NewlineAfter(l1, r1);
      NewlineAfter(l2, r2);
      assert false;
    }
    assert l1 == s[..|l1|] == l2;
    assert r1 == s[|l1| + 1..] == r2;
  }

  lemma NewlineAfter(l: string, r: string)
    ensures (l + "\n" + r)[|l|] == '\n'
    ensures forall i :: 0 <= i < |l| ==> (l + "\n" + r)[i] == l[i]
  {
  }

  /** Without a buffered newline, received bytes are appended and nothing is consumed until a newline arrives; a zero-length receive ends the stream keeping the partial line. */
  lemma PeerCloseKeepsPartialLine(buf: string, chunk: string, retryWouldBlock: bool)
    requires '\n' !in buf && '\n' !in chunk && chunk != []
    ensures NextLine(buf, [Received(chunk), Received([])], retryWouldBlock) == Eof(buf + chunk, 2)
  {
    var rs := [Received(chunk), Received([])];
    assert '\n' !in buf + chunk;
    assert rs[1..] == [Received([])];
    assert NextLine(buf + chunk, rs[1..], retryWouldBlock) == Eof(buf + chunk, 1);
  }
}
