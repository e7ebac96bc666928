/**
 * The load-generating client of the counter server: its command line, the
 * requests it sends, and the loop that sends one request, reads one reply
 * line and tallies it, until the time is up or the connection ends.
 *
 * The clock and the random draws are inputs: the loop is given the draws
 * it makes, one pair (key, percentage) per round, and stops when they run
 * out, which stands for the time running out.
 */
module CounterClient {
  import opened Wrappers
  import opened Text
  import opened LineReader
  import opened Machine
  import Server = CounterServer

  // ---------------------------------------------------------------------------
  // The command line: `parse_args`.

  datatype ClientArgs = ClientArgs(host: string, port: int, seconds: int, keys: int, writePct: int, seed: int, verbose: bool)

  /** How `parse_args` ends: with settings, by printing usage and exiting, or by an uncaught `std::stoi` exception. */
  datatype ClientStart = Start(args: ClientArgs) | PrintUsage | Abort

  const DEFAULT_CLIENT_ARGS := ClientArgs("127.0.0.1", 9000, 5, 10000, 50, 42, false)

  /** One `--flag N` argument: `std::stoi` of the value, stored by `set`, or an abort. */
  function IntArgument(argv: seq<string>, i: nat, a: ClientArgs, flag: string): ClientStart
    requires i + 1 < |argv|
    decreases |argv| - i, 0
  {
    match Stoi(argv[i + 1])
    case None => Abort
    case Some(v) =>
      var b :=
        if flag == "--port" then a.(port := v)
        else if flag == "--secs" then a.(seconds := v)
        else if flag == "--keys" then a.(keys := v)
        else if flag == "--writes" then a.(writePct := v)
        else a.(seed := v);
      ScanClientArgs(argv, i + 2, b)
  }

  /** Flags that take a number. */
  predicate IntFlag(s: string) {
    s == "--port" || s == "--secs" || s == "--keys" || s == "--writes" || s == "--seed"
  }

  /**
   * The argument loop of `parse_args` from position `i` on. A flag that
   * takes a value is only recognised when a value follows it; anything not
   * recognised is skipped.
   */
  function ScanClientArgs(argv: seq<string>, i: nat, a: ClientArgs): ClientStart
    decreases |argv| - i, 1
  {
    if i >= |argv| then Start(a)
    else if argv[i] == "--host" && i + 1 < |argv| then ScanClientArgs(argv, i + 2, a.(host := argv[i + 1]))
    else if IntFlag(argv[i]) && i + 1 < |argv| then IntArgument(argv, i, a, argv[i])
    else if argv[i] == "--verbose" then ScanClientArgs(argv, i + 1, a.(verbose := true))
    else if argv[i] == "-h" || argv[i] == "--help" then PrintUsage
    else ScanClientArgs(argv, i + 1, a)
  }

  /** The clamp after the loop: `write_pct` forced into [0, 100]. */
  function ClampPercent(p: int): (r: int)
    ensures 0 <= r <= 100
    ensures 0 <= p <= 100 ==> r == p
    ensures p < 0 ==> r == 0
    ensures p > 100 ==> r == 100
  {
    if p < 0 then 0 else if p > 100 then 100 else p
  }

  function ClientArgsSpec(argv: seq<string>): ClientStart {
    match ScanClientArgs(argv, 1, DEFAULT_CLIENT_ARGS)
    case Start(a) => Start(a.(writePct := ClampPercent(a.writePct)))
    case other => other
  }

  /** `parse_args(argc, argv)`; `argv[0]` is the program name. */
  method ParseClientArgs(argv: seq<string>) returns (r: ClientStart)
    ensures r == ClientArgsSpec(argv)
  {
    var a := DEFAULT_CLIENT_ARGS;
    var i := 1;
    while i < |argv|
      invariant 1 <= i
      invariant ScanClientArgs(argv, 1, DEFAULT_CLIENT_ARGS) == ScanClientArgs(argv, i, a)
      decreases |argv| - i
    {
      var s := argv[i];
      if s == "--host" && i + 1 < |argv| {
        i := i + 1;
        a := a.(host := argv[i]);
      } else if IntFlag(s) && i + 1 < |argv| {
        i := i + 1;
        var v := Stoi(argv[i]);
        if v.None? {
          return Abort;
        }
        if s == "--port" {
          a := a.(port := v.value);
        } else if s == "--secs" {
          a := a.(seconds := v.value);
        } else if s == "--keys" {
          a := a.(keys := v.value);
        } else if s == "--writes" {
          a := a.(writePct := v.value);
        } else {
          a := a.(seed := v.value);
        }
      } else if s == "--verbose" {
        a := a.(verbose := true);
      } else if s == "-h" || s == "--help" {
        return PrintUsage;
      }
      i := i + 1;
    }
    if a.writePct < 0 {
      a := a.(writePct := 0);
    }
    if a.writePct > 100 {
      a := a.(writePct := 100);
    }
    return Start(a);
  }

  /** Without arguments: 127.0.0.1:9000 for 5 seconds over 10000 keys, half of the requests writes, seed 42, quiet. */
  lemma DefaultClientArgs(prog: string)
    ensures ClientArgsSpec([prog]) == Start(ClientArgs("127.0.0.1", 9000, 5, 10000, 50, 42, false))
  {
  }

  /** `--writes P` ends up as P clamped into [0, 100]; a trailing `--writes` without a value is ignored. */
  lemma WritesArgument(prog: string, p: int)
    requires INT_MIN <= p <= INT_MAX
    ensures ClientArgsSpec([prog, "--writes", IntToDecimal(p)]) == Start(DEFAULT_CLIENT_ARGS.(writePct := ClampPercent(p)))
    ensures ClientArgsSpec([prog, "--writes"]) == Start(DEFAULT_CLIENT_ARGS)
  {
    var d := IntToDecimal(p);
    ScanIntegerOfDecimal(p, []);
    assert d + [] == d;
    assert Stoi(d) == Some(p);
    var argv := [prog, "--writes", d];
    assert ScanClientArgs(argv, 1, DEFAULT_CLIENT_ARGS) == IntArgument(argv, 1, DEFAULT_CLIENT_ARGS, "--writes");
    assert ScanClientArgs(argv, 3, DEFAULT_CLIENT_ARGS.(writePct := p)) == Start(DEFAULT_CLIENT_ARGS.(writePct := p));
    var short := [prog, "--writes"];
    assert !(short[1] == "--host") && !(short[1] == "--verbose") && !(short[1] == "-h" || short[1] == "--help");
    assert ScanClientArgs(short, 1, DEFAULT_CLIENT_ARGS) == ScanClientArgs(short, 2, DEFAULT_CLIENT_ARGS);
  }

  /** Whatever the arguments, a client that starts has a write percentage in [0, 100]. */
  lemma StartedPercentInRange(argv: seq<string>)
    ensures ClientArgsSpec(argv).Start? ==> 0 <= ClientArgsSpec(argv).args.writePct <= 100
  {
  }

  // ---------------------------------------------------------------------------
  // Requests.

  /** `"key" + std::to_string(k)` for a key drawn from [0, keys - 1]. */
  function KeyName(k: nat): (key: string)
    ensures |key| > 0 && NoSpace(key) && '\n' !in key
  {
    var key := "key" + NatToDecimal(k);
    assert forall i :: 3 <= i < |key| ==> key[i] == NatToDecimal(k)[i - 3];
    key
  }

  /** A round writes when its percentage draw in [0, 99] is below `write_pct`. */
  predicate IsWrite(pct: int, writePct: int) {
    pct < writePct
  }

  /** The request without its newline. */
  function RequestText(k: nat, write: bool): string {
    if write then "INCR " + KeyName(k) + " 1" else "GET " + KeyName(k)
  }

  /** The bytes `write_all` sends for one round. */
  function Request(k: nat, write: bool): string {
    RequestText(k, write) + "\n"
  }

  /** How many of the percentage draws 0 .. n - 1 make a write. */
  function WritingDraws(writePct: int, n: nat): nat {
    if n == 0 then 0 else WritingDraws(writePct, n - 1) + if IsWrite(n - 1, writePct) then 1 else 0
  }

  /**
   * `write_pct` is the share of writes: of the 100 equally likely draws,
   * exactly `write_pct` write (none for 0, all for 100).
   */
  lemma {:induction false} WritePercentIsShare(writePct: int, n: nat)
    requires 0 <= writePct
    ensures WritingDraws(writePct, n) == if n < writePct then n else writePct
  {
    if n > 0 {
      WritePercentIsShare(writePct, n - 1);
    }
  }

  lemma WriteShareOfClampedPercent(writePct: int)
    requires 0 <= writePct <= 100
    ensures WritingDraws(writePct, 100) == writePct
  {
    WritePercentIsShare(writePct, 100);
  }

  // ---------------------------------------------------------------------------
  // What the server makes of a request.

  /** The request text holds no newline, so the request is exactly one line. */
  lemma RequestTextIsOneLine(k: nat, write: bool)
    ensures '\n' !in RequestText(k, write) && |RequestText(k, write)| > 0
  {
    var key := KeyName(k);
    assert '\n' !in "INCR " && '\n' !in " 1" && '\n' !in "GET ";
  }

  /** A buffer that starts with a line: the line is served and the rest stays buffered. */
  lemma LeadingLine(text: string, rest: string, recvs: seq<RecvResult>, retryWouldBlock: bool)
    requires '\n' !in text
    ensures NextLine(text + "\n" + rest, recvs, retryWouldBlock) == Line(text, rest, 0)
  {
    var buf := text + "\n" + rest;
    assert buf[..|text|] == text;
    SplitsAtFirstNewline(buf, recvs, retryWouldBlock, |text|);
    assert buf[|text| + 1..] == rest;
  }

  /** The server parses a request as the command the client meant. */
  lemma ServerParsesRequest(k: nat, write: bool)
    ensures Server.ParseCommand(RequestText(k, write)) == if write then Server.Incr(KeyName(k), 1) else Server.Get(KeyName(k))
  {
    var key := KeyName(k);
    if write {
      Server.ParseIncrLine(key, 1);
      assert IntToDecimal(1) == "1";
      assert "INCR " + key + " " + "1" == "INCR " + key + " 1";
    } else {
      Server.ParseGetLine(key);
    }
  }

  /** The server reads a request as one line, and parses it as the command the client meant. */
  lemma ServerReadsRequest(k: nat, write: bool, rest: string, recvs: seq<RecvResult>)
    ensures NextLine(Request(k, write) + rest, recvs, true) == Line(RequestText(k, write), rest, 0)
    ensures Server.ParseCommand(RequestText(k, write)) == if write then Server.Incr(KeyName(k), 1) else Server.Get(KeyName(k))
  {
    RequestTextIsOneLine(k, write);
    LeadingLine(RequestText(k, write), rest, recvs, true);
    ServerParsesRequest(k, write);
  }

  // ---------------------------------------------------------------------------
  // The request loop.

  /** `ops`, `reads` and `writes`. */
  datatype Tally = Tally(ops: nat, readCount: nat, writeCount: nat)

  /** One completed round: a write counts when the reply starts "OK ", a read when it starts "VALUE ". */
  function Count(t: Tally, write: bool, reply: string): Tally {
    Tally(t.ops + 1,
          if !write && StartsWith(reply, "VALUE ") then t.readCount + 1 else t.readCount,
          if write && StartsWith(reply, "OK ") then t.writeCount + 1 else t.writeCount)
  }

  /**
   * What the loop leaves: the tally, and how many rounds sent their request
   * (round `j` sends the request for `draws[j]`).
   */
  datatype ClientRun = ClientRun(tally: Tally, rounds: nat)

  /**
   * The rounds from `draws[i]` on: each sends its request, then reads one reply
   * line (`read_line` retries only EINTR), and stops at the end of the stream.
   */
  function Rounds(draws: seq<(nat, int)>, i: nat, writePct: int, buf: string, recvs: seq<RecvResult>, t: Tally): ClientRun
    decreases |draws| - i
  {
    if i >= |draws| then ClientRun(t, 0)
    else
      var write := IsWrite(draws[i].1, writePct);
      match NextLine(buf, recvs, false)
      case Eof(_, _) => ClientRun(t, 1)
      case Line(line, rest, used) =>
        var more := Rounds(draws, i + 1, writePct, rest, recvs[used..], Count(t, write, line));
        ClientRun(more.tally, 1 + more.rounds)
  }

  /** One round of the loop that reads a reply line. */
  lemma RoundsStep(draws: seq<(nat, int)>, i: nat, writePct: int, buf: string, recvs: seq<RecvResult>, pos: nat, t: Tally,
                   line: string, rest: string, used: nat)
    requires i < |draws| && pos <= |recvs|
    requires NextLine(buf, recvs[pos..], false) == Line(line, rest, used)
    ensures pos + used <= |recvs|
    ensures var write := IsWrite(draws[i].1, writePct);
      var more := Rounds(draws, i + 1, writePct, rest, recvs[pos + used..], Count(t, write, line));
      Rounds(draws, i, writePct, buf, recvs[pos..], t) == ClientRun(more.tally, 1 + more.rounds)
  {
    assert recvs[pos..][used..] == recvs[pos + used..];
  }

  /** The round that meets the end of the stream is the last. */
  lemma RoundsStop(draws: seq<(nat, int)>, i: nat, writePct: int, buf: string, recvs: seq<RecvResult>, t: Tally,
                   rest: string, used: nat)
    requires i < |draws|
    requires NextLine(buf, recvs, false) == Eof(rest, used)
    ensures Rounds(draws, i, writePct, buf, recvs, t) == ClientRun(t, 1)
  {
  }

  /**
   * One round of the loop body: the request for `draws[i]`, which the round
   * sends, and one reply line read from the stream `recvs`. Returns whether
   * a line was read, the line, the buffer left after it, the number of
   * `recv` results consumed and the tally.
   */
  method Round(draws: seq<(nat, int)>, i: nat, writePct: int, line: string, rdbuf: string, recvs: seq<RecvResult>, t: Tally)
    returns (cmd: string, ok: bool, out: string, buf: string, used: nat, t': Tally)
    requires i < |draws|
    ensures cmd == Request(draws[i].0, IsWrite(draws[i].1, writePct))
    ensures ok ==>
      && used <= |recvs|
      && t' == Count(t, IsWrite(draws[i].1, writePct), out)
      && var more := Rounds(draws, i + 1, writePct, buf, recvs[used..], t');
      Rounds(draws, i, writePct, rdbuf, recvs, t) == ClientRun(more.tally, 1 + more.rounds)
    ensures !ok ==> Rounds(draws, i, writePct, rdbuf, recvs, t) == ClientRun(t, 1)
  {
    var k := draws[i].0;
    var write := IsWrite(draws[i].1, writePct);
    cmd := Request(k, write);
    ok, out, buf, used := ReadLine(line, rdbuf, recvs, false);
    t' := Count(t, write, out);
    if !ok {
      RoundsStop(draws, i, writePct, rdbuf, recvs, t, buf, used);
    } else {
      RoundsStep(draws, i, writePct, rdbuf, recvs, 0, t, out, buf, used);
      assert recvs[0..] == recvs;
    }
  }

  /**
   * The main loop, from an empty read buffer and a zero tally: the tally the
   * rounds leave, and the requests written, one per round in order.
   */
  method RunClient(writePct: int, draws: seq<(nat, int)>, recvs: seq<RecvResult>) returns (t: Tally, sent: seq<string>)
    ensures var r := Rounds(draws, 0, writePct, "", recvs, Tally(0, 0, 0));
      && t == r.tally && |sent| == r.rounds && SentInOrder(draws, writePct, sent)
  {
    t := Tally(0, 0, 0);
    sent := [];
    var line, rdbuf := "", "";
    var stream := recvs;
    var i := 0;
    ghost var rest := Rounds(draws, i, writePct, rdbuf, stream, t);
    ghost var whole := rest;
    while i < |draws|
      invariant i <= |draws|
      invariant rest == Rounds(draws, i, writePct, rdbuf, stream, t)
      invariant whole.tally == rest.tally && whole.rounds == i + rest.rounds
      invariant |sent| == i
      invariant SentInOrder(draws, writePct, sent)
    {
      var cmd, ok, out, buf, used, t' := Round(draws, i, writePct, line, rdbuf, stream, t);
      SentOneMore(draws, writePct, sent, cmd);
      sent := sent + [cmd];
      if !ok {
        return;
      }
      rest := Rounds(draws, i + 1, writePct, buf, stream[used..], t');
      line, rdbuf := out, buf;
      t := t';
      stream := stream[used..];
      i := i + 1;
    }
  }

  /** The request of every round, in order. */
  function Requests(draws: seq<(nat, int)>, writePct: int): (rs: seq<string>)
    ensures |rs| == |draws|
    ensures forall j :: 0 <= j < |draws| ==> rs[j] == Request(draws[j].0, IsWrite(draws[j].1, writePct))
  {
    seq(|draws|, j requires 0 <= j < |draws| => Request(draws[j].0, IsWrite(draws[j].1, writePct)))
  }

  /** `sent` holds the requests of the first `|sent|` rounds, in order. */
  predicate SentInOrder(draws: seq<(nat, int)>, writePct: int, sent: seq<string>)
  {
    |sent| <= |draws| && sent == Requests(draws, writePct)[..|sent|]
  }

  /** Extending a prefix of `r` by the next element of `r` gives the next prefix. */
  lemma PrefixExtend<T>(r: seq<T>, p: seq<T>, x: T)
    requires |p| < |r| && p == r[..|p|] && x == r[|p|]
    ensures p + [x] == r[..|p| + 1]
  {
    assert r[..|p| + 1] == r[..|p|] + [r[|p|]];
  }

  lemma SentOneMore(draws: seq<(nat, int)>, writePct: int, sent: seq<string>, cmd: string)
    requires SentInOrder(draws, writePct, sent) && |sent| < |draws|
    requires cmd == Request(draws[|sent|].0, IsWrite(draws[|sent|].1, writePct))
    ensures SentInOrder(draws, writePct, sent + [cmd])
  {
    PrefixExtend(Requests(draws, writePct), sent, cmd);
  }

  /** Every completed round is counted once, and at most once as a read or a write; every round sends one request. */
  lemma {:induction false} TallyBounds(draws: seq<(nat, int)>, i: nat, writePct: int, buf: string, recvs: seq<RecvResult>, t: Tally)
    requires i <= |draws| && t.readCount + t.writeCount <= t.ops
    ensures var r := Rounds(draws, i, writePct, buf, recvs, t);
      && r.tally.readCount + r.tally.writeCount <= r.tally.ops
      && t.ops <= r.tally.ops <= t.ops + (|draws| - i)
      && r.rounds <= |draws| - i
      && (r.rounds == r.tally.ops - t.ops || r.rounds == r.tally.ops - t.ops + 1)
    decreases |draws| - i
  {
    if i < |draws| {
      var write := IsWrite(draws[i].1, writePct);
      match NextLine(buf, recvs, false)
      case Eof(_, _) =>
      case Line(line, rest, used) =>
        TallyBounds(draws, i + 1, writePct, rest, recvs[used..], Count(t, write, line));
    }
  }

  /** The reply line (without its newline) the counter server sends for a request on `key`. */
  function ServerLine(st: Server.Store, key: string, write: bool): string {
    if write then "OK " + NatToDecimal((Server.Lookup(st.counters, key) + 1) % TWO_64)
    else "VALUE " + NatToDecimal(Server.Lookup(st.counters, key))
  }

  lemma ExecuteRequest(st: Server.Store, key: string, write: bool, uptime: string)
    ensures Server.Execute(st, if write then Server.Incr(key, 1) else Server.Get(key), uptime).reply
         == Some(ServerLine(st, key, write) + "\n")
  {
  }

  /** The server answers a request with "OK <value>" for an INCR and "VALUE <value>" for a GET. */
  lemma ServerAnswersRequest(st: Server.Store, k: nat, write: bool, uptime: string)
    ensures Server.Step(st, RequestText(k, write), uptime).reply == Some(ServerLine(st, KeyName(k), write) + "\n")
  {
    RequestTextIsOneLine(k, write);
    ServerParsesRequest(k, write);
    ExecuteRequest(st, KeyName(k), write, uptime);
  }

  /** The client counts a reply line of the counter server as a write for an INCR and as a read for a GET. */
  lemma CountsServerLine(st: Server.Store, key: string, write: bool, t: Tally)
    ensures Count(t, write, ServerLine(st, key, write))
         == Tally(t.ops + 1, if write then t.readCount else t.readCount + 1, if write then t.writeCount + 1 else t.writeCount)
  {
    var line := ServerLine(st, key, write);
    if write {
      assert line[..3] == "OK ";
    } else {
      assert line[..6] == "VALUE ";
    }
  }

  /** Against the counter server every reply is counted: as a write for each INCR, as a read for each GET. */
  lemma ServerRepliesAreCounted(st: Server.Store, k: nat, write: bool, uptime: string, t: Tally)
    ensures Server.Step(st, RequestText(k, write), uptime).reply == Some(ServerLine(st, KeyName(k), write) + "\n")
    ensures Count(t, write, ServerLine(st, KeyName(k), write))
         == Tally(t.ops + 1, if write then t.readCount else t.readCount + 1, if write then t.writeCount + 1 else t.writeCount)
  {
    ServerAnswersRequest(st, k, write, uptime);
    CountsServerLine(st, KeyName(k), write, t);
  }
}
