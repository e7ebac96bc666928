/**
 * The counter server's per-connection logic: a line protocol over a store of
 * named unsigned 64-bit counters (`ServerState`), plus its command line.
 *
 * Commands, one per line, fields separated by white space:
 *   INCR key [delta]   add delta (default 1) modulo 2^64, reply "OK <value>"
 *   GET key            reply "VALUE <value>" (0 for a key never incremented)
 *   STATS              reply "STATS ops=<n> uptime_s=<t> keys=<k>"
 *   QUIT               reply "BYE" and end the session
 * Anything else is answered "ERR unknown_command"; empty lines are skipped.
 */
module CounterServer {
  import opened Wrappers
  import opened Text
  import opened LineReader
  import opened Machine

  /** A non-empty request line as `handle_client` reads it with an `istringstream`. */
  datatype Command = Incr(key: string, delta: int) | Get(key: string) | Stats | Quit | Unknown

  /**
   * The verb is the first field. INCR and GET take the next field as the key
   * ("" when it is missing). INCR reads a `long long` from the rest of the
   * line and falls back to 1 when that read fails.
   */
  function ParseCommand(line: string): Command {
    var (verb, afterVerb) := NextToken(line);
    if verb == "INCR" then
      var (key, afterKey) := NextToken(afterVerb);
      Incr(key, match ScanLong(afterKey) case Some(sc) => sc.value case None => 1)
    else if verb == "GET" then Get(NextToken(afterVerb).0)
    else if verb == "STATS" then Stats
    else if verb == "QUIT" then Quit
    else Unknown
  }

  /** The value of `ServerState` apart from its start time. */
  datatype Store = Store(counters: map<string, u64>, ops: u64)

  /** What one line does: the new store, the reply written back (if any), and whether the session ends. */
  datatype StepResult = StepResult(store: Store, reply: Option<string>, close: bool)

  function Lookup(counters: map<string, u64>, key: string): u64 {
    if key in counters then counters[key] else 0
  }

  /** `++x` on a `uint64_t`. */
  function Inc64(x: u64): u64 {
    (x + 1) % TWO_64
  }

  /** The replies, each one line. */
  function OkReply(v: u64): string { "OK " + NatToDecimal(v) + "\n" }
  function ValueReply(v: u64): string { "VALUE " + NatToDecimal(v) + "\n" }
  function StatsReply(ops: u64, uptime: string, keys: nat): string {
    "STATS ops=" + NatToDecimal(ops) + " uptime_s=" + uptime + " keys=" + NatToDecimal(keys) + "\n"
  }
  const BYE_REPLY := "BYE\n"
  const ERR_REPLY := "ERR unknown_command\n"

  /** What one command does to the store: INCR, GET and STATS count one operation, INCR also sets its key. */
  function NextStore(st: Store, cmd: Command): Store
  {
    match cmd
    case Incr(key, delta) => Store(st.counters[key := (Lookup(st.counters, key) + delta) % TWO_64], Inc64(st.ops))
    case Get(_) => st.(ops := Inc64(st.ops))
    case Stats => st.(ops := Inc64(st.ops))
    case Quit => st
    case Unknown => st
  }

  /** What one command does to the store, its reply, and whether the session ends. */
  function Execute(st: Store, cmd: Command, uptime: string): StepResult
  {
    var next := NextStore(st, cmd);
    match cmd
    case Incr(key, _) => StepResult(next, Some(OkReply(next.counters[key])), false)
    case Get(key) => StepResult(next, Some(ValueReply(Lookup(st.counters, key))), false)
    case Stats => StepResult(next, Some(StatsReply(next.ops, uptime, |st.counters|)), false)
    case Quit => StepResult(next, Some(BYE_REPLY), true)
    case Unknown => StepResult(next, Some(ERR_REPLY), false)
  }

  /**
   * One pass of `handle_client`'s loop on a line already read: empty lines are
   * skipped. `uptime` is the formatted `uptime_s` value of the STATS reply, a
   * clock reading.
   */
  function Step(st: Store, line: string, uptime: string): StepResult
  {
    if line == [] then StepResult(st, None, false) else Execute(st, ParseCommand(line), uptime)
  }

  /**
   * A whole connection: lines are read with the server's `read_line` from the
   * `recv` results `recvs`, each non-empty line is answered, and the session
   * ends at the end of the stream or after QUIT. Returns the final store and
   * the replies in order.
   */
  function Session(st: Store, buf: string, recvs: seq<RecvResult>, uptime: string): (Store, seq<string>)
    decreases |recvs|, |buf|
  {
    match NextLine(buf, recvs, true)
    case Eof(_, _) => (st, [])
    case Line(line, rest, used) =>
      if line == [] then Session(st, rest, recvs[used..], uptime)
      else
        var r := Step(st, line, uptime);
        if r.close then (r.store, [r.reply.value])
        else
          var more := Session(r.store, rest, recvs[used..], uptime);
          (more.0, [r.reply.value] + more.1)
  }

  /** `ServerState`: the counters and the number of processed commands. */
  class ServerState {
    var counters: map<string, u64>
    var ops: u64

    constructor ()
      ensures counters == map[] && ops == 0
    {
      counters := map[];
      ops := 0;
    }

    function Snapshot(): Store
      reads this
    {
      Store(counters, ops)
    }

    /** The dispatch on one parsed command in `handle_client`. */
    method Dispatch(cmd: Command, uptime: string) returns (reply: string, close: bool)
      modifies this
      ensures Execute(old(Snapshot()), cmd, uptime) == StepResult(Snapshot(), Some(reply), close)
    {
      close := false;
      match cmd
      case Incr(key, delta) =>
        // `counters_[key]` creates the entry with value 0 when it is missing;
        // the addition wraps modulo 2^64.
        var v: u64 := (Lookup(counters, key) + delta) % TWO_64;
        counters := counters[key := v];
        ops := Inc64(ops);
        reply := OkReply(v);
      case Get(key) =>
        var v: u64 := 0;
        if key in counters {
          v := counters[key];
        }
        assert v == Lookup(counters, key);
        ops := Inc64(ops);
        reply := ValueReply(v);
      case Stats =>
        ops := Inc64(ops);
        reply := StatsReply(ops, uptime, |counters|);
      case Quit =>
        reply, close := BYE_REPLY, true;
      case Unknown =>
        reply := ERR_REPLY;
    }

    /** One line read by `handle_client`: skipped when empty, otherwise parsed and dispatched. */
    method HandleLine(line: string, uptime: string) returns (reply: Option<string>, close: bool)
      modifies this
      ensures Step(old(Snapshot()), line, uptime) == StepResult(Snapshot(), reply, close)
      ensures reply.Some? <==> line != []
    {
      if |line| == 0 {
        return None, false;
      }
      var r;
      r, close := Dispatch(ParseCommand(line), uptime);
      reply := Some(r);
    }

    /** `handle_client`: serve one connection until the end of its stream or QUIT. */
    method HandleClient(recvs: seq<RecvResult>, uptime: string) returns (replies: seq<string>)
      modifies this
      ensures Session(old(Snapshot()), [], recvs, uptime) == (Snapshot(), replies)
    {
      ghost var whole := Session(Snapshot(), [], recvs, uptime);
      var inbuf: string, line: string := [], [];
      var rest := recvs;
      replies := [];
      assert replies + whole.1 == whole.1;
      while true
        invariant whole == (Session(Snapshot(), inbuf, rest, uptime).0, replies + Session(Snapshot(), inbuf, rest, uptime).1)
        decreases |rest|, |inbuf|
      {
        ghost var st := Snapshot();
        ghost var before := Session(st, inbuf, rest, uptime);
        var ok, out, buf, used := ReadLine(line, inbuf, rest, true);
        if !ok {
          SessionAtEof(st, inbuf, rest, uptime);
          assert replies + [] == replies;
          break;
        }
        ghost var oldBuf, oldRest := inbuf, rest;
        line, inbuf, rest := out, buf, rest[used..];
        if |line| == 0 {
          SessionSkipsEmptyLine(st, oldBuf, oldRest, uptime);
          continue;
        }
        ghost var prev := replies;
        var reply, close := HandleLine(line, uptime);
        SessionServesLine(st, oldBuf, oldRest, uptime, StepResult(Snapshot(), reply, close));
        replies := replies + [reply.value];
        if close {
          break;
        }
        ghost var after := Session(Snapshot(), inbuf, rest, uptime);
        assert prev + ([reply.value] + after.1) == replies + after.1;
      }
    }
  }

  /** The session ends with the stream. */
  lemma SessionAtEof(st: Store, buf: string, recvs: seq<RecvResult>, uptime: string)
    requires NextLine(buf, recvs, true).Eof?
    ensures Session(st, buf, recvs, uptime) == (st, [])
  {
  }

  /** An empty line is skipped. */
  lemma SessionSkipsEmptyLine(st: Store, buf: string, recvs: seq<RecvResult>, uptime: string)
    requires NextLine(buf, recvs, true).Line? && NextLine(buf, recvs, true).line == []
    ensures var n := NextLine(buf, recvs, true);
      Session(st, buf, recvs, uptime) == Session(st, n.rest, recvs[n.used..], uptime)
  {
  }

  /** A non-empty line is answered; the session goes on unless it was QUIT. */
  lemma SessionServesLine(st: Store, buf: string, recvs: seq<RecvResult>, uptime: string, r: StepResult)
    requires NextLine(buf, recvs, true).Line? && NextLine(buf, recvs, true).line != []
    requires r == Step(st, NextLine(buf, recvs, true).line, uptime)
    ensures var n := NextLine(buf, recvs, true);
      Session(st, buf, recvs, uptime)
      == if r.close then (r.store, [r.reply.value])
         else (Session(r.store, n.rest, recvs[n.used..], uptime).0, [r.reply.value] + Session(r.store, n.rest, recvs[n.used..], uptime).1)
  {
  }

  // ---------------------------------------------------------------------------
  // Properties of the protocol.

  /** The line a client sends for GET reads back as a GET of that key. */
  lemma ParseGetLine(key: string)
    requires |key| > 0 && NoSpace(key)
    ensures ParseCommand("GET " + key) == Get(key)
  {
    NextTokenOfWord("GET", " " + key);
    assert "GET " + key == "GET" + (" " + key);
    NextTokenSkipsSpace(" ", key);
    assert " " + key == " " + key + [];
    NextTokenOfWord(key, []);
    assert key + [] == key;
  }

  /** "INCR key arg" reads as an increment of that key by the `long long` that `arg` starts with, or by 1. */
  lemma ParseIncrArgument(key: string, arg: string)
    requires |key| > 0 && NoSpace(key)
    ensures ParseCommand("INCR " + key + " " + arg)
         == Incr(key, match ScanLong(" " + arg) case Some(sc) => sc.value case None => 1)
  {
    var afterVerb := " " + (key + (" " + arg));
    assert "INCR " + key + " " + arg == "INCR" + afterVerb;
    NextTokenOfWord("INCR", afterVerb);
    NextTokenSkipsSpace(" ", key + (" " + arg));
    NextTokenOfWord(key, " " + arg);
  }

  /** "INCR key n" reads back as an increment of that key by n, for every n that fits in a `long long`. */
  lemma ParseIncrLine(key: string, delta: int)
    requires |key| > 0 && NoSpace(key)
    requires LONG_MIN <= delta <= LONG_MAX
    ensures ParseCommand("INCR " + key + " " + IntToDecimal(delta)) == Incr(key, delta)
  {
    var d := IntToDecimal(delta);
    ParseIncrArgument(key, d);
    ScanIntegerOfDecimal(delta, []);
    assert d + [] == d;
    ScanIntegerSkipsSpace(" ", d);
  }

  /**
   * What each command touches: every command is answered, only QUIT ends the
   * session, only INCR changes the counters (and adds at most its own key),
   * and INCR, GET and STATS each count one operation.
   */
  lemma ExecuteEffects(st: Store, cmd: Command, uptime: string)
    ensures var r := Execute(st, cmd, uptime);
      && r.reply.Some?
      && (r.close <==> cmd.Quit?)
      && (cmd.Incr? ==> r.store.counters.Keys == st.counters.Keys + {cmd.key})
      && (!cmd.Incr? ==> r.store.counters == st.counters)
      && r.store.ops == if cmd.Quit? || cmd.Unknown? then st.ops else Inc64(st.ops)
  {
  }

  /** An empty line is skipped: no reply, no change. */
  lemma StepSkipsEmptyLine(st: Store, uptime: string)
    ensures Step(st, [], uptime) == StepResult(st, None, false)
  {
  }

  /** GET right after `INCR k` replies with the value that INCR reported, and changes no counter. */
  lemma GetAfterIncr(st: Store, key: string, delta: int, uptime: string)
    ensures var r1 := Execute(st, Incr(key, delta), uptime);
      var r2 := Execute(r1.store, Get(key), uptime);
      && r1.reply.value[..3] == "OK "
      && r2.reply.value == "VALUE " + r1.reply.value[3..]
      && r2.store.counters == r1.store.counters
  {
    var v := (Lookup(st.counters, key) + delta) % TWO_64;
    assert Lookup(st.counters[key := v], key) == v;
    var d := NatToDecimal(v);
    assert OkReply(v)[3..] == d + "\n";
  }

  /** GET of a key never incremented replies "VALUE 0" and inserts nothing. */
  lemma GetOfMissingKey(st: Store, key: string, uptime: string)
    requires key !in st.counters
    ensures Execute(st, Get(key), uptime) == StepResult(st.(ops := Inc64(st.ops)), Some("VALUE 0\n"), false)
  {
    assert NatToDecimal(0) == "0";
    assert ValueReply(0) == "VALUE 0\n";
  }

  /** Two increments of one key add up, modulo 2^64. */
  lemma IncrTwice(st: Store, key: string, a: int, b: int, uptime: string)
    ensures Execute(Execute(st, Incr(key, a), uptime).store, Incr(key, b), uptime).store.counters
         == Execute(st, Incr(key, a + b), uptime).store.counters
  {
    var x := Lookup(st.counters, key);
    var v1 := (x + a) % TWO_64;
    assert Lookup(st.counters[key := v1], key) == v1;
    ModAddMod(x + a, b);
  }

  /** Incrementing by -d undoes incrementing by d. */
  lemma IncrUndo(st: Store, key: string, d: int, uptime: string)
    requires key in st.counters
    ensures Execute(Execute(st, Incr(key, d), uptime).store, Incr(key, -d), uptime).store.counters == st.counters
  {
    IncrTwice(st, key, d, -d, uptime);
    assert Lookup(st.counters, key) % TWO_64 == st.counters[key];
  }

  /** Counters wrap modulo 2^64: decrementing a fresh key yields 2^64 - 1. */
  lemma NegativeDeltaWraps(uptime: string)
    ensures Execute(Store(map[], 0), Incr("k", -1), uptime).store.counters == map["k" := TWO_64 - 1]
  {
  }

  /** The store after a sequence of commands (replies dropped). */
  function Apply(st: Store, cmds: seq<Command>): Store
    decreases |cmds|
  {
    if |cmds| == 0 then st else Apply(NextStore(st, cmds[0]), cmds[1..])
  }

  /** The keys named by the INCR commands among `cmds`. */
  function IncrKeys(cmds: seq<Command>): set<string> {
    if |cmds| == 0 then {}
    else (if cmds[0].Incr? then {cmds[0].key} else {}) + IncrKeys(cmds[1..])
  }

  /** The number of commands that `ops` counts: INCR, GET and STATS. */
  function Counted(cmds: seq<Command>): nat {
    if |cmds| == 0 then 0
    else (if cmds[0].Quit? || cmds[0].Unknown? then 0 else 1) + Counted(cmds[1..])
  }

  /** The keys STATS counts are exactly those some INCR has named: GET never inserts a key. */
  lemma {:induction false} ApplyKeys(st: Store, cmds: seq<Command>)
    ensures Apply(st, cmds).counters.Keys == st.counters.Keys + IncrKeys(cmds)
    decreases |cmds|
  {
    if |cmds| > 0 {
      ApplyKeys(NextStore(st, cmds[0]), cmds[1..]);
    }
  }

  /** `ops` counts the INCR, GET and STATS commands, modulo 2^64; QUIT and unknown verbs do not count. */
  lemma {:induction false} ApplyOps(st: Store, cmds: seq<Command>)
    ensures Apply(st, cmds).ops == (st.ops + Counted(cmds)) % TWO_64
    decreases |cmds|
  {
    if |cmds| > 0 {
      var st' := NextStore(st, cmds[0]);
      var c := if cmds[0].Quit? || cmds[0].Unknown? then 0 else 1;
      assert st'.ops == (st.ops + c) % TWO_64;
      ApplyOps(st', cmds[1..]);
      ModAddMod(st.ops + c, Counted(cmds[1..]));
      assert Counted(cmds) == c + Counted(cmds[1..]);
    }
  }

  // ---------------------------------------------------------------------------
  // The command line: `parse_args`.

  datatype ServerArgs = ServerArgs(port: int, verbose: bool, reusePort: bool)

  /** How `parse_args` ends: with settings, by printing usage and exiting, or by an uncaught `std::stoi` exception. */
  datatype ArgsOutcome = Run(args: ServerArgs) | ShowUsage | Abort

  const DEFAULT_ARGS := ServerArgs(9000, false, true)

  /** `parse_args` from position `i` on, with settings `a` so far. */
  function ScanArgs(argv: seq<string>, i: nat, a: ServerArgs): ArgsOutcome
    decreases |argv| - i
  {
    if i >= |argv| then Run(a)
    else if argv[i] == "--port" && i + 1 < |argv| then
      match Stoi(argv[i + 1])
      case Some(p) => ScanArgs(argv, i + 2, a.(port := p))
      case None => Abort
    else if argv[i] == "--no-reuseport" then ScanArgs(argv, i + 1, a.(reusePort := false))
    else if argv[i] == "--verbose" then ScanArgs(argv, i + 1, a.(verbose := true))
    else if argv[i] == "-h" || argv[i] == "--help" then ShowUsage
    else ScanArgs(argv, i + 1, a)
  }

  /** `parse_args(argc, argv)`; `argv[0]` is the program name. */
  method ParseArgs(argv: seq<string>) returns (r: ArgsOutcome)
    ensures r == ScanArgs(argv, 1, DEFAULT_ARGS)
  {
    var a := DEFAULT_ARGS;
    var i := 1;
    while i < |argv|
      invariant 1 <= i
      invariant ScanArgs(argv, 1, DEFAULT_ARGS) == ScanArgs(argv, i, a)
      decreases |argv| - i
    {
      var s := argv[i];
      if s == "--port" && i + 1 < |argv| {
        i := i + 1;
        var p := Stoi(argv[i]);
        if p.None? {
          return Abort;
        }
        a := a.(port := p.value);
      } else if s == "--no-reuseport" {
        a := a.(reusePort := false);
      } else if s == "--verbose" {
        a := a.(verbose := true);
      } else if s == "-h" || s == "--help" {
        return ShowUsage;
      }
      i := i + 1;
    }
    return Run(a);
  }

  /** Without arguments the server listens on port 9000 with port reuse on and quiet logging. */
  lemma DefaultArgs(prog: string)
    ensures ScanArgs([prog], 1, DEFAULT_ARGS) == Run(ServerArgs(9000, false, true))
  {
  }

  /** `--port P` sets the port to any P that fits in an `int`; a trailing `--port` without a value is ignored. */
  lemma PortArgument(prog: string, p: int)
    requires INT_MIN <= p <= INT_MAX
    ensures ScanArgs([prog, "--port", IntToDecimal(p)], 1, DEFAULT_ARGS) == Run(DEFAULT_ARGS.(port := p))
    ensures ScanArgs([prog, "--port"], 1, DEFAULT_ARGS) == Run(DEFAULT_ARGS)
  {
    ScanIntegerOfDecimal(p, []);
    assert IntToDecimal(p) + [] == IntToDecimal(p);
  }
}
