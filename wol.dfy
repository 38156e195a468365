/**
 * The wake-up script proper: its configuration (wol.py:24-30), the send
 * loop of `wake_on_lan` (wol.py:69-73) as a trace of datagrams, and the
 * module-level loop over the command line (wol.py:92-108).
 */
module Wol {
  import opened Wrappers
  import opened Hex
  import opened MacAddress
  import opened MagicPacket

  /** `broadcast`: the destinations every packet is sent to, in this order. */
  const Broadcast: seq<string> := ["192.168.1.255", "192.168.0.255"]

  /** `wol_port`: the UDP port of every datagram. */
  const WolPort: nat := 9

  /** `known_computers`: machine names and the MAC strings they stand for. */
  const KnownComputers: map<string, string> := map[
    "mercury" := "00:1C:55:35:12:BF",
    "venus" := "00:1d:39:55:5c:df",
    "earth" := "00:10:60:15:97:fb",
    "mars" := "00:10:DC:34:B2:87"]

  /** The destinations and the port, passed in instead of read from globals. */
  datatype Config = Config(broadcast: seq<string>, port: nat)

  const DefaultConfig: Config := Config(Broadcast, WolPort)

  /** One `soc.sendto(msg, (address, port))`. */
  datatype Datagram = Datagram(address: string, port: nat, payload: seq<Byte>)

  /** How one call of `wake_on_lan` ends. */
  datatype WakeOutcome =
    | Sent(hwa: HardwareAddress)   // the packet went to every destination
    | Refused(fieldCount: nat)     // "Illegal MAC address" printed, normal return
    | Failed(error: MacError)      // `int` or `pack` raised

  /** The datagrams one call of `wake_on_lan` sends. */
  function WakeTrace(mac: string, config: Config): (t: seq<Datagram>)
    ensures |t| == if ParseMac(mac).Success? then |config.broadcast| else 0
    ensures forall k :: 0 <= k < |t| ==> t[k].address == config.broadcast[k] && t[k].port == config.port
  {
    match ParseMac(mac)
    case Success(hwa) =>
      seq(|config.broadcast|, k requires 0 <= k < |config.broadcast| =>
        Datagram(config.broadcast[k], config.port, Packet(hwa)))
    case Failure(_) => []
  }

  /** The datagrams of several calls of `wake_on_lan` made one after another. */
  function TraceOf(macs: seq<string>, config: Config): (t: seq<Datagram>)
    ensures forall k :: 0 <= k < |t| ==> t[k].address in config.broadcast && t[k].port == config.port
    decreases |macs|
  {
    if macs == [] then []
    else TraceOf(macs[..|macs| - 1], config) + WakeTrace(macs[|macs| - 1], config)
  }

  lemma TraceOfSnoc(macs: seq<string>, mac: string, config: Config)
    ensures TraceOf(macs + [mac], config) == TraceOf(macs, config) + WakeTrace(mac, config)
  {
    assert (macs + [mac])[..|macs|] == macs;
  }

  /**
   * The loop `for i in broadcast: soc.sendto(msg, (i, wol_port))`: one
   * datagram per destination, in list order, each to the configured port and
   * each carrying the same payload.
   */
  method SendToAll(msg: seq<Byte>, config: Config) returns (trace: seq<Datagram>)
    ensures |trace| == |config.broadcast|
    ensures forall k :: 0 <= k < |trace| ==>
      trace[k] == Datagram(config.broadcast[k], config.port, msg)
  {
    trace := [];
    for i := 0 to |config.broadcast|
      invariant |trace| == i
      invariant forall k :: 0 <= k < i ==>
        trace[k] == Datagram(config.broadcast[k], config.port, msg)
    {
      trace := trace + [Datagram(config.broadcast[i], config.port, msg)];
    }
  }

  /**
   * `wake_on_lan(ethernet_address)`: parse the address; on a wrong field
   * count send nothing and return; if `int` or `pack` raises, send nothing;
   * otherwise build the magic packet and send it to every destination.
   */
  method WakeOnLan(ethernetAddress: string, config: Config)
    returns (outcome: WakeOutcome, trace: seq<Datagram>)
    ensures ParseMac(ethernetAddress).Success? <==> outcome.Sent?
    ensures outcome.Sent? ==> ParseMac(ethernetAddress) == Success(outcome.hwa)
    ensures outcome.Refused? ==> ParseMac(ethernetAddress) == Failure(FieldCount(outcome.fieldCount))
    ensures ParseMac(ethernetAddress).Failure? && ParseMac(ethernetAddress).error.FieldCount? ==> outcome.Refused?
    ensures outcome.Failed? <==> Raises(ethernetAddress)
    ensures outcome.Failed? ==> ParseMac(ethernetAddress) == Failure(outcome.error)
    // what goes on the wire
    ensures !outcome.Sent? ==> trace == []
    ensures outcome.Sent? ==>
      |trace| == |config.broadcast| &&
      forall k :: 0 <= k < |trace| ==>
        trace[k] == Datagram(config.broadcast[k], config.port, Packet(outcome.hwa))
    ensures trace == WakeTrace(ethernetAddress, config)
  {
    match ParseMac(ethernetAddress)
    case Failure(e) =>
      outcome := if e.FieldCount? then Refused(e.count) else Failed(e);
      trace := [];
    case Success(hwa) =>
      var msg := Packet(hwa);
      trace := SendToAll(msg, config);
      outcome := Sent(hwa);
  }

  /** Every datagram the script sends is a magic packet for its configured port and destinations. */
  lemma {:induction false} TraceWellFormed(macs: seq<string>, config: Config)
    ensures forall i :: 0 <= i < |TraceOf(macs, config)| ==>
      TraceOf(macs, config)[i].port == config.port &&
      TraceOf(macs, config)[i].address in config.broadcast &&
      Recognise(TraceOf(macs, config)[i].payload).Some?
    decreases |macs|
  {
    if macs != [] {
      var front, last := macs[..|macs| - 1], macs[|macs| - 1];
      TraceWellFormed(front, config);
      var t: seq<Datagram>, w: seq<Datagram> := TraceOf(front, config), WakeTrace(last, config);
      if ParseMac(last).Success? {
        RecognisePacket(ParseMac(last).value);
      }
      forall i | 0 <= i < |t + w|
        ensures (t + w)[i].port == config.port && (t + w)[i].address in config.broadcast &&
          Recognise((t + w)[i].payload).Some?
      {
        if i >= |t| {
          assert (t + w)[i] == w[i - |t|];
        }
      }
    }
  }

  /** Where the processing of the arguments ended. */
  datatype Halt =
    | Finished                                // every argument processed
    | UnknownComputer(name: string)           // "Unknown computer" and `quit()`
    | EmptyArgument                           // `i[0]` raised IndexError
    | Crashed(mac: string, error: MacError)   // `wake_on_lan(mac)` raised
    | NoComputerGiven                         // `len(argv) == 1`

  /** What the loop body does with one argument. */
  datatype Step = Skip | Wake(mac: string) | Stop(halt: Halt)

  /**
   * The decision for one argument: an empty one cannot be indexed; one that
   * starts with `/` is skipped; one containing `:` is a MAC string used as it
   * is; a known name stands for its table entry; anything else stops.
   */
  function StepOf(arg: string, table: map<string, string>): (s: Step)
    ensures s.Skip? <==> arg != [] && arg[0] == '/'
    ensures s.Stop? <==> arg == [] || (arg[0] != '/' && ':' !in arg && arg !in table)
    ensures arg != [] && arg[0] != '/' && ':' in arg ==> s == Wake(arg)
    ensures arg != [] && arg[0] != '/' && ':' !in arg && arg in table ==> s == Wake(table[arg])
    ensures s.Stop? ==> s.halt == (if arg == [] then EmptyArgument else UnknownComputer(arg))
  {
    if arg == [] then Stop(EmptyArgument)
    else if arg[0] == '/' then Skip
    else if ':' in arg then Wake(arg)
    else if arg in table then Wake(table[arg])
    else Stop(UnknownComputer(arg))
  }

  /** The MAC strings handed to `wake_on_lan`, in order, and why processing ended. */
  datatype Dispatched = Dispatched(requests: seq<string>, halt: Halt)

  /**
   * The loop `for i in argv` on its own, assuming every `wake_on_lan` call
   * returns: it ends early exactly when some argument stops it.
   */
  function Dispatch(args: seq<string>, table: map<string, string>): (r: Dispatched)
    ensures r.halt.Finished? || r.halt.UnknownComputer? || r.halt.EmptyArgument?
    ensures |r.requests| <= |args|
    decreases |args|
  {
    if args == [] then Dispatched([], Finished)
    else
      match StepOf(args[0], table)
      case Stop(h) => Dispatched([], h)
      case Skip => Dispatch(args[1..], table)
      case Wake(m) =>
        var rest := Dispatch(args[1..], table);
        Dispatched([m] + rest.requests, rest.halt)
  }

  /** Processing runs to the end exactly when no argument stops it. */
  lemma {:induction false} DispatchFinished(args: seq<string>, table: map<string, string>)
    ensures Dispatch(args, table).halt.Finished? <==> forall i :: 0 <= i < |args| ==> !StepOf(args[i], table).Stop?
    decreases |args|
  {
    if args != [] {
      DispatchFinished(args[1..], table);
      assert forall i :: 1 <= i < |args| ==> args[i] == args[1..][i - 1];
    }
  }

  /**
   * Dispatch of a concatenation: if the first part is processed completely,
   * the requests of both parts follow each other; if it stops, nothing of
   * the second part is looked at.
   */
  lemma {:induction false} DispatchAppend(a: seq<string>, b: seq<string>, table: map<string, string>)
    ensures Dispatch(a + b, table) ==
      if Dispatch(a, table).halt.Finished?
      then Dispatched(Dispatch(a, table).requests + Dispatch(b, table).requests, Dispatch(b, table).halt)
      else Dispatch(a, table)
    decreases |a|
  {
    if a == [] {
      assert a + b == b;
    } else {
      assert (a + b)[0] == a[0];
      assert (a + b)[1..] == a[1..] + b;
      DispatchAppend(a[1..], b, table);
      match StepOf(a[0], table)
      case Stop(h) =>
      case Skip =>
      case Wake(m) =>
        assert [m] + (Dispatch(a[1..], table).requests + Dispatch(b, table).requests)
          == ([m] + Dispatch(a[1..], table).requests) + Dispatch(b, table).requests;
    }
  }

  /** Dispatch of one argument is its step. */
  lemma DispatchOne(arg: string, table: map<string, string>)
    ensures Dispatch([arg], table) ==
      match StepOf(arg, table)
      case Skip => Dispatched([], Finished)
      case Wake(m) => Dispatched([m], Finished)
      case Stop(h) => Dispatched([], h)
  {
    assert [arg][1..] == [];
  }

  /**
   * The first argument that stops processing decides how it ends, and no
   * argument after it is handed on.
   */
  lemma DispatchStopsAt(args: seq<string>, i: nat, table: map<string, string>)
    requires i < |args| && StepOf(args[i], table).Stop?
    requires forall j :: 0 <= j < i ==> !StepOf(args[j], table).Stop?
    ensures Dispatch(args, table).halt == StepOf(args[i], table).halt
    ensures Dispatch(args, table).requests == Dispatch(args[..i], table).requests
  {
    var before := args[..i];
    assert args[..i + 1] == before + [args[i]];
    assert args == args[..i + 1] + args[i + 1..];
    DispatchFinished(before, table);
    DispatchOne(args[i], table);
    DispatchAppend(before, [args[i]], table);
    DispatchAppend(args[..i + 1], args[i + 1..], table);
  }

  /** An argument starting with `/` can be dropped without changing anything. */
  lemma DispatchSkipsPath(args: seq<string>, i: nat, table: map<string, string>)
    requires i < |args| && args[i] != [] && args[i][0] == '/'
    ensures Dispatch(args, table) == Dispatch(args[..i] + args[i + 1..], table)
  {
    var rest := [args[i]] + args[i + 1..];
    assert args == args[..i] + rest;
    assert rest[0] == args[i] && rest[1..] == args[i + 1..];
    DispatchAppend(args[..i], rest, table);
    DispatchAppend(args[..i], args[i + 1..], table);
  }

  /** Processing the argument at `i` of what is left from `i` on. */
  lemma DispatchUnfold(args: seq<string>, i: nat, table: map<string, string>)
    requires i < |args|
    ensures StepOf(args[i], table).Skip? ==> Dispatch(args[i..], table) == Dispatch(args[i + 1..], table)
    ensures StepOf(args[i], table).Wake? ==>
      Dispatch(args[i..], table) ==
        Dispatched([StepOf(args[i], table).mac] + Dispatch(args[i + 1..], table).requests,
                   Dispatch(args[i + 1..], table).halt)
    ensures StepOf(args[i], table).Stop? ==>
      Dispatch(args[i..], table) == Dispatched([], StepOf(args[i], table).halt)
  {
    assert args[i..][0] == args[i];
    assert args[i..][1..] == args[i + 1..];
  }

  /**
   * An argument before the first stop that names a machine or a MAC string is
   * handed on, after everything handed on for the arguments before it and
   * ahead of everything handed on for the arguments after it.
   */
  lemma DispatchWakesAt(args: seq<string>, i: nat, table: map<string, string>)
    requires i < |args| && StepOf(args[i], table).Wake?
    requires forall j :: 0 <= j < i ==> !StepOf(args[j], table).Stop?
    ensures Dispatch(args, table).requests ==
      Dispatch(args[..i], table).requests + [StepOf(args[i], table).mac] + Dispatch(args[i + 1..], table).requests
    ensures Dispatch(args, table).halt == Dispatch(args[i + 1..], table).halt
  {
    var before := args[..i];
    assert args == (before + [args[i]]) + args[i + 1..];
    DispatchFinished(before, table);
    DispatchOne(args[i], table);
    DispatchAppend(before, [args[i]], table);
    DispatchAppend(before + [args[i]], args[i + 1..], table);
  }

  /** Every MAC string handed on comes from an argument: itself, or its table entry. */
  lemma {:induction false} DispatchOrigins(args: seq<string>, table: map<string, string>)
    ensures forall m :: m in Dispatch(args, table).requests ==>
      exists i :: 0 <= i < |args| && StepOf(args[i], table) == Wake(m)
    decreases |args|
  {
    if args != [] {
      DispatchOrigins(args[1..], table);
      forall m | m in Dispatch(args, table).requests
        ensures exists i :: 0 <= i < |args| && StepOf(args[i], table) == Wake(m)
      {
        if StepOf(args[0], table) != Wake(m) {
          assert m in Dispatch(args[1..], table).requests;
          var i :| 0 <= i < |args[1..]| && StepOf(args[1..][i], table) == Wake(m);
          assert StepOf(args[i + 1], table) == Wake(m);
        }
      }
    }
  }

  /**
   * The body of `for i in argv` for one argument: index it, skip it, wake it
   * as a MAC string, wake its table entry, or stop. `stop` is set when the
   * loop must end here, including when `wake_on_lan` raised.
   */
  method HandleArgument(arg: string, table: map<string, string>, config: Config)
    returns (step: Step, stop: Option<Halt>, sent: seq<Datagram>)
    ensures step == StepOf(arg, table)
    ensures !step.Wake? ==> sent == [] && stop == (if step.Stop? then Some(step.halt) else None)
    ensures step.Wake? ==> sent == WakeTrace(step.mac, config)
    ensures step.Wake? ==> (stop.Some? <==> Raises(step.mac))
    ensures step.Wake? && stop.Some? ==> stop.value == Crashed(step.mac, ParseMac(step.mac).error)
  {
    sent := [];
    if arg == [] {
      step, stop := Stop(EmptyArgument), Some(EmptyArgument);
      return;
    }
    if arg[0] == '/' {
      step, stop := Skip, None;
      return;
    }
    var mac: string;
    if ':' in arg {
      mac := arg;
    } else if arg in table {
      mac := table[arg];
    } else {
      step, stop := Stop(UnknownComputer(arg)), Some(UnknownComputer(arg));
      return;
    }
    step := Wake(mac);
    var outcome;
    outcome, sent := WakeOnLan(mac, config);
    stop := if outcome.Failed? then Some(Crashed(mac, outcome.error)) else None;
  }

  /**
   * The `wake_on_lan` calls actually made for a list of requests: they are
   * made in order until one raises, and that one is the last.
   */
  function CallsMade(requests: seq<string>): (calls: seq<string>)
    ensures calls <= requests
  {
    if requests == [] then []
    else if Raises(requests[0]) then [requests[0]]
    else [requests[0]] + CallsMade(requests[1..])
  }

  /** The calls made are either all the requests or end with one that raises. */
  lemma {:induction false} CallsMadeSpec(requests: seq<string>)
    ensures CallsMade(requests) == requests || Raises(CallsMade(requests)[|CallsMade(requests)| - 1])
    decreases |requests|
  {
    if requests != [] && !Raises(requests[0]) {
      var rest := requests[1..];
      CallsMadeSpec(rest);
      var c, d := CallsMade(requests), CallsMade(rest);
      assert c == [requests[0]] + d;
      assert c[|c| - 1] == if d == [] then requests[0] else d[|d| - 1];
    }
  }

  /** Only the last call made can raise: every call before it returned. */
  lemma {:induction false} CallsMadeReturn(requests: seq<string>)
    ensures forall j :: 0 <= j < |CallsMade(requests)| - 1 ==> !Raises(requests[j])
    decreases |requests|
  {
    if requests != [] && !Raises(requests[0]) {
      var rest := requests[1..];
      CallsMadeReturn(rest);
      var c, d := CallsMade(requests), CallsMade(rest);
      assert c == [requests[0]] + d;
      forall j | 1 <= j < |c| - 1 ensures !Raises(requests[j]) {
        assert requests[j] == rest[j - 1];
      }
    }
  }

  /** When no request raises, every request is made. */
  lemma {:induction false} CallsMadeAll(requests: seq<string>)
    requires forall j :: 0 <= j < |requests| ==> !Raises(requests[j])
    ensures CallsMade(requests) == requests
    decreases |requests|
  {
    if requests != [] {
      var rest := requests[1..];
      assert forall j :: 0 <= j < |rest| ==> rest[j] == requests[j + 1];
      CallsMadeAll(rest);
    }
  }

  /** How the run ends once the calls made are known. */
  function RunHalt(calls: seq<string>, dispatched: Halt): Halt
  {
    if calls != [] && Raises(calls[|calls| - 1])
    then Crashed(calls[|calls| - 1], ParseMac(calls[|calls| - 1]).error)
    else dispatched
  }

  /** The `wake_on_lan` calls processing makes, in order, and how it ended. */
  datatype Processed = Processed(calls: seq<string>, halt: Halt)

  /**
   * The loop `for i in argv` argument by argument: a stop ends it, a skip
   * moves on, and a wake calls `wake_on_lan`, which either returns and the
   * loop goes on or raises and ends the script.
   */
  function Process(args: seq<string>, table: map<string, string>): (r: Processed)
    ensures |r.calls| <= |args|
    ensures !r.halt.NoComputerGiven?
    decreases |args|
  {
    if args == [] then Processed([], Finished)
    else
      match StepOf(args[0], table)
      case Stop(h) => Processed([], h)
      case Skip => Process(args[1..], table)
      case Wake(m) =>
        if Raises(m) then Processed([m], Crashed(m, ParseMac(m).error))
        else
          var rest := Process(args[1..], table);
          Processed([m] + rest.calls, rest.halt)
  }

  /**
   * Processing is dispatch followed by the calls: the calls made are the
   * requested ones up to the first that raises, and that one, if any,
   * decides how the run ends.
   */
  lemma {:induction false} ProcessDispatch(args: seq<string>, table: map<string, string>)
    ensures Process(args, table).calls == CallsMade(Dispatch(args, table).requests)
    ensures Process(args, table).halt == RunHalt(Process(args, table).calls, Dispatch(args, table).halt)
    decreases |args|
  {
    if args != [] {
      ProcessDispatch(args[1..], table);
      match StepOf(args[0], table)
      case Stop(h) =>
      case Skip =>
      case Wake(m) =>
        var d := Dispatch(args[1..], table);
        assert Dispatch(args, table) == Dispatched([m] + d.requests, d.halt);
        CallsAfterWake(m, d.requests);
        HaltAfterWake(m, d.requests, d.halt);
    }
  }

  /**
   * A run crashes exactly when the last `wake_on_lan` call made raises, and
   * then on that address with its error; every call before it returned.
   */
  lemma ProcessCrashesOnLast(args: seq<string>, table: map<string, string>)
    ensures var r := Process(args, table);
      r.halt.Crashed? <==> r.calls != [] && Raises(r.calls[|r.calls| - 1])
    ensures var r := Process(args, table);
      r.halt.Crashed? ==> r.halt == Crashed(r.calls[|r.calls| - 1], ParseMac(r.calls[|r.calls| - 1]).error)
    ensures var r := Process(args, table);
      forall j :: 0 <= j < |r.calls| - 1 ==> !Raises(r.calls[j])
  {
    ProcessDispatch(args, table);
    CallsMadeReturn(Dispatch(args, table).requests);
  }

  /**
   * When no argument stops processing and no address raises, every request
   * is made and the run reaches the end of the arguments.
   */
  lemma ProcessClean(args: seq<string>, table: map<string, string>)
    requires forall i :: 0 <= i < |args| ==> !StepOf(args[i], table).Stop?
    requires forall i :: 0 <= i < |args| && StepOf(args[i], table).Wake? ==> !Raises(StepOf(args[i], table).mac)
    ensures Process(args, table) == Processed(Dispatch(args, table).requests, Finished)
  {
    var requests := Dispatch(args, table).requests;
    DispatchFinished(args, table);
    DispatchOrigins(args, table);
    forall j | 0 <= j < |requests| ensures !Raises(requests[j]) {
      assert requests[j] in requests;
      var i :| 0 <= i < |args| && StepOf(args[i], table) == Wake(requests[j]);
    }
    CallsMadeAll(requests);
    ProcessDispatch(args, table);
  }

  /** Calling `wake_on_lan` on one more request in front of the others. */
  lemma CallsAfterWake(m: string, requests: seq<string>)
    ensures CallsMade([m] + requests) == if Raises(m) then [m] else [m] + CallsMade(requests)
  {
    var r := [m] + requests;
    assert r[0] == m && r[1..] == requests;
  }

  /** The run ends on the new request if it raises, and as before otherwise. */
  lemma HaltAfterWake(m: string, requests: seq<string>, halt: Halt)
    ensures RunHalt(CallsMade([m] + requests), halt) ==
      if Raises(m) then Crashed(m, ParseMac(m).error) else RunHalt(CallsMade(requests), halt)
  {
    CallsAfterWake(m, requests);
    var w := CallsMade(requests);
    if !Raises(m) {
      if w == [] {
        assert RunHalt([m], halt) == halt;
      } else {
        var c := [m] + w;
        assert c[|c| - 1] == w[|w| - 1];
      }
    }
  }

  /** Processing the argument at `i` of what is left from `i` on. */
  lemma ProcessUnfold(args: seq<string>, i: nat, table: map<string, string>)
    requires i < |args|
    ensures Process(args[i..], table) ==
      match StepOf(args[i], table)
      case Stop(h) => Processed([], h)
      case Skip => Process(args[i + 1..], table)
      case Wake(m) =>
        if Raises(m) then Processed([m], Crashed(m, ParseMac(m).error))
        else Processed([m] + Process(args[i + 1..], table).calls, Process(args[i + 1..], table).halt)
  {
    assert args[i..][0] == args[i];
    assert args[i..][1..] == args[i + 1..];
  }

  /**
   * One turn of `for i in argv`, given the calls made and datagrams sent so far:
   * either the loop goes on with the rest of the arguments, or it ends here
   * with what `Process` predicts for the arguments from `i` on.
   */
  method ArgumentTurn(args: seq<string>, i: nat, table: map<string, string>, config: Config,
                      calls: seq<string>, trace: seq<Datagram>)
    returns (calls': seq<string>, trace': seq<Datagram>, stop: Option<Halt>)
    requires i < |args| && trace == TraceOf(calls, config)
    ensures trace' == TraceOf(calls', config)
    ensures stop.None? ==>
      calls + Process(args[i..], table).calls == calls' + Process(args[i + 1..], table).calls &&
      Process(args[i..], table).halt == Process(args[i + 1..], table).halt
    ensures stop.Some? ==>
      calls' == calls + Process(args[i..], table).calls && stop.value == Process(args[i..], table).halt
  {
    var step, sent;
    step, stop, sent := HandleArgument(args[i], table, config);
    calls' := if step.Wake? then calls + [step.mac] else calls;
    TurnAdvances(args, i, table, calls, step, stop);
    if step.Wake? {
      TraceOfSnoc(calls, step.mac, config);
    }
    trace' := trace + sent;
  }

  /** What the body's decision for `args[i]` means for processing the arguments from `i` on. */
  lemma TurnAdvances(args: seq<string>, i: nat, table: map<string, string>, calls: seq<string>, step: Step, stop: Option<Halt>)
    requires i < |args| && step == StepOf(args[i], table)
    requires !step.Wake? ==> stop == (if step.Stop? then Some(step.halt) else None)
    requires step.Wake? ==> (stop.Some? <==> Raises(step.mac))
    requires step.Wake? && stop.Some? ==> stop.value == Crashed(step.mac, ParseMac(step.mac).error)
    ensures var calls' := if step.Wake? then calls + [step.mac] else calls;
      (stop.None? ==>
        calls + Process(args[i..], table).calls == calls' + Process(args[i + 1..], table).calls &&
        Process(args[i..], table).halt == Process(args[i + 1..], table).halt) &&
      (stop.Some? ==>
        calls' == calls + Process(args[i..], table).calls && stop.value == Process(args[i..], table).halt)
  {
    ProcessUnfold(args, i, table);
    if step.Wake? && stop.None? {
      assert calls + ([step.mac] + Process(args[i + 1..], table).calls)
        == (calls + [step.mac]) + Process(args[i + 1..], table).calls;
    }
  }

  /**
   * The loop `for i in argv` over every element, the script path included:
   * it wakes as it goes until an argument stops it or a `wake_on_lan` call
   * raises.
   */
  method ProcessArguments(args: seq<string>, table: map<string, string>, config: Config)
    returns (calls: seq<string>, halt: Halt, trace: seq<Datagram>)
    ensures Processed(calls, halt) == Process(args, table)
    ensures trace == TraceOf(calls, config)
  {
    calls, trace := [], [];
    var i := 0;
    while i < |args|
      invariant 0 <= i <= |args|
      invariant Process(args, table) == Processed(calls + Process(args[i..], table).calls, Process(args[i..], table).halt)
      invariant trace == TraceOf(calls, config)
    {
      var stop;
      calls, trace, stop := ArgumentTurn(args, i, table, config, calls, trace);
      if stop.Some? {
        halt := stop.value;
        return;
      }
      i := i + 1;
    }
    halt := Finished;
  }

  /**
   * The script from line 92 on: with no argument besides the script itself
   * no call is made; otherwise every element of `argv` is processed.
   */
  method Run(argv: seq<string>, table: map<string, string>, config: Config)
    returns (calls: seq<string>, halt: Halt, trace: seq<Datagram>)
    ensures |argv| == 1 ==> calls == [] && halt == NoComputerGiven && trace == []
    ensures |argv| != 1 ==> Processed(calls, halt) == Process(argv, table)
    // the calls made are the requests up to the first that raises
    ensures |argv| != 1 ==> calls == CallsMade(Dispatch(argv, table).requests)
    ensures |argv| != 1 ==> halt == RunHalt(calls, Dispatch(argv, table).halt)
    ensures trace == TraceOf(calls, config)
  {
    if |argv| == 1 {
      calls, halt, trace := [], NoComputerGiven, [];
    } else {
      calls, halt, trace := ProcessArguments(argv, table, config);
      ProcessDispatch(argv, table);
    }
  }
}
