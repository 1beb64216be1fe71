/** One host's scan (snmpScan.go, `snmpScan`): ping, connect, then a Walk or
    a Get, with the output it prints and the order in which it gives up.
    The network is an input: how many echo replies arrive, whether the
    connection fails, the bindings a walk delivers and how it ends, and what
    a Get returns.  The scan's observable behaviour is the sequence of
    actions it takes. */
module Scan {
  import opened Results
  import opened GoText
  import opened Session
  import opened Render
  import opened Walk

  /** Ping with a count and a timeout; connect with parameters; start a walk
      at a root; send a Get for identifiers; print one line (the text is
      followed by a newline); close the connection; panic, ending the
      whole program. */
  datatype Action =
    | Ping(target: string, count: nat, timeoutMs: nat)
    | Connect(params: Params)
    | WalkRequest(root: string)
    | GetRequest(oids: seq<string>)
    | Print(text: string)
    | Close
    | Panic

  datatype GetReply = GetOk(values: seq<Value>) | GetFailed(error: string)

  /** What the network answers for one host. */
  datatype Host = Host(
    pingReplies: nat,
    connectError: Option<string>,
    walkPdus: seq<Pdu>,
    walkError: Option<string>,
    get: GetReply)

  const PingCount: nat := 3
  const PingTimeoutMs: nat := 2000

  function Prints(texts: seq<string>): (actions: seq<Action>)
    ensures |actions| == |texts|
    ensures forall k :: 0 <= k < |texts| ==> actions[k] == Print(texts[k])
  {
    seq(|texts|, k requires 0 <= k < |texts| => Print(texts[k]))
  }

  /** The actions of a host that answers the ping, up to the connection. */
  function Opening(target: string, creds: Credentials, input: Input): seq<Action>
  {
    [Ping(target, PingCount, PingTimeoutMs), Connect(SessionFor(target, creds, input))]
  }

  /** How a walk ends: a panic at a nil value, after the connection is
      closed by the deferred call; otherwise the walk error, if any, without
      the target's address, then the close. */
  function WalkEnd(host: Host): seq<Action>
  {
    if NullIndex(host.walkPdus) < |host.walkPdus| then [Close, Panic]
    else if host.walkError.Some? then [Print("Error walking device: " + host.walkError.value), Close]
    else [Close]
  }

  /** What a Get prints: nothing when it fails; otherwise the echoes of the
      decoding, then the result line. */
  function GetOutput(target: string, oids: seq<string>, reply: GetReply): seq<Action>
  {
    match reply
    case GetFailed(_) => []
    case GetOk(vs) => Prints(Echoes(vs)) + [Print(GetLine(target, Rows(vs), oids))]
  }

  /** What a connected scan does, by method: a walk from the walk root, a
      Get of the comma-separated identifiers, or nothing; the connection is
      closed in every case. */
  function QueryActions(target: string, input: Input, host: Host): seq<Action>
  {
    if input.scanMethod == "Walk" then
      [WalkRequest(WalkRoot(input.oid))] + Prints(WalkOutput(host.walkPdus, input.lineSize)) + WalkEnd(host)
    else if input.scanMethod == "Get" then
      var oids := Split(input.oid, ',');
      [GetRequest(oids)] + GetOutput(target, oids, host.get) + [Close]
    else [Close]
  }

  /** A connected scan closes the connection exactly once, as its last
      action unless it panics, in which case the panic comes right after the
      close; nothing it prints is a close or a panic. */
  lemma QueryCloses(target: string, input: Input, host: Host)
    ensures var q := QueryActions(target, input, host);
      && multiset(q)[Close] == 1
      && (Panic in q <==> input.scanMethod == "Walk" && NullIndex(host.walkPdus) < |host.walkPdus|)
      && (Panic in q ==> |q| >= 2 && q[|q| - 2..] == [Close, Panic])
      && (Panic !in q ==> q[|q| - 1] == Close)
  {
    var q := QueryActions(target, input, host);
    if input.scanMethod == "Walk" {
      var head := [WalkRequest(WalkRoot(input.oid))] + Prints(WalkOutput(host.walkPdus, input.lineSize));
      assert q == head + WalkEnd(host);
      WalkCloses(head, host);
    } else {
      var head := if input.scanMethod == "Get" then
        var oids := Split(input.oid, ',');
        [GetRequest(oids)] + GetOutput(target, oids, host.get)
      else [];
      assert q == head + [Close];
      if input.scanMethod == "Get" {
        var oids := Split(input.oid, ',');
        PrintsAfter(GetRequest(oids), GetOutput(target, oids, host.get));
      }
      Ending(head, [Close]);
    }
  }

  /** The walk branch: its ending holds the one close, and the panic if
      any. */
  lemma WalkCloses(head: seq<Action>, host: Host)
    requires head != [] && head[0].WalkRequest?
    requires forall k :: 1 <= k < |head| ==> head[k].Print?
    ensures var q := head + WalkEnd(host);
      && multiset(q)[Close] == 1
      && (Panic in q <==> NullIndex(host.walkPdus) < |host.walkPdus|)
      && (Panic in q ==> |q| >= 2 && q[|q| - 2..] == [Close, Panic])
      && (Panic !in q ==> q[|q| - 1] == Close)
  {
    assert head == [head[0]] + head[1..];
    PrintsAfter(head[0], head[1..]);
    Ending(head, WalkEnd(host));
  }

  /** A request followed by prints holds no close and no panic. */
  lemma PrintsAfter(request: Action, actions: seq<Action>)
    requires request.WalkRequest? || request.GetRequest?
    requires forall k :: 0 <= k < |actions| ==> actions[k].Print?
    ensures Close !in [request] + actions && Panic !in [request] + actions
  {
    PrintsOnly(actions);
  }

  /** Appending an ending to actions free of closes and panics: the closes
      and panics, and the last two actions, are those of the ending. */
  lemma Ending(head: seq<Action>, tail: seq<Action>)
    requires Close !in head && Panic !in head && tail != []
    ensures multiset(head + tail)[Close] == multiset(tail)[Close]
    ensures Panic in head + tail <==> Panic in tail
    ensures |tail| >= 2 ==> (head + tail)[|head + tail| - 2..] == tail[|tail| - 2..]
    ensures (head + tail)[|head + tail| - 1] == tail[|tail| - 1]
  {
    assert multiset(head + tail) == multiset(head) + multiset(tail);
  }

  /** A run of prints holds no close and no panic. */
  lemma PrintsOnly(actions: seq<Action>)
    requires forall k :: 0 <= k < |actions| ==> actions[k].Print?
    ensures multiset(actions)[Close] == 0 && multiset(actions)[Panic] == 0
    ensures Close !in actions && Panic !in actions
  {
    assert Close !in actions;
    assert Panic !in actions;
  }

  lemma CloseOnce(opening: seq<Action>, actions: seq<Action>)
    requires Close !in opening && multiset(actions)[Close] == 1
    ensures Close in opening + actions && multiset(opening + actions)[Close] == 1
  {
    assert multiset(opening + actions) == multiset(opening) + multiset(actions);
  }

  /** The parameter record as `snmpScan` fills it in, field by field. */
  method BuildParams(target: string, creds: Credentials, input: Input) returns (params: Params)
    ensures params == SessionFor(target, creds, input)
  {
    params := Params(target, SnmpPort, UserSecurityModel, AuthPriv, TimeoutMs, Version1, [], None);
    if input.version == "3" {
      params := params.(version := Version3);
      var usm := Usm(creds.username, AuthLookup(input.authType), creds.auth,
                     PrivLookup(input.privType), creds.priv);
      params := params.(security := Some(usm));
    } else if input.version == "2c" {
      params := params.(version := Version2c);
      params := params.(community := creds.username);
    } else {
      params := params.(version := Version1);
      params := params.(community := creds.username);
    }
  }

  /** The query of a connected scan. */
  method Query(target: string, input: Input, host: Host) returns (actions: seq<Action>)
    ensures actions == QueryActions(target, input, host)
  {
    if input.scanMethod == "Walk" {
      var root := WalkRoot(input.oid);
      actions := [WalkRequest(root)];
      var printed, panicked := RunWalk(host.walkPdus, input.lineSize);
      actions := actions + Prints(printed);
      var ending := WalkEnding(host, panicked);
      actions := actions + ending;
      assert actions == [WalkRequest(WalkRoot(input.oid))] + Prints(WalkOutput(host.walkPdus, input.lineSize)) + WalkEnd(host);
      return;
    }
    actions := [];
    if input.scanMethod == "Get" {
      var oids := Split(input.oid, ',');
      actions := actions + [GetRequest(oids)];
      if host.get.GetOk? {
        var rows, echoes := DecodeRows(host.get.values);
        actions := actions + Prints(echoes) + [Print(GetLine(target, rows, oids))];
      }
      assert actions == [GetRequest(oids)] + GetOutput(target, oids, host.get);
    }
    actions := actions + [Close];
  }

  /** The end of a walk, once the callback has panicked or the walk has
      returned: after a panic the deferred close runs, then the panic;
      otherwise the walk's error, if any, is printed (with no target) and
      the connection is closed once, last. */
  method WalkEnding(host: Host, panicked: bool) returns (ending: seq<Action>)
    requires panicked <==> NullIndex(host.walkPdus) < |host.walkPdus|
    ensures ending == WalkEnd(host)
    ensures panicked ==> ending == [Close, Panic]
    ensures !panicked ==> Panic !in ending && ending[|ending| - 1] == Close && multiset(ending)[Close] == 1
    ensures !panicked ==> (|ending| == 2 <==> host.walkError.Some?)
    ensures !panicked && host.walkError.Some? ==>
      ending[0] == Print("Error walking device: " + host.walkError.value)
  {
    if panicked {
      return [Close, Panic];
    }
    ending := [];
    if host.walkError.Some? {
      ending := ending + [Print("Error walking device: " + host.walkError.value)];
    }
    ending := ending + [Close];
  }

  /** The scan of one host: no reply to the ping ends it at once; a failed
      connection prints the error with the target's address and ends it
      without a close; otherwise the query runs and the connection is closed
      exactly once. */
  method ScanHost(target: string, creds: Credentials, input: Input, host: Host)
    returns (trace: seq<Action>)
    ensures |trace| >= 1 && trace[0] == Ping(target, 3, 2000)
    ensures host.pingReplies == 0 <==> |trace| == 1
    ensures host.pingReplies > 0 && host.connectError.Some? ==>
      trace == Opening(target, creds, input) + [Print(target + ": error connecting " + host.connectError.value)]
    ensures host.pingReplies > 0 && host.connectError.None? ==>
      trace == Opening(target, creds, input) + QueryActions(target, input, host)
    ensures Close in trace <==> host.pingReplies > 0 && host.connectError.None?
    ensures Close in trace ==> multiset(trace)[Close] == 1
  {
    trace := [Ping(target, PingCount, PingTimeoutMs)];
    if host.pingReplies == 0 {
      return;
    }
    var params := BuildParams(target, creds, input);
    trace := trace + [Connect(params)];
    if host.connectError.Some? {
      trace := trace + [Print(target + ": error connecting " + host.connectError.value)];
      return;
    }
    assert trace == Opening(target, creds, input);
    var actions := Query(target, input, host);
    QueryCloses(target, input, host);
    CloseOnce(trace, actions);
    trace := trace + actions;
  }
}
