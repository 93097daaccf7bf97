/** The router's command server: the arguments of its commands, and connecting for `fibAdd`. */
module CmdServer {
  import opened Bytes
  import opened Lexical
  import opened HopTable
  import opened RouterSpec
  import Router
  import opened ConnectRuns
  import Fib
  import CdUri
  import StRuns

  /** The arguments of a command by their names, as text. */
  type Args = map<string, seq<Byte>>

  const TCP: seq<Byte> := [0x74, 0x63, 0x70]
  const UDP: seq<Byte> := [0x75, 0x64, 0x70]
  const UINT16_BOUND: nat := 0x1_0000
  const UINT32_BOUND: nat := 0x1_0000_0000
  const UINT64_BOUND: nat := 0x1_0000_0000_0000_0000

  /** An illegal argument is reported to the controller; the exception for a bad number is caught nowhere. */
  datatype Parsed<+T> = Read(value: T) | Illegal | BadNumber

  datatype Route = Route(name: seq<Byte>, endpoint: Endpoint, cost: Fib.Cost)

  function TypeOf(s: seq<Byte>): Option<TransportType> {
    if s == TCP then Some(Tcp) else if s == UDP then Some(Udp) else None
  }

  function ParseFibAdd(args: Args): Parsed<Route> {
    if !({"NAME", "TYPE", "IP", "PORT", "COST"} <= args.Keys) then Illegal
    else
      var typ := TypeOf(args["TYPE"]);
      var port, cost := ParseUnsigned(args["PORT"], UINT16_BOUND), ParseUnsigned(args["COST"], UINT32_BOUND);
      if typ.None? then Illegal
      else if port.None? || cost.None? then BadNumber
      else Read(Route(args["NAME"], Endpoint(typ.value, args["IP"], port.value), cost.value))
  }

  /** A name alone, or with an endpoint. */
  datatype Removal = OfName(name: seq<Byte>) | OfHop(name: seq<Byte>, endpoint: Endpoint)

  /** An argument that is not given counts as empty. */
  function Given(args: Args, key: string): seq<Byte> { if key in args then args[key] else [] }

  function ParseFibDel(args: Args): Parsed<Removal> {
    var name, typ, ip, port := Given(args, "NAME"), Given(args, "TYPE"), Given(args, "IP"), Given(args, "PORT");
    if name == [] then Illegal
    else if typ == [] && ip == [] && port == [] then Read(OfName(name))
    else if typ == [] || ip == [] || port == [] || TypeOf(typ).None? then Illegal
    else
      var n := ParseUnsigned(port, UINT16_BOUND);
      if n.None? then BadNumber else Read(OfHop(name, Endpoint(TypeOf(typ).value, ip, n.value)))
  }

  function ParseFaceDel(args: Args): Parsed<FaceId> {
    if "FACE" !in args then Illegal
    else
      var id := ParseUnsigned(args["FACE"], UINT64_BOUND);
      if id.None? then BadNumber else Read(id.value)
  }

  // ---- Which argument becomes what

  /** The text of a transport type. */
  function TypeText(t: TransportType): seq<Byte> {
    match t
    case Tcp => ['t' as int, 'c' as int, 'p' as int]
    case Udp => ['u' as int, 'd' as int, 'p' as int]
  }

  lemma TypeIs(s: seq<Byte>, t: TransportType)
    ensures TypeOf(s) == Some(t) <==> s == TypeText(t)
  {
  }

  /** The five arguments of `fibAdd` give the route with just these fields. */
  lemma FibAddArguments(name: seq<Byte>, t: TransportType, ip: seq<Byte>, port: nat, cost: nat)
    ensures var args := map["NAME" := name, "TYPE" := TypeText(t), "IP" := ip,
                            "PORT" := Decimal(port), "COST" := Decimal(cost)];
            ParseFibAdd(args)
            == if port <= 65535 && cost <= 4294967295 then Read(Route(name, Endpoint(t, ip, port), cost))
               else BadNumber
  {
    hide ParseUnsigned, TypeOf, Decimal;
    TypeIs(TypeText(t), t);
    DecimalParses(port, UINT16_BOUND);
    DecimalParses(cost, UINT32_BOUND);
  }

  /** Without one of the five, or with another type, it is refused. */
  lemma FibAddRefused(args: Args)
    ensures ParseFibAdd(args) == Illegal <==>
              || !("NAME" in args && "TYPE" in args && "IP" in args && "PORT" in args && "COST" in args)
              || (args["TYPE"] != TypeText(Tcp) && args["TYPE"] != TypeText(Udp))
  {
    hide ParseUnsigned;
  }

  /** `fibDel` with a name alone, and with an endpoint. */
  lemma FibDelArguments(name: seq<Byte>, t: TransportType, ip: seq<Byte>, port: nat)
    requires name != [] && ip != []
    ensures ParseFibDel(map["NAME" := name]) == Read(OfName(name))
    ensures var args := map["NAME" := name, "TYPE" := TypeText(t), "IP" := ip, "PORT" := Decimal(port)];
            ParseFibDel(args) == if port <= 65535 then Read(OfHop(name, Endpoint(t, ip, port))) else BadNumber
  {
    hide ParseUnsigned, TypeOf, Decimal;
    TypeIs(TypeText(t), t);
    DecimalParses(port, UINT16_BOUND);
  }

  lemma FibDelRefused(args: Args)
    ensures ParseFibDel(args) == Illegal <==>
              || "NAME" !in args || args["NAME"] == []
              || (exists key :: key in {"TYPE", "IP", "PORT"} && key in args && args[key] != []
                                && !(forall k :: k in {"TYPE", "IP", "PORT"} ==> k in args && args[k] != []))
              || ((forall k :: k in {"TYPE", "IP", "PORT"} ==> k in args && args[k] != [])
                  && args["TYPE"] != TypeText(Tcp) && args["TYPE"] != TypeText(Udp))
  {
    hide ParseUnsigned;
  }

  lemma FaceDelArguments(id: nat)
    ensures ParseFaceDel(map["FACE" := Decimal(id)]) == if id <= 18446744073709551615 then Read(id) else BadNumber
    ensures forall args :: ParseFaceDel(args) == Illegal <==> "FACE" !in args
  {
    hide Decimal, ParseUnsigned;
    DecimalParses(id, UINT64_BOUND);
  }

  function FibAddReceived(r: RouterSpec.Router, args: Args, opens: bool): Outcome {
    match ParseFibAdd(args)
    case Illegal => Refused
    case BadNumber => RouterEnds
    case Read(route) => FibAddOutcome(r, route.name, route.endpoint, opens)
  }

  /** What becomes of a legal `fibAdd` when it is received. */
  lemma FibAddOutcomes(r: RouterSpec.Router, args: Args, opens: bool)
    requires ParseFibAdd(args).Read?
    ensures var route := ParseFibAdd(args).value;
            var outcome := FibAddReceived(r, args, opens);
            var known := exists f :: f in r.faces && r.faces[f] == route.endpoint;
            && (outcome == Connecting <==> !known && opens && route.endpoint.typ == Tcp)
            && (outcome == Done <==>
                  (known || (opens && route.endpoint.typ == Udp)) && CdUri.UriMeaning(route.name).Some?)
            && outcome != RouterEnds
  {
    hide CdUri.UriMeaning, ParseFibAdd;
  }

  predicate IsDescriptor(name: seq<Byte>) { CdUri.UriMeaning(name).Some? }

  // ---- What the commands do to the router

  /** The route is added through the endpoint's face with the smallest id; a bad name adds nothing. */
  ghost predicate AddedThroughFace(was: RouterSpec.Router, now: RouterSpec.Router, r: Route) {
    exists f :: IsFaceOf(was, r.endpoint, f) && now == FibAddVia(was, r.name, f, r.cost)
  }

  /** At once: through a face there is, or a new UDP face. */
  ghost predicate AddedAtOnce(was: RouterSpec.Router, now: RouterSpec.Router, r: Route, opens: bool) {
    if HasFace(was, r.endpoint) then AddedThroughFace(was, now, r)
    else if r.endpoint.typ.Udp? && opens then
      now == FibAddVia(Accept(was, r.endpoint), r.name, was.serial + 1, r.cost)
    else now == was
  }

  predicate CanRemove(was: RouterSpec.Router, d: Removal) {
    IsDescriptor(d.name) && (d.OfHop? ==> HasFace(was, d.endpoint))
  }

  /** The descriptor's entry goes, or its hop through the endpoint's face. */
  ghost predicate Removed(was: RouterSpec.Router, now: RouterSpec.Router, d: Removal)
    requires CanRemove(was, d)
  {
    var cd := CdUri.UriMeaning(d.name).value;
    if d.OfName? then now == was.(costs := was.costs - OfCd(was.costs, cd))
    else exists f :: IsFaceOf(was, d.endpoint, f) && now == was.(costs := was.costs - {(cd, f)})
  }

  class CmdServer {
    const router: Router.Forwarder

    var connection: bool       // whether m_connection holds a socket
    var connect: ConnectOp     // what asio holds of the connect and of its timer
    var timer: TimerOp
    var route: Route           // bound into both callbacks
    var replies: seq<bool>     // sent for the attempt: OK, or ERR
    var ended: bool            // an exception has left the event loop, or the empty m_connection was used

    ghost function Attempt(): Attempt
      reads this
    {
      ConnectRuns.Attempt(connection, connect, timer, replies, ended)
    }

    /** Connecting is for TCP only. */
    ghost predicate Valid()
      reads this, router, router.fib, router.st, router.faces
    {
      router.Valid() && (!connect.NoConnect? ==> route.endpoint.typ.Tcp?)
    }

    constructor (router: Router.Forwarder)
      requires router.Valid()
      ensures Valid() && this.router == router && Attempt() == IDLE
    {
      this.router := router;
      connection, connect, timer, replies, ended := false, NoConnect, NoTimer, [], false;
      route := Route([], Endpoint(Tcp, [], 0), 0);
    }

    /** `fibAdd`. No command is read while an attempt to connect is going on. */
    method FibAdd(args: Args, opens: bool) returns (outcome: Outcome)
      requires Valid() && !ended && Over(Attempt()) && router.faces.faceSerial < Router.MAX_FACE_ID
      modifies this, router.fib, router.faces
      ensures Valid() && outcome == FibAddReceived(old(router.State()), args, opens)
      ensures ended == outcome.RouterEnds?
      ensures outcome.Connecting? ==> Attempt() == BEGUN && ParseFibAdd(args) == Read(route)
      ensures !outcome.Connecting? ==> Over(Attempt())
      ensures if ParseFibAdd(args).Read?
              then AddedAtOnce(old(router.State()), router.State(), ParseFibAdd(args).value, opens)
              else router.State() == old(router.State())
    {
      hide RouterValid, StRuns.Inv, TableValid, Rel, CdUri.UriMeaning, ParseFibAdd;
      var parsed := ParseFibAdd(args);
      match parsed
      case Illegal =>
        outcome := Refused;
      case BadNumber =>
        outcome, ended := RouterEnds, true;
      case Read(r) =>
        outcome := router.FibAdd(r.name, r.endpoint, r.cost, opens);
        if outcome.Connecting? {
          route, replies := r, [];
          connection, connect, timer := true, ConnectPending, TimerPending;
        }
    }

    // ---- The attempt to connect

    /** The connect completes: asio queues its completion. */
    method ConnectCompletes(r: ConnectResult)
      requires Valid() && Enabled(Attempt(), Event.ConnectCompletes(r))
      modifies this`connect
      ensures Valid() && Attempt() == Step(old(Attempt()), Event.ConnectCompletes(r), IsDescriptor(route.name))
    {
      hide RouterValid, StRuns.Inv, TableValid, Rel, CdUri.UriMeaning;
      connect := ConnectQueued(r);
    }

    method TimerFires()
      requires Valid() && Enabled(Attempt(), Event.TimerFires)
      modifies this`timer
      ensures Valid() && Attempt() == Step(old(Attempt()), Event.TimerFires, IsDescriptor(route.name))
    {
      hide RouterValid, StRuns.Inv, TableValid, Rel, CdUri.UriMeaning;
      timer := TimerQueued(false);
    }

    /**
     * `handleConnect`: cancel the timer, and on success make the face and try the command again. Without a
     * socket in `m_connection`, and on a name that is no descriptor, the router ends here.
     */
    method HandleConnect()
      requires Valid() && connect.ConnectQueued? && !ended && router.faces.faceSerial < Router.MAX_FACE_ID
      modifies this, router.fib, router.faces
      ensures Valid() && route == old(route)
      ensures if old(connection && connect.result.Connected?)
              then AddedThroughFace(Accept(old(router.State()), route.endpoint), router.State(), route)
              else router.State() == old(router.State())
      ensures Attempt() == Step(old(Attempt()), Event.HandleConnect, IsDescriptor(route.name))
    {
      hide RouterValid, StRuns.Inv, TableValid, Rel, CdUri.UriMeaning;
      var result := connect.result;
      connect := NoConnect;
      if timer.TimerPending? {
        timer := TimerQueued(true);
      }
      if result.ConnectAborted? {
        replies := replies + [false];
        return;
      }
      if !connection {
        ended := true;
        return;
      }
      connection := false;
      if result.Connected? {
        var ok := router.AddConnected(route.name, route.endpoint, route.cost);
        if ok {
          replies := replies + [true];
        } else {
          ended := true;
        }
      } else {
        replies := replies + [false];
      }
    }

    /** `handleConnectTimeout`: close and drop the socket, which aborts the connect while it is pending. */
    method HandleConnectTimeout()
      requires Valid() && Enabled(Attempt(), Event.HandleTimeout)
      modifies this`connection, this`connect, this`timer, this`ended
      ensures Valid() && Attempt() == Step(old(Attempt()), Event.HandleTimeout, IsDescriptor(route.name))
    {
      hide RouterValid, StRuns.Inv, TableValid, Rel, CdUri.UriMeaning;
      var aborted := timer.aborted;
      timer := NoTimer;
      if !aborted {
        if !connection {
          ended := true;
          return;
        }
        if connect.ConnectPending? {
          connect := ConnectQueued(ConnectAborted);
        }
        connection := false;
      }
    }

    // ---- The other commands with arguments

    method FibDel(args: Args) returns (outcome: Outcome)
      requires Valid() && !ended
      modifies this`ended, router.fib
      ensures Valid() && ended == outcome.RouterEnds?
      ensures outcome.RouterEnds? <==> ParseFibDel(args).BadNumber?
      ensures outcome.Done? <==> ParseFibDel(args).Read? && CanRemove(old(router.State()), ParseFibDel(args).value)
      ensures if outcome.Done? then Removed(old(router.State()), router.State(), ParseFibDel(args).value)
              else router.State() == old(router.State())
    {
      hide RouterValid, StRuns.Inv, TableValid, Rel, CdUri.UriMeaning, ParseFibDel;
      var parsed := ParseFibDel(args);
      match parsed
      case Illegal =>
        outcome := Refused;
      case BadNumber =>
        outcome, ended := RouterEnds, true;
      case Read(OfName(name)) =>
        var ok := router.FibDelName(name);
        outcome := if ok then Done else Refused;
      case Read(OfHop(name, endpoint)) =>
        var ok := router.FibDel(name, endpoint);
        outcome := if ok then Done else Refused;
    }

    /** `faceDel`: asks the face, if there is one, to shut down; it leaves the tables when it has. */
    method FaceDel(args: Args) returns (outcome: Outcome, asked: Option<FaceId>)
      requires Valid() && !ended
      modifies this`ended
      ensures Valid() && ended == outcome.RouterEnds?
      ensures outcome.RouterEnds? <==> ParseFaceDel(args).BadNumber?
      ensures outcome.Done? <==> ParseFaceDel(args).Read?
      ensures forall f :: asked == Some(f) <==> ParseFaceDel(args) == Read(f) && f in router.faces.faceTable
    {
      asked := None;
      match ParseFaceDel(args)
      case Illegal =>
        outcome := Refused;
      case BadNumber =>
        outcome, ended := RouterEnds, true;
      case Read(id) =>
        outcome := Done;
        var found := router.faces.Find(id);
        if found {
          asked := Some(id);
        }
    }
  }

  // ---- When a command ends the router

  /** All five arguments are there and the type is known, but the port or the cost is no number in range. */
  predicate FibAddBadNumber(args: Args) {
    && (forall key :: key in {"NAME", "TYPE", "IP", "PORT", "COST"} ==> key in args)
    && (args["TYPE"] == TCP || args["TYPE"] == UDP)
    && (ParseUnsigned(args["PORT"], UINT16_BOUND).None? || ParseUnsigned(args["COST"], UINT32_BOUND).None?)
  }

  /** The command, and then the events of its attempt to connect if there is one, end the router. */
  predicate FibAddEnds(r: RouterSpec.Router, args: Args, opens: bool, h: seq<Event>) {
    var outcome := FibAddReceived(r, args, opens);
    outcome.RouterEnds? || (outcome.Connecting? && Run(h, IsDescriptor(ParseFibAdd(args).value.name)).ended)
  }

  /** The command is for a TCP endpoint without a face, and a socket can be had. */
  predicate StartsConnecting(r: RouterSpec.Router, args: Args, opens: bool) {
    && ParseFibAdd(args).Read?
    && ParseFibAdd(args).value.endpoint.typ.Tcp? && !HasFace(r, ParseFibAdd(args).value.endpoint) && opens
  }

  /**
   * Whatever the arguments and however the events of the attempt come, `fibAdd` ends the router exactly if
   * a number in it is bad, or it starts connecting and either both completions are queued at once or the
   * connection succeeds although the name is no descriptor.
   */
  lemma FibAddEndsRouterIff(r: RouterSpec.Router, args: Args, opens: bool, h: seq<Event>)
    requires StartsConnecting(r, args, opens) ==>
               var ok := IsDescriptor(ParseFibAdd(args).value.name);
               ConnectRuns.Legal(h, ok) && Over(Run(h, ok))
    ensures FibAddEnds(r, args, opens, h) <==>
              || FibAddBadNumber(args)
              || (StartsConnecting(r, args, opens)
                  && var ok := IsDescriptor(ParseFibAdd(args).value.name);
                     QueuedTogether(h, ok) || (Succeeds(h) && !ok))
  {
    hide CdUri.UriMeaning, IsDescriptor, Run, QueuedTogether, Succeeds, ConnectRuns.Legal;
    if StartsConnecting(r, args, opens) { AttemptEndsIff(h, IsDescriptor(ParseFibAdd(args).value.name)); }
  }

  /** The port `x` ends any router, before anything else is looked at. */
  lemma BadPortExample(r: RouterSpec.Router, name: seq<Byte>, ip: seq<Byte>, cost: seq<Byte>, opens: bool)
    ensures var args := map["NAME" := name, "TYPE" := TCP, "IP" := ip, "PORT" := [0x78], "COST" := cost];
            FibAddReceived(r, args, opens) == RouterEnds
  {
    assert !IsDigit([0x78][0]);
  }

  /** With the name `a)`, which is no descriptor, a connection that succeeds ends the router. */
  lemma BadNameExample(ip: seq<Byte>)
    ensures var args := map["NAME" := [0x61, 0x29], "TYPE" := TCP, "IP" := ip, "PORT" := [0x31], "COST" := [0x31]];
            && FibAddReceived(EMPTY, args, true) == Connecting
            && FibAddEnds(EMPTY, args, true, [Event.ConnectCompletes(Connected), HandleConnect])
  {
    hide Run, ParseUnsigned, IsDescriptor, CdUri.UriMeaning, ConnectRuns.Legal;
    OneParses(UINT16_BOUND);
    OneParses(UINT32_BOUND);
    NoDescriptor();
    SuccessExample(false);
  }

  lemma NoDescriptor()
    ensures !IsDescriptor([0x61, 0x29])
  {
    var s: seq<Byte>, t: seq<Byte>, none: seq<Byte> := [0x61, 0x29], [0x29], [];
    assert CdUri.TrimRight(CdUri.TrimLeft(s)) == s;
    assert s[1..] == t && t[1..] == none;
    assert CdUri.Split(none) == [none];
    assert [0x29] + none == t && [0x61] + t == s;
    assert CdUri.Split(t) == [t];
    assert CdUri.Split(s) == [s];
  }

  lemma OneParses(bound: nat)
    requires 1 < bound
    ensures ParseUnsigned([0x31], bound) == Some(1)
  {
    DecimalParses(1, bound);
  }
}
