/** One router as a value: its subscriptions, costs and faces, and what each event does to them. */
module RouterSpec {
  import opened Bytes
  import opened Descriptors
  import opened Matcher
  import opened HopTable
  import opened Wire
  import Fib
  import St
  import CdUri

  datatype TransportType = Tcp | Udp
  datatype Endpoint = Endpoint(typ: TransportType, ip: seq<Byte>, port: nat)

  const FIRST_SERIAL: nat := 100

  /**
   * `outbox` keeps, for every face ever created, all packets handed to it: its transport sends them in
   * that order, and goes on holding them when the face leaves the table.
   */
  datatype Router = Router(
    subs: set<Pair>, costs: map<Pair, Fib.Cost>, faces: map<FaceId, Endpoint>, serial: nat,
    outbox: map<FaceId, seq<Packet>>)

  const EMPTY := Router({}, map[], map[], FIRST_SERIAL, map[])

  /** Ids of all faces ever created. */
  ghost predicate Issued(r: Router, f: FaceId) { FIRST_SERIAL < f <= r.serial }

  /** No dangling faces: both tables name only faces in the face table, whose ids were all issued. */
  ghost predicate RouterValid(r: Router) {
    && (forall p :: p in r.subs ==> p.1 in r.faces)
    && (forall p :: p in r.costs ==> p.1 in r.faces)
    && (forall f :: f in r.faces ==> Issued(r, f))
    && (forall f :: f in r.outbox <==> Issued(r, f))
    && FIRST_SERIAL <= r.serial
  }

  // ---- Events

  /** One copy to each of the faces that is still in the table. */
  function SendTo(r: Router, ids: set<FaceId>, p: Packet): Router {
    r.(outbox := map f | f in r.outbox :: if f in ids && f in r.faces then r.outbox[f] + [p] else r.outbox[f])
  }

  ghost function OnSub(r: Router, face: FaceId, cd: Cd): Router {
    SendTo(r.(subs := r.subs + {(cd, face)}), Fib.Answer(r.costs, cd), Packet.Sub(cd))
  }

  ghost function OnPubToRp(r: Router, cd: Cd, content: seq<Byte>): Router {
    SendTo(r, Fib.Answer(r.costs, cd), PubToRp(cd, content))
  }

  ghost function OnPubFromRp(r: Router, cd: Cd, content: seq<Byte>): Router {
    SendTo(r, St.Subscribers(r.subs, cd), PubFromRp(cd, content))
  }

  /** Handling the packet ends: only matching a publication against the subscriptions may not. */
  ghost predicate HandlingEnds(r: Router, p: Packet) { p.PubFromRp? ==> St.AllHalt(r.subs, p.cd) }

  ghost function OnPacket(r: Router, face: FaceId, p: Packet): Router {
    match p
    case Sub(cd) => OnSub(r, face, cd)
    case PubToRp(cd, content) => OnPubToRp(r, cd, content)
    case PubFromRp(cd, content) => OnPubFromRp(r, cd, content)
  }

  ghost function OnFaceShutdown(r: Router, f: FaceId): Router {
    r.(subs := r.subs - OfFace(r.subs, f), costs := r.costs - OfFace(r.costs.Keys, f), faces := r.faces - {f})
  }

  function Accept(r: Router, e: Endpoint): Router {
    var f := r.serial + 1;
    r.(serial := f, faces := r.faces[f := e], outbox := r.outbox[f := []])
  }

  /** The smallest id of a face with the endpoint. */
  ghost predicate IsFaceOf(r: Router, e: Endpoint, f: FaceId) {
    f in r.faces && r.faces[f] == e && forall g :: g in r.faces && r.faces[g] == e ==> f <= g
  }

  /** Add a FIB hop through a face; a name that is no descriptor changes nothing. */
  function FibAddVia(r: Router, name: seq<Byte>, f: FaceId, cost: Fib.Cost): Router {
    var cd := CdUri.UriMeaning(name);
    if cd.None? then r else r.(costs := r.costs[(cd.value, f) := cost])
  }

  // ---- The `fibAdd` command

  /** What becomes of a control command. An exception that leaves the event loop ends the router. */
  datatype Outcome = Done | Refused | Connecting | RouterEnds

  predicate HasFace(r: Router, e: Endpoint) { exists f :: f in r.faces && r.faces[f] == e }

  /** When the command is received; `opens` says whether a socket for the endpoint can be had. */
  function FibAddOutcome(r: Router, name: seq<Byte>, e: Endpoint, opens: bool): Outcome {
    if !HasFace(r, e) && !opens then Refused
    else if !HasFace(r, e) && e.typ.Tcp? then Connecting
    else if CdUri.UriMeaning(name).Some? then Done
    else Refused
  }

  // ---- What the events keep

  lemma SendToKeeps(r: Router, ids: set<FaceId>, p: Packet)
    requires RouterValid(r)
    ensures RouterValid(SendTo(r, ids, p))
    ensures forall f :: f in r.outbox ==>
              SendTo(r, ids, p).outbox[f] == r.outbox[f] + if f in ids && f in r.faces then [p] else []
  {
  }

  lemma SendToNone(r: Router, p: Packet)
    ensures SendTo(r, {}, p) == r
  {
    assert SendTo(r, {}, p).outbox == r.outbox;
  }

  lemma SendToOneMore(r: Router, done: set<FaceId>, f: FaceId, p: Packet)
    requires f !in done && (f in r.faces ==> f in r.outbox)
    ensures SendTo(r, done + {f}, p)
            == var so := SendTo(r, done, p);
               if f in r.faces then so.(outbox := so.outbox[f := so.outbox[f] + [p]]) else so
  {
  }

  lemma SendToKeys(r: Router, ids: set<FaceId>, p: Packet)
    ensures SendTo(r, ids, p).outbox.Keys == r.outbox.Keys
  {
  }

  lemma InOutbox(r: Router, f: FaceId)
    requires RouterValid(r)
    ensures f in r.faces ==> f in r.outbox
  {
  }

  lemma SubKeeps(r: Router, face: FaceId, cd: Cd)
    requires RouterValid(r) && face in r.faces
    ensures RouterValid(r.(subs := r.subs + {(cd, face)}))
  {
  }

  /** Tables may only lose entries. */
  lemma ShrinkKeeps(r: Router, subs: set<Pair>, costs: map<Pair, Fib.Cost>)
    requires RouterValid(r) && subs <= r.subs && costs.Keys <= r.costs.Keys
    ensures RouterValid(r.(subs := subs, costs := costs))
  {
  }

  lemma PacketKeeps(r: Router, face: FaceId, p: Packet)
    requires RouterValid(r) && face in r.faces
    ensures RouterValid(OnPacket(r, face, p))
  {
    match p
    case Sub(cd) =>
      SendToKeeps(r.(subs := r.subs + {(cd, face)}), Fib.Answer(r.costs, cd), p);
    case PubToRp(cd, content) =>
      SendToKeeps(r, Fib.Answer(r.costs, cd), p);
    case PubFromRp(cd, content) =>
      SendToKeeps(r, St.Subscribers(r.subs, cd), p);
  }

  lemma ShutdownKeeps(r: Router, f: FaceId)
    requires RouterValid(r)
    ensures RouterValid(OnFaceShutdown(r, f)) && f !in OnFaceShutdown(r, f).faces
    ensures forall p :: p in OnFaceShutdown(r, f).subs <==> p in r.subs && p.1 != f
    ensures forall p :: p in OnFaceShutdown(r, f).costs <==> p in r.costs && p.1 != f
    ensures OnFaceShutdown(r, f).outbox == r.outbox && OnFaceShutdown(r, f).serial == r.serial
  {
  }

  /** A second shutdown of the same face, or one of a face long gone, changes nothing. */
  lemma ShutdownOnce(r: Router, f: FaceId)
    requires RouterValid(r) && f !in r.faces
    ensures OnFaceShutdown(r, f) == r
  {
    assert OfFace(r.costs.Keys, f) == {} && OfFace(r.subs, f) == {};
  }

  lemma AcceptKeeps(r: Router, e: Endpoint)
    requires RouterValid(r)
    ensures RouterValid(Accept(r, e)) && r.serial + 1 !in r.outbox && r.serial + 1 in Accept(r, e).faces
  {
  }

  lemma FibAddKeeps(r: Router, name: seq<Byte>, f: FaceId, cost: Fib.Cost)
    requires RouterValid(r) && f in r.faces
    ensures RouterValid(FibAddVia(r, name, f, cost))
  {
    hide CdUri.UriMeaning;
  }

  /** The router can finish matching every publication exactly when all its subscriptions are safe entries. */
  lemma HandlingEndsIff(r: Router)
    ensures (forall p :: HandlingEnds(r, p)) <==> forall q :: q in r.subs ==> Safe(q.0)
  {
    hide Safe, Halts;
    forall q | q in r.subs && Safe(q.0) ensures forall cd :: Halts(q.0, cd) { SafeIff(q.0); }
    forall q | q in r.subs && !Safe(q.0) ensures exists p :: !HandlingEnds(r, p) {
      SafeIff(q.0);
      var cd :| !Halts(q.0, cd);
      assert !HandlingEnds(r, PubFromRp(cd, []));
    }
  }

  /** Which faces a publication from the rendezvous point reaches, and how often: once or not at all. */
  lemma OneCopyPerSubscriber(r: Router, cd: Cd, content: seq<Byte>, f: FaceId)
    requires RouterValid(r) && f in r.outbox
    ensures OnPubFromRp(r, cd, content).outbox[f]
            == r.outbox[f] +
                 if exists p :: p in r.subs && p.1 == f && Matches(p.0, cd) then [PubFromRp(cd, content)] else []
  {
    hide Matches;
  }

  /** Publications and subscriptions travel along the best route only, one copy each. */
  lemma OneCopyAlongBestRoute(r: Router, face: FaceId, cd: Cd, content: seq<Byte>, f: FaceId)
    requires RouterValid(r) && f in r.outbox
    ensures OnPubToRp(r, cd, content).outbox[f]
            == r.outbox[f] + if exists p :: Fib.IsBest(r.costs, cd, p) && p.1 == f then [PubToRp(cd, content)] else []
    ensures OnSub(r, face, cd).outbox[f]
            == r.outbox[f] + if exists p :: Fib.IsBest(r.costs, cd, p) && p.1 == f then [Packet.Sub(cd)] else []
    ensures OnSub(r, face, cd).subs == r.subs + {(cd, face)} && OnPubToRp(r, cd, content).subs == r.subs
  {
    hide Fib.IsBest, Fib.Answer;
    BestIsAnswer(r.costs, cd, f);
  }

  /**
   * What handling any packet sends and records: subscriptions are recorded, and travel with publications to
   * the rendezvous point along the best route; publications from there go to the matching subscriptions.
   */
  lemma PacketHandled(r: Router, face: FaceId, p: Packet, f: FaceId)
    requires RouterValid(r) && f in r.outbox
    ensures OnPacket(r, face, p).outbox[f]
            == r.outbox[f] +
                 if (if p.PubFromRp? then exists q :: q in r.subs && q.1 == f && Matches(q.0, p.cd)
                     else exists q :: Fib.IsBest(r.costs, p.cd, q) && q.1 == f)
                 then [p] else []
    ensures OnPacket(r, face, p).subs == r.subs + if p.Sub? then {(p.cd, face)} else {}
    ensures OnPacket(r, face, p).costs == r.costs && OnPacket(r, face, p).faces == r.faces
  {
    hide Matches, Fib.IsBest, Fib.Answer;
    match p
    case Sub(cd) => OneCopyAlongBestRoute(r, face, cd, [], f);
    case PubToRp(cd, content) => OneCopyAlongBestRoute(r, face, cd, content, f);
    case PubFromRp(cd, content) => OneCopyPerSubscriber(r, cd, content, f);
  }

  lemma BestIsAnswer(costs: map<Pair, Fib.Cost>, cd: Cd, f: FaceId)
    ensures f in Fib.Answer(costs, cd) <==> exists p :: Fib.IsBest(costs, cd, p) && p.1 == f
    ensures f in Fib.Answer(costs, cd) ==> exists p :: p in costs && p.1 == f
  {
  }
}
