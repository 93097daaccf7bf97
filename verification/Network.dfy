/**
 * Clients, one router and one rendezvous point, as steps over whole runs. Links keep packets in order and
 * lose none; `TcpLink` shows why. Clients send only subscriptions, for any descriptor, and publications.
 * A run may stop anywhere: also where the router ends, or where matching an unsafe entry goes on for ever.
 */
module Network {
  import opened Bytes
  import opened Descriptors
  import opened Matcher
  import opened HopTable
  import opened Wire
  import opened RouterSpec
  import Fib
  import CdUri

  datatype Peer = Client | RendezvousPoint

  /**
   * For every face: who is at the other end, all packets that peer has posted to the router, how many
   * of those the router has handled, and how many of the router's packets the peer has taken.
   */
  datatype Net = Net(
    router: Router, peers: map<FaceId, Peer>, posted: map<FaceId, seq<Packet>>,
    handled: map<FaceId, nat>, taken: map<FaceId, nat>)

  const START := Net(EMPTY, map[], map[], map[], map[])

  datatype Step =
    | Connect(endpoint: Endpoint, peer: Peer)
    | Subscribe(face: FaceId, cd: Cd)
    | Publish(face: FaceId, cd: Cd, content: seq<Byte>)
    | RouterHandles(face: FaceId)
    | RpHandles(face: FaceId, known: bool)      // whether the rendezvous point still has its end of the face
    | FaceShutdown(face: FaceId)
    | SubEnds(pair: Pair)                       // a timer's completion runs
    | SubsCleared
    | FibAdds(name: seq<Byte>, face: FaceId, cost: Fib.Cost)
    | FibLoses(gone: set<Pair>)                 // any of the FIB's deletions

  predicate Known(n: Net, f: FaceId) {
    f in n.router.outbox && f in n.peers && f in n.posted && f in n.handled && f in n.taken
  }

  function Post(n: Net, f: FaceId, p: Packet): Net
    requires Known(n, f)
  {
    n.(posted := n.posted[f := n.posted[f] + [p]])
  }

  /** The router handles packets of faces in its table, and is done with one before it takes the next. */
  ghost predicate Enabled(n: Net, s: Step) {
    match s
    case Subscribe(f, _) => Known(n, f) && n.peers[f] == Client
    case Publish(f, _, _) => Known(n, f) && n.peers[f] == Client
    case RouterHandles(f) =>
      && Known(n, f) && f in n.router.faces && n.handled[f] < |n.posted[f]|
      && HandlingEnds(n.router, n.posted[f][n.handled[f]])
    case RpHandles(f, _) => Known(n, f) && n.peers[f] == RendezvousPoint && n.taken[f] < |n.router.outbox[f]|
    case FibAdds(_, f, _) => f in n.router.faces
    case _ => true
  }

  ghost function Next(n: Net, s: Step): Net
    requires Enabled(n, s)
  {
    match s
    case Connect(e, peer) =>
      var f := n.router.serial + 1;
      Net(Accept(n.router, e), n.peers[f := peer], n.posted[f := []], n.handled[f := 0], n.taken[f := 0])
    case Subscribe(f, cd) => Post(n, f, Packet.Sub(cd))
    case Publish(f, cd, content) => Post(n, f, PubToRp(cd, content))
    case RouterHandles(f) =>
      n.(router := OnPacket(n.router, f, n.posted[f][n.handled[f]]), handled := n.handled[f := n.handled[f] + 1])
    case RpHandles(f, known) =>
      var p := n.router.outbox[f][n.taken[f]];
      var m := n.(taken := n.taken[f := n.taken[f] + 1]);
      if p.PubToRp? && known then Post(m, f, PubFromRp(p.cd, p.content)) else m
    case FaceShutdown(f) => n.(router := OnFaceShutdown(n.router, f))
    case SubEnds(p) => n.(router := n.router.(subs := n.router.subs - {p}))
    case SubsCleared => n.(router := n.router.(subs := {}))
    case FibAdds(name, f, cost) => n.(router := FibAddVia(n.router, name, f, cost))
    case FibLoses(gone) => n.(router := n.router.(costs := n.router.costs - gone))
  }

  /** The packet a step of the router handles. */
  ghost function Handled(n: Net, s: Step): Packet
    requires s.RouterHandles? && Enabled(n, s)
  {
    n.posted[s.face][n.handled[s.face]]
  }

  // ---- Runs

  /** A run: states joined by steps, from the empty network. */
  ghost predicate IsRun(states: seq<Net>, steps: seq<Step>) {
    && |states| == |steps| + 1 && states[0] == START
    && forall k :: 0 <= k < |steps| ==> Enabled(states[k], steps[k]) && states[k + 1] == Next(states[k], steps[k])
  }

  // ---- What every step keeps

  predicate IsPublication(s: Step, cd: Cd, content: seq<Byte>) {
    s.Publish? && s.cd == cd && s.content == content
  }

  ghost predicate PublishedIn(steps: seq<Step>, cd: Cd, content: seq<Byte>) {
    exists i :: 0 <= i < |steps| && IsPublication(steps[i], cd, content)
  }

  ghost predicate SubscribedIn(steps: seq<Step>, f: FaceId, cd: Cd) {
    exists i :: 0 <= i < |steps| && steps[i] == Subscribe(f, cd)
  }

  /** The packet goes back to a subscription on this face, or to a publication, in one of the steps. */
  ghost predicate Traced(f: FaceId, p: Packet, steps: seq<Step>) {
    if p.Sub? then SubscribedIn(steps, f, p.cd) else PublishedIn(steps, p.cd, p.content)
  }

  ghost predicate AllTraced(f: FaceId, ps: seq<Packet>, steps: seq<Step>) {
    forall k :: 0 <= k < |ps| ==> Traced(f, ps[k], steps)
  }

  /** Every publication among the packets was published in one of the steps. */
  ghost predicate Authentic(ps: seq<Packet>, steps: seq<Step>) {
    forall k :: 0 <= k < |ps| && !ps[k].Sub? ==> PublishedIn(steps, ps[k].cd, ps[k].content)
  }

  /** The router is valid, its faces and the links' ends agree, and nobody is ahead of what was sent. */
  ghost predicate NetValid(n: Net) {
    && RouterValid(n.router)
    && n.peers.Keys == n.posted.Keys == n.handled.Keys == n.taken.Keys == n.router.outbox.Keys
    && forall f :: f in n.posted ==> n.handled[f] <= |n.posted[f]| && n.taken[f] <= |n.router.outbox[f]|
  }

  /** Nothing was made up on the way. */
  ghost predicate NetTraced(n: Net, steps: seq<Step>) {
    && (forall f :: f in n.posted ==> AllTraced(f, n.posted[f], steps))
    && (forall f :: f in n.router.outbox ==> Authentic(n.router.outbox[f], steps))
    && (forall p :: p in n.router.subs ==> SubscribedIn(steps, p.1, p.0))
  }

  lemma StartValid()
    ensures NetValid(START) && NetTraced(START, [])
  {
  }

  /** A packet's handling adds at most that packet to each face, and at most its subscription. */
  lemma PacketAdds(r: Router, face: FaceId, p: Packet, f: FaceId)
    requires RouterValid(r) && f in r.outbox
    ensures var r' := OnPacket(r, face, p);
            && r'.outbox.Keys == r.outbox.Keys && r'.faces == r.faces
            && (r'.outbox[f] == r.outbox[f] || r'.outbox[f] == r.outbox[f] + [p])
            && r'.subs == r.subs + if p.Sub? then {(p.cd, face)} else {}
  {
    hide RouterValid, Matches;
  }

  lemma HandlingKeepsValid(n: Net, f: FaceId)
    requires NetValid(n) && Enabled(n, RouterHandles(f))
    ensures NetValid(Next(n, RouterHandles(f)))
  {
    hide RouterValid, OnPacket, HandlingEnds;
    var p := n.posted[f][n.handled[f]];
    PacketKeeps(n.router, f, p);
    forall g | g in n.router.outbox
      ensures OnPacket(n.router, f, p).outbox.Keys == n.router.outbox.Keys
      ensures |n.router.outbox[g]| <= |OnPacket(n.router, f, p).outbox[g]|
    {
      PacketAdds(n.router, f, p, g);
    }
    PacketAdds(n.router, f, p, f);
  }

  lemma ConnectKeepsValid(n: Net, e: Endpoint, peer: Peer)
    requires NetValid(n)
    ensures NetValid(Next(n, Connect(e, peer)))
  {
    AcceptKeeps(n.router, e);
    hide RouterValid;
  }

  lemma EchoKeepsValid(n: Net, f: FaceId, known: bool)
    requires NetValid(n) && Enabled(n, RpHandles(f, known))
    ensures NetValid(Next(n, RpHandles(f, known)))
  {
    hide RouterValid;
  }

  lemma StepKeepsValid(n: Net, s: Step)
    requires NetValid(n) && Enabled(n, s)
    ensures NetValid(Next(n, s))
  {
    hide RouterValid, OnPacket, CdUri.UriMeaning, HandlingEnds;
    match s {
      case Connect(e, peer) => ConnectKeepsValid(n, e, peer);
      case Subscribe(_, _) =>
      case Publish(_, _, _) =>
      case RouterHandles(f) => HandlingKeepsValid(n, f);
      case RpHandles(f, known) => EchoKeepsValid(n, f, known);
      case FaceShutdown(f) => ShutdownKeeps(n.router, f);
      case SubEnds(p) => ShrinkKeeps(n.router, n.router.subs - {p}, n.router.costs);
      case SubsCleared => ShrinkKeeps(n.router, {}, n.router.costs);
      case FibAdds(name, f, cost) => FibAddKeeps(n.router, name, f, cost);
      case FibLoses(gone) => ShrinkKeeps(n.router, n.router.subs, n.router.costs - gone);
    }
  }

  lemma TracedGrows(f: FaceId, ps: seq<Packet>, steps: seq<Step>, s: Step)
    ensures AllTraced(f, ps, steps) ==> AllTraced(f, ps, steps + [s])
    ensures Authentic(ps, steps) ==> Authentic(ps, steps + [s])
  {
    forall p: Packet | !p.Sub? && PublishedIn(steps, p.cd, p.content)
      ensures PublishedIn(steps + [s], p.cd, p.content)
    {
      var i :| 0 <= i < |steps| && IsPublication(steps[i], p.cd, p.content);
      assert (steps + [s])[i] == steps[i];
    }
    forall g, cd | SubscribedIn(steps, g, cd) ensures SubscribedIn(steps + [s], g, cd) {
      SubscribedGrows(steps, s, g, cd);
    }
  }

  lemma SubscribedGrows(steps: seq<Step>, s: Step, f: FaceId, cd: Cd)
    requires SubscribedIn(steps, f, cd)
    ensures SubscribedIn(steps + [s], f, cd)
  {
    var i :| 0 <= i < |steps| && steps[i] == Subscribe(f, cd);
    assert (steps + [s])[i] == steps[i];
  }

  lemma NetTracedGrows(n: Net, steps: seq<Step>, s: Step)
    requires NetTraced(n, steps)
    ensures NetTraced(n, steps + [s])
  {
    hide AllTraced, Authentic, SubscribedIn;
    forall f | f in n.posted ensures AllTraced(f, n.posted[f], steps + [s]) { TracedGrows(f, n.posted[f], steps, s); }
    forall f | f in n.router.outbox ensures Authentic(n.router.outbox[f], steps + [s]) {
      TracedGrows(f, n.router.outbox[f], steps, s);
    }
    forall p | p in n.router.subs ensures SubscribedIn(steps + [s], p.1, p.0) { SubscribedGrows(steps, s, p.1, p.0); }
  }

  lemma PostTraced(n: Net, f: FaceId, p: Packet, steps: seq<Step>)
    requires NetTraced(n, steps) && Known(n, f) && Traced(f, p, steps)
    ensures NetTraced(Post(n, f, p), steps)
  {
    hide Traced, Authentic, SubscribedIn;
  }

  lemma TracedAt(f: FaceId, ps: seq<Packet>, k: nat, steps: seq<Step>)
    requires AllTraced(f, ps, steps) && k < |ps|
    ensures Traced(f, ps[k], steps)
  {
  }

  lemma AuthenticAt(ps: seq<Packet>, k: nat, steps: seq<Step>)
    requires Authentic(ps, steps) && k < |ps|
    ensures !ps[k].Sub? ==> PublishedIn(steps, ps[k].cd, ps[k].content)
  {
  }

  lemma AuthenticAppend(ps: seq<Packet>, p: Packet, steps: seq<Step>)
    requires Authentic(ps, steps) && (!p.Sub? ==> PublishedIn(steps, p.cd, p.content))
    ensures Authentic(ps + [p], steps)
  {
  }

  lemma HandlingTraced(n: Net, f: FaceId, steps: seq<Step>)
    requires NetValid(n) && NetTraced(n, steps) && Enabled(n, RouterHandles(f))
    ensures NetTraced(Next(n, RouterHandles(f)), steps)
  {
    hide RouterValid, AllTraced, Authentic, SubscribedIn, PublishedIn, OnPacket, HandlingEnds;
    var p := n.posted[f][n.handled[f]];
    var r := OnPacket(n.router, f, p);
    TracedAt(f, n.posted[f], n.handled[f], steps);
    PacketAdds(n.router, f, p, f);
    forall g | g in r.outbox ensures Authentic(r.outbox[g], steps) {
      PacketAdds(n.router, f, p, g);
      AuthenticAppend(n.router.outbox[g], p, steps);
    }
  }

  lemma StepTraced(n: Net, steps: seq<Step>, s: Step)
    requires NetValid(n) && NetTraced(n, steps) && Enabled(n, s)
    ensures NetTraced(Next(n, s), steps + [s])
  {
    var now := steps + [s];
    NetTracedGrows(n, steps, s);
    assert now[|steps|] == s;
    hide RouterValid, NetTraced, OnPacket, HandlingEnds, CdUri.UriMeaning;
    match s {
      case Subscribe(f, cd) => PostTraced(n, f, Packet.Sub(cd), now);
      case Publish(f, cd, content) =>
        assert IsPublication(now[|steps|], cd, content);
        PostTraced(n, f, PubToRp(cd, content), now);
      case RouterHandles(f) => HandlingTraced(n, f, now);
      case RpHandles(f, known) => EchoTraced(n, f, known, now);
      case _ => QuietTraced(n, s, now);
    }
  }

  lemma EchoTraced(n: Net, f: FaceId, known: bool, steps: seq<Step>)
    requires NetTraced(n, steps) && Enabled(n, RpHandles(f, known))
    ensures NetTraced(Next(n, RpHandles(f, known)), steps)
  {
    hide RouterValid, AllTraced, Authentic, SubscribedIn, PublishedIn;
    var p := n.router.outbox[f][n.taken[f]];
    var m := n.(taken := n.taken[f := n.taken[f] + 1]);
    AuthenticAt(n.router.outbox[f], n.taken[f], steps);
    if p.PubToRp? && known { PostTraced(m, f, PubFromRp(p.cd, p.content), steps); }
  }

  /** The other steps move no packet, and no subscription into the table. */
  lemma QuietTraced(n: Net, s: Step, steps: seq<Step>)
    requires NetTraced(n, steps) && Enabled(n, s)
    requires !s.Subscribe? && !s.Publish? && !s.RouterHandles? && !s.RpHandles?
    ensures NetTraced(Next(n, s), steps)
  {
    hide RouterValid, Traced, SubscribedIn, PublishedIn, CdUri.UriMeaning;
  }

  lemma {:induction false} RunsAreValid(states: seq<Net>, steps: seq<Step>, n: nat)
    requires IsRun(states, steps) && n <= |steps|
    ensures NetValid(states[n]) && NetTraced(states[n], steps[..n])
    decreases n
  {
    hide Next, Enabled, NetValid, NetTraced;
    if n == 0 {
      StartValid();
    } else {
      RunsAreValid(states, steps, n - 1);
      StepKeepsValid(states[n - 1], steps[n - 1]);
      StepTraced(states[n - 1], steps[..n - 1], steps[n - 1]);
      assert steps[..n] == steps[..n - 1] + [steps[n - 1]];
    }
  }

  // ---- Faces

  /** In every reachable state both tables name only faces that exist. */
  lemma NoDanglingFaces(states: seq<Net>, steps: seq<Step>, k: nat)
    requires IsRun(states, steps) && k < |states|
    ensures var r := states[k].router;
            (forall p :: p in r.subs ==> p.1 in r.faces) && (forall p :: p in r.costs ==> p.1 in r.faces)
  {
    hide Next, Enabled, NetTraced;
    RunsAreValid(states, steps, k);
  }

  /** What one step does to the faces: it issues at most one id, the next one, and revives none. */
  lemma StepFaces(n: Net, s: Step)
    requires Enabled(n, s)
    ensures var r, r' := n.router, Next(n, s).router;
            && r'.serial == (if s.Connect? then r.serial + 1 else r.serial)
            && forall f :: f in r'.faces && f !in r.faces ==> s.Connect? && f == r'.serial
  {
    hide RouterValid, HandlingEnds, CdUri.UriMeaning;
  }

  /** Face ids increase strictly and are never reused: a face that is gone stays gone. */
  lemma {:induction false} NeverReused(states: seq<Net>, steps: seq<Step>, j: nat, k: nat, f: FaceId)
    requires IsRun(states, steps) && j <= k < |states|
    requires f <= states[j].router.serial && f !in states[j].router.faces
    ensures states[j].router.serial <= states[k].router.serial && f !in states[k].router.faces
    decreases k
  {
    hide Next, Enabled;
    if j < k {
      NeverReused(states, steps, j, k - 1, f);
      StepFaces(states[k - 1], steps[k - 1]);
    }
  }

  /** In a run whose subscriptions are all for safe entries, the router can always handle the next packet. */
  lemma NeverHangs(states: seq<Net>, steps: seq<Step>, k: nat, f: FaceId)
    requires IsRun(states, steps) && k < |states|
    requires forall i :: 0 <= i < k && steps[i].Subscribe? ==> Safe(steps[i].cd)
    requires Known(states[k], f) && f in states[k].router.faces && states[k].handled[f] < |states[k].posted[f]|
    ensures Enabled(states[k], RouterHandles(f))
  {
    hide Next, Safe, Matches, NetValid;
    RunsAreValid(states, steps, k);
    var r := states[k].router;
    forall q | q in r.subs ensures Safe(q.0) {
      var i :| 0 <= i < k && steps[..k][i] == Subscribe(q.1, q.0);
    }
    HandlingEndsIff(r);
  }
}
