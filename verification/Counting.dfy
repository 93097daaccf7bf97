/** No publication is multiplied: over whole runs, a face is sent no more copies than were published. */
module Counting {
  import opened Bytes
  import opened HopTable
  import opened Descriptors
  import opened Wire
  import opened RouterSpec
  import opened Network
  import Fib
  import St
  import CdUri

  /** How often the publication was published. */
  ghost function Publications(steps: seq<Step>, cd: Cd, content: seq<Byte>): nat {
    if steps == [] then 0
    else
      var n := |steps| - 1;
      Publications(steps[..n], cd, content) + if IsPublication(steps[n], cd, content) then 1 else 0
  }

  /** How often the packet occurs behind the first `k`. */
  function Ahead(ps: seq<Packet>, k: nat, p: Packet): nat
    requires k <= |ps|
  {
    multiset(ps[k..])[p]
  }

  lemma AheadNext(ps: seq<Packet>, k: nat, p: Packet)
    requires k < |ps|
    ensures Ahead(ps, k, p) == Ahead(ps, k + 1, p) + if ps[k] == p then 1 else 0
  {
    assert ps[k..] == [ps[k]] + ps[k + 1..];
  }

  lemma AheadAppend(ps: seq<Packet>, q: Packet, k: nat, p: Packet)
    requires k <= |ps|
    ensures Ahead(ps + [q], k, p) == Ahead(ps, k, p) + if q == p then 1 else 0
  {
    assert (ps + [q])[k..] == ps[k..] + [q];
  }

  /** The ends of the face's link agree with the packets on it. */
  predicate Linked(n: Net, f: FaceId) {
    Known(n, f) && n.handled[f] <= |n.posted[f]| && n.taken[f] <= |n.router.outbox[f]|
  }

  /**
   * The publications under way on a face that can still become copies: `to` the rendezvous point, posted
   * to the router or sent by it, and `back` from it, posted to the router.
   */
  ghost function Pending(n: Net, f: FaceId, to: Packet, back: Packet): nat {
    if !Linked(n, f) then 0
    else Ahead(n.posted[f], n.handled[f], to) + Ahead(n.posted[f], n.handled[f], back)
         + Ahead(n.router.outbox[f], n.taken[f], to)
  }

  /** The same on all faces with ids below `k`. */
  ghost function AllPending(n: Net, k: nat, to: Packet, back: Packet): nat {
    if k == 0 then 0 else AllPending(n, k - 1, to, back) + Pending(n, k - 1, to, back)
  }

  lemma {:induction false} ChangeOnFace(n: Net, m: Net, f: FaceId, k: nat, to: Packet, back: Packet)
    requires forall g: nat :: g < k && g != f ==> Pending(m, g, to, back) == Pending(n, g, to, back)
    ensures AllPending(m, k, to, back) - AllPending(n, k, to, back)
            == if f < k then Pending(m, f, to, back) - Pending(n, f, to, back) else 0
  {
    if 0 < k { ChangeOnFace(n, m, f, k - 1, to, back); }
  }

  ghost predicate AreOne(to: Packet, back: Packet) {
    to.PubToRp? && back == PubFromRp(to.cd, to.content)
  }

  /** Posting a packet. */
  lemma PostPending(n: Net, f: FaceId, p: Packet, k: nat, to: Packet, back: Packet)
    requires Linked(n, f) && f < k && AreOne(to, back)
    ensures AllPending(Post(n, f, p), k, to, back)
            == AllPending(n, k, to, back) + if p == to || p == back then 1 else 0
  {
    hide Ahead;
    var m := Post(n, f, p);
    AheadAppend(n.posted[f], p, n.handled[f], to);
    AheadAppend(n.posted[f], p, n.handled[f], back);
    ChangeOnFace(n, m, f, k, to, back);
  }

  /** Taking the next packet off, at the router's end and at the other. */
  lemma HandlePending(n: Net, f: FaceId, k: nat, to: Packet, back: Packet)
    requires Linked(n, f) && f < k && n.handled[f] < |n.posted[f]| && AreOne(to, back)
    ensures var p := n.posted[f][n.handled[f]];
            AllPending(n.(handled := n.handled[f := n.handled[f] + 1]), k, to, back)
            == AllPending(n, k, to, back) - if p == to || p == back then 1 else 0
  {
    hide Ahead;
    AheadNext(n.posted[f], n.handled[f], to);
    AheadNext(n.posted[f], n.handled[f], back);
    ChangeOnFace(n, n.(handled := n.handled[f := n.handled[f] + 1]), f, k, to, back);
  }

  lemma TakePending(n: Net, f: FaceId, k: nat, to: Packet, back: Packet)
    requires Linked(n, f) && f < k && n.taken[f] < |n.router.outbox[f]|
    ensures var p := n.router.outbox[f][n.taken[f]];
            AllPending(n.(taken := n.taken[f := n.taken[f] + 1]), k, to, back)
            == AllPending(n, k, to, back) - if p == to then 1 else 0
  {
    hide Ahead;
    AheadNext(n.router.outbox[f], n.taken[f], to);
    ChangeOnFace(n, n.(taken := n.taken[f := n.taken[f] + 1]), f, k, to, back);
  }

  /** What the router sends changes only what is pending, and by the forwarded publication at most. */
  lemma SendPending(n: Net, ids: set<FaceId>, p: Packet, k: nat, to: Packet, back: Packet)
    requires NetValid(n) && (p == to ==> forall f, g :: f in ids && g in ids ==> f == g)
    ensures AllPending(n.(router := SendTo(n.router, ids, p)), k, to, back)
            <= AllPending(n, k, to, back) + if p == to then 1 else 0
  {
    var m := n.(router := SendTo(n.router, ids, p));
    hide Ahead, RouterValid;
    forall f ensures Pending(m, f, to, back) == Pending(n, f, to, back)
                       + if p == to && f in ids && f in n.router.faces && Linked(n, f) then 1 else 0
    {
      if Linked(n, f) && f in ids && f in n.router.faces { AheadAppend(n.router.outbox[f], p, n.taken[f], to); }
    }
    if f :| p == to && f in ids {
      ChangeOnFace(n, m, f, k, to, back);
    } else {
      ChangeOnFace(n, m, k, k, to, back);
    }
  }

  /** Copies on a face and all that is pending. */
  ghost function Balance(n: Net, f: FaceId, k: nat, to: Packet, back: Packet): nat {
    AllPending(n, k, to, back) + if f in n.router.outbox then multiset(n.router.outbox[f])[back] else 0
  }

  lemma HandlingBalance(n: Net, s: Step, f: FaceId, k: nat, to: Packet, back: Packet)
    requires NetValid(n) && s.RouterHandles? && Enabled(n, s) && n.router.serial < k && AreOne(to, back)
    ensures Balance(Next(n, s), f, k, to, back) <= Balance(n, f, k, to, back)
  {
    hide OnPacket, AllPending, RouterValid, HandlingEnds;
    var p := Handled(n, s);
    var m := n.(handled := n.handled[s.face := n.handled[s.face] + 1]);
    FacesBelow(n, s.face, k);
    HandlePending(n, s.face, k, to, back);
    HandlingPending(m, s.face, p, k, to, back);
    assert Next(n, s) == m.(router := OnPacket(n.router, s.face, p));
    HandlingCopies(n.router, s.face, p, f, back);
  }

  lemma FacesBelow(n: Net, f: FaceId, k: nat)
    requires NetValid(n) && Known(n, f) && n.router.serial < k
    ensures Linked(n, f) && f < k
  {
  }

  /** One packet's handling makes at most one copy, of that packet. */
  lemma HandlingCopies(r: Router, face: FaceId, p: Packet, f: FaceId, back: Packet)
    requires RouterValid(r) && face in r.outbox
    ensures var r' := OnPacket(r, face, p);
            && r'.outbox.Keys == r.outbox.Keys
            && (f in r.outbox ==>
                  multiset(r'.outbox[f])[back] <= multiset(r.outbox[f])[back] + if p == back then 1 else 0)
  {
    hide OnPacket, RouterValid;
    PacketAdds(r, face, p, face);
    if f in r.outbox { PacketAdds(r, face, p, f); }
  }

  lemma HandlingPending(n: Net, face: FaceId, p: Packet, k: nat, to: Packet, back: Packet)
    requires NetValid(n) && AreOne(to, back) && face in n.router.faces
    ensures AllPending(n.(router := OnPacket(n.router, face, p)), k, to, back)
            <= AllPending(n, k, to, back) + if p == to then 1 else 0
  {
    hide AllPending, RouterValid, Fib.Answer, Fib.IsBest;
    match p
    case Sub(cd) =>
      var r := n.router.(subs := n.router.subs + {(cd, face)});
      SubKeeps(n.router, face, cd);
      SubsDoNotPend(n, r, k, to, back);
      SendPending(n.(router := r), Fib.Answer(r.costs, cd), p, k, to, back);
    case PubToRp(cd, _) =>
      Fib.AnswerIsOneFace(n.router.costs, cd);
      SendPending(n, Fib.Answer(n.router.costs, cd), p, k, to, back);
    case PubFromRp(cd, _) =>
      SendPending(n, St.Subscribers(n.router.subs, cd), p, k, to, back);
  }

  /** Tables and faces do not count. */
  lemma SubsDoNotPend(n: Net, r: Router, k: nat, to: Packet, back: Packet)
    requires r.outbox == n.router.outbox
    ensures AllPending(n.(router := r), k, to, back) == AllPending(n, k, to, back)
  {
    ChangeOnFace(n, n.(router := r), k, k, to, back);
  }

  lemma StepBalance(n: Net, s: Step, f: FaceId, k: nat, to: Packet, back: Packet)
    requires NetValid(n) && Enabled(n, s) && n.router.serial < k && AreOne(to, back)
    ensures Balance(Next(n, s), f, k, to, back)
            <= Balance(n, f, k, to, back) + if IsPublication(s, to.cd, to.content) then 1 else 0
  {
    hide Next, NetValid, Balance, Enabled;
    match s {
      case Subscribe(_, _) => ClientBalance(n, s, f, k, to, back);
      case Publish(_, _, _) => ClientBalance(n, s, f, k, to, back);
      case RouterHandles(_) => HandlingBalance(n, s, f, k, to, back);
      case RpHandles(g, known) => EchoBalance(n, g, known, f, k, to, back);
      case Connect(e, peer) => NewFaceBalance(n, e, peer, f, k, to, back);
      case _ => QuietBalance(n, s, f, k, to, back);
    }
  }

  lemma ClientBalance(n: Net, s: Step, f: FaceId, k: nat, to: Packet, back: Packet)
    requires NetValid(n) && Enabled(n, s) && n.router.serial < k && AreOne(to, back)
    requires s.Subscribe? || s.Publish?
    ensures Balance(Next(n, s), f, k, to, back)
            == Balance(n, f, k, to, back) + if IsPublication(s, to.cd, to.content) then 1 else 0
  {
    hide AllPending, NetValid;
    FacesBelow(n, s.face, k);
    PostPending(n, s.face, if s.Subscribe? then Packet.Sub(s.cd) else PubToRp(s.cd, s.content), k, to, back);
  }

  lemma EchoBalance(n: Net, g: FaceId, known: bool, f: FaceId, k: nat, to: Packet, back: Packet)
    requires NetValid(n) && Enabled(n, RpHandles(g, known)) && n.router.serial < k && AreOne(to, back)
    ensures Balance(Next(n, RpHandles(g, known)), f, k, to, back) <= Balance(n, f, k, to, back)
  {
    hide AllPending, NetValid;
    var p := n.router.outbox[g][n.taken[g]];
    FacesBelow(n, g, k);
    TakePending(n, g, k, to, back);
    if p.PubToRp? && known {
      PostPending(n.(taken := n.taken[g := n.taken[g] + 1]), g, PubFromRp(p.cd, p.content), k, to, back);
    }
  }

  /** The other steps leave links and outboxes alone. */
  lemma QuietBalance(n: Net, s: Step, f: FaceId, k: nat, to: Packet, back: Packet)
    requires Enabled(n, s)
    requires !s.Connect? && !s.Subscribe? && !s.Publish? && !s.RouterHandles? && !s.RpHandles?
    ensures Balance(Next(n, s), f, k, to, back) == Balance(n, f, k, to, back)
  {
    hide AllPending, CdUri.UriMeaning;
    var r := Next(n, s).router;
    assert Next(n, s) == n.(router := r) && r.outbox == n.router.outbox;
    SubsDoNotPend(n, r, k, to, back);
  }

  lemma NewFaceBalance(n: Net, e: Endpoint, peer: Peer, f: FaceId, k: nat, to: Packet, back: Packet)
    requires NetValid(n)
    ensures Balance(Next(n, Connect(e, peer)), f, k, to, back) == Balance(n, f, k, to, back)
  {
    hide AllPending, Pending, RouterValid;
    var m, issued := Next(n, Connect(e, peer)), n.router.serial + 1;
    AcceptKeeps(n.router, e);
    forall g ensures Pending(m, g, to, back) == Pending(n, g, to, back) {
      if g == issued {
        NewFacePending(m, g, to, back);
        NoFacePending(n, g, to, back);
      } else {
        SameLinkPends(n, m, g, to, back);
      }
    }
    ChangeOnFace(n, m, k, k, to, back);
  }

  lemma NoFacePending(n: Net, f: FaceId, to: Packet, back: Packet)
    requires f !in n.router.outbox
    ensures Pending(n, f, to, back) == 0
  {
  }

  lemma NewFacePending(n: Net, f: FaceId, to: Packet, back: Packet)
    requires Linked(n, f) && n.posted[f] == [] && n.router.outbox[f] == []
    ensures Pending(n, f, to, back) == 0
  {
  }

  lemma SameLinkPends(n: Net, m: Net, f: FaceId, to: Packet, back: Packet)
    requires Known(n, f) <==> Known(m, f)
    requires Known(n, f) ==>
               && m.posted[f] == n.posted[f] && m.handled[f] == n.handled[f]
               && m.router.outbox[f] == n.router.outbox[f] && m.taken[f] == n.taken[f]
    ensures Pending(m, f, to, back) == Pending(n, f, to, back)
  {
  }

  lemma {:induction false} RunBalance(states: seq<Net>, steps: seq<Step>, n: nat, f: FaceId, k: nat,
                                      to: Packet, back: Packet)
    requires IsRun(states, steps) && n <= |steps| && states[n].router.serial < k && AreOne(to, back)
    ensures Balance(states[n], f, k, to, back) <= Publications(steps[..n], to.cd, to.content)
    decreases n
  {
    hide Next, Enabled, NetValid, NetTraced, Balance;
    if n == 0 {
      StartBalance(f, k, to, back);
    } else {
      var m := n - 1;
      StepFaces(states[m], steps[m]);
      RunBalance(states, steps, m, f, k, to, back);
      RunsAreValid(states, steps, m);
      StepBalance(states[m], steps[m], f, k, to, back);
      assert steps[..n][..m] == steps[..m];
    }
  }

  lemma {:induction false} StartBalance(f: FaceId, k: nat, to: Packet, back: Packet)
    ensures Balance(START, f, k, to, back) == 0
  {
    if 0 < k { StartBalance(f, k - 1, to, back); }
  }

  /**
   * In every run, the copies of a publication that the router has sent a face from the rendezvous point are
   * at most as many as the times clients published it, however many routes, subscriptions and renewals.
   */
  lemma NoMoreCopiesThanPublications(states: seq<Net>, steps: seq<Step>, f: FaceId, cd: Cd, content: seq<Byte>)
    requires IsRun(states, steps) && f in states[|steps|].router.outbox
    ensures multiset(states[|steps|].router.outbox[f])[PubFromRp(cd, content)] <= Publications(steps, cd, content)
  {
    hide Next, Enabled, AllPending;
    var k := states[|steps|].router.serial + 1;
    RunBalance(states, steps, |steps|, f, k, PubToRp(cd, content), PubFromRp(cd, content));
    assert steps[..|steps|] == steps;
  }
}
