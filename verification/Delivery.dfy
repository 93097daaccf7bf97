/** What whole runs deliver: where every packet came from, and where every publication goes. */
module Delivery {
  import opened Descriptors
  import opened Matcher
  import opened HopTable
  import opened Wire
  import opened RouterSpec
  import opened Network
  import Fib
  import CdUri

  // ---- Links only grow

  /** A step `s` from `n` to `m`, as the two directions of a link and their ends see it. */
  ghost predicate LinkStep(n: Net, s: Step, m: Net, f: FaceId)
    requires Enabled(n, s)
  {
    && f in n.router.outbox && Known(n, f) && Known(m, f) && m.peers[f] == n.peers[f]
    && (m.router.outbox[f] == n.router.outbox[f]
        || (s.RouterHandles? && m.router.outbox[f] == n.router.outbox[f] + [Handled(n, s)]))
    && n.posted[f] <= m.posted[f]
    && m.handled[f] == n.handled[f] + (if s == RouterHandles(f) then 1 else 0)
    && m.taken[f] == n.taken[f] + (if s.RpHandles? && s.face == f then 1 else 0)
  }

  /** What one step does to a link: it sends at most one packet, the one being handled, and takes none back. */
  lemma StepOnLink(n: Net, s: Step, f: FaceId)
    requires Enabled(n, s) && NetValid(n) && f in n.router.outbox
    ensures LinkStep(n, s, Next(n, s), f)
  {
    hide Next, LinkStep, Enabled, NetValid;
    if s.Connect? {
      ConnectOnLink(n, s.endpoint, s.peer, f);
    } else if s.RouterHandles? {
      HandlingOnLink(n, s.face, f);
    } else {
      OtherOnLink(n, s, f);
    }
  }

  lemma ConnectOnLink(n: Net, e: Endpoint, peer: Peer, f: FaceId)
    requires NetValid(n) && f in n.router.outbox
    ensures LinkStep(n, Connect(e, peer), Next(n, Connect(e, peer)), f)
  {
    AcceptKeeps(n.router, e);
    hide RouterValid;
  }

  lemma HandlingOnLink(n: Net, face: FaceId, f: FaceId)
    requires NetValid(n) && Enabled(n, RouterHandles(face)) && f in n.router.outbox
    ensures LinkStep(n, RouterHandles(face), Next(n, RouterHandles(face)), f)
  {
    hide OnPacket, HandlingEnds, RouterValid;
    PacketAdds(n.router, face, Handled(n, RouterHandles(face)), f);
  }

  lemma OtherOnLink(n: Net, s: Step, f: FaceId)
    requires Enabled(n, s) && NetValid(n) && f in n.router.outbox && !s.Connect? && !s.RouterHandles?
    ensures LinkStep(n, s, Next(n, s), f)
  {
    hide CdUri.UriMeaning, HandlingEnds, RouterValid;
  }

  /** A face has nothing to send in the state that creates it. */
  lemma NewFaceIsEmpty(n: Net, s: Step, f: FaceId)
    requires Enabled(n, s) && NetValid(n) && f in Next(n, s).router.outbox && Next(n, s).router.outbox[f] != []
    ensures f in n.router.outbox
  {
    hide CdUri.UriMeaning, HandlingEnds, RouterValid, OnPacket;
    if s.RouterHandles? { PacketAdds(n.router, s.face, Handled(n, s), s.face); }
  }

  lemma {:induction false} LinksGrow(states: seq<Net>, steps: seq<Step>, i: nat, j: nat, f: FaceId)
    requires IsRun(states, steps) && i <= j < |states| && f in states[i].router.outbox
    ensures Known(states[i], f) && Known(states[j], f) && states[j].peers[f] == states[i].peers[f]
    ensures states[i].router.outbox[f] <= states[j].router.outbox[f] && states[i].posted[f] <= states[j].posted[f]
    ensures states[i].handled[f] <= states[j].handled[f] && states[i].taken[f] <= states[j].taken[f]
    decreases j
  {
    hide Next, Enabled, RouterValid, NetTraced;
    RunsAreValid(states, steps, i);
    if i < j {
      LinksGrow(states, steps, i, j - 1, f);
      RunsAreValid(states, steps, j - 1);
      StepOnLink(states[j - 1], steps[j - 1], f);
    }
  }

  /** The router handles packet number `k` of a face in one step of the run, if it gets that far. */
  lemma {:induction false} WasHandled(states: seq<Net>, steps: seq<Step>, f: FaceId, k: nat, i: nat, n: nat)
    returns (j: nat)
    requires IsRun(states, steps) && i <= n <= |steps|
    requires f in states[i].router.outbox && Known(states[i], f) && Known(states[n], f)
    requires states[i].handled[f] <= k < states[n].handled[f]
    ensures i <= j < n && steps[j] == RouterHandles(f) && f in states[j].handled && states[j].handled[f] == k
    decreases n
  {
    hide Next, Enabled, RouterValid, NetTraced, NetValid;
    var m := n - 1;
    LinksGrow(states, steps, i, m, f);
    RunsAreValid(states, steps, m);
    StepOnLink(states[m], steps[m], f);
    if k < states[m].handled[f] {
      j := WasHandled(states, steps, f, k, i, m);
    } else {
      j := m;
    }
  }

  /** The rendezvous point takes packet number `k` of a face in one step of the run, if it gets that far. */
  lemma {:induction false} WasTaken(states: seq<Net>, steps: seq<Step>, f: FaceId, k: nat, i: nat, n: nat)
    returns (j: nat)
    requires IsRun(states, steps) && i <= n <= |steps|
    requires f in states[i].router.outbox && Known(states[i], f) && Known(states[n], f)
    requires states[i].taken[f] <= k < states[n].taken[f]
    ensures i <= j < n && steps[j].RpHandles? && steps[j].face == f && f in states[j].taken && states[j].taken[f] == k
    decreases n
  {
    hide Next, Enabled, RouterValid, NetTraced, NetValid;
    var m := n - 1;
    LinksGrow(states, steps, i, m, f);
    RunsAreValid(states, steps, m);
    StepOnLink(states[m], steps[m], f);
    if k < states[m].taken[f] {
      j := WasTaken(states, steps, f, k, i, m);
    } else {
      j := m;
    }
  }

  // ---- Which subscriptions the router holds

  /** The router handles the subscription `q` in this step. */
  ghost predicate Subscribes(n: Net, s: Step, q: Pair) {
    s == RouterHandles(q.1) && Enabled(n, s) && Handled(n, s) == Packet.Sub(q.0)
  }

  /** The step ends the subscription, if there is one: a timer's completion, a clear, or its face's shutdown. */
  predicate EndsSub(s: Step, q: Pair) { s == SubEnds(q) || s.SubsCleared? || s == FaceShutdown(q.1) }

  /** The subscription was handled in step `h`, and nothing ended it before step `n`. */
  ghost predicate Stands(states: seq<Net>, steps: seq<Step>, n: nat, q: Pair, h: nat) {
    && h < n <= |steps| < |states|
    && Subscribes(states[h], steps[h], q) && forall k :: h < k < n ==> !EndsSub(steps[k], q)
  }

  lemma StepOnSubs(n: Net, s: Step, q: Pair)
    requires Enabled(n, s) && NetValid(n)
    ensures q in Next(n, s).router.subs <==> Subscribes(n, s, q) || (q in n.router.subs && !EndsSub(s, q))
  {
    hide OnPacket, CdUri.UriMeaning, HandlingEnds, RouterValid;
    if s.RouterHandles? {
      PacketAdds(n.router, s.face, Handled(n, s), s.face);
    } else if s.FaceShutdown? {
      ShutdownKeeps(n.router, s.face);
    }
  }

  /** In every run, the subscriptions the router holds are exactly those it handled and nothing ended since. */
  lemma {:induction false} SubsAreStanding(states: seq<Net>, steps: seq<Step>, n: nat, q: Pair)
    requires IsRun(states, steps) && n <= |steps|
    ensures q in states[n].router.subs <==> exists h :: Stands(states, steps, n, q, h)
    decreases n
  {
    hide Next, Enabled, NetValid, NetTraced, Subscribes, EndsSub;
    if 0 < n {
      var m := n - 1;
      RunsAreValid(states, steps, m);
      SubsAreStanding(states, steps, m, q);
      StepOnSubs(states[m], steps[m], q);
      if Subscribes(states[m], steps[m], q) { assert Stands(states, steps, n, q, m); }
      if h: nat :| Stands(states, steps, m, q, h) && !EndsSub(steps[m], q) { assert Stands(states, steps, n, q, h); }
      if h: nat :| Stands(states, steps, n, q, h) && h < m { assert Stands(states, steps, m, q, h); }
    }
  }

  // ---- Where a packet came from

  /** The step in which the router put packet number `k` on face `f`. */
  ghost predicate SentAt(states: seq<Net>, steps: seq<Step>, j: nat, f: FaceId, k: nat) {
    && j < |steps| && |states| == |steps| + 1
    && f in states[j].router.outbox && |states[j].router.outbox[f]| == k
    && f in states[j + 1].router.outbox && |states[j + 1].router.outbox[f]| == k + 1
  }

  /** Every packet a face was sent was put there in one step, when the router handled that packet. */
  lemma {:induction false} WasSent(states: seq<Net>, steps: seq<Step>, f: FaceId, k: nat, n: nat) returns (j: nat)
    requires IsRun(states, steps) && n <= |steps|
    requires f in states[n].router.outbox && k < |states[n].router.outbox[f]|
    ensures j < n && SentAt(states, steps, j, f, k)
    ensures steps[j].RouterHandles? && Enabled(states[j], steps[j])
    ensures Handled(states[j], steps[j]) == states[n].router.outbox[f][k]
    decreases n
  {
    hide Next, Enabled, RouterValid, NetTraced, NetValid;
    if n == 0 {
      assert false;
    }
    var m, s := n - 1, steps[n - 1];
    RunsAreValid(states, steps, m);
    NewFaceIsEmpty(states[m], s, f);
    StepOnLink(states[m], s, f);
    if k < |states[m].router.outbox[f]| {
      j := WasSent(states, steps, f, k, m);
    } else {
      j := m;
    }
  }

  /**
   * End to end. Whatever publication from the rendezvous point reaches a face was published with that
   * descriptor and content before (step `i`). When it was sent (`j`) the face was in the table with a matching
   * subscription, which a client had sent on that very face (`m`), which the router had handled (`h`), and
   * which nothing had ended since.
   */
  lemma EndToEnd(states: seq<Net>, steps: seq<Step>, f: FaceId, k: nat)
    returns (i: nat, m: nat, h: nat, j: nat, pattern: Cd)
    requires IsRun(states, steps)
    requires f in states[|steps|].router.outbox && k < |states[|steps|].router.outbox[f]|
    requires states[|steps|].router.outbox[f][k].PubFromRp?
    ensures var p := states[|steps|].router.outbox[f][k];
            && i < j < |steps| && IsPublication(steps[i], p.cd, p.content)
            && SentAt(states, steps, j, f, k)
            && m < h < j && steps[m] == Subscribe(f, pattern) && Stands(states, steps, j, (pattern, f), h)
            && f in states[j].router.faces && Matches(pattern, p.cd)
  {
    hide Next, Enabled, Matches, RouterValid, NetValid;
    j := WasSent(states, steps, f, k, |steps|);
    RunsAreValid(states, steps, j);
    i := WasPublished(states[j], steps[..j], steps[j]);
    pattern := WhySent(states[j], steps[j], f);
    SubsAreStanding(states, steps, j, (pattern, f));
    h :| Stands(states, steps, j, (pattern, f), h);
    m := WasSubscribed(states, steps, h, (pattern, f));
  }

  /** A subscription the router handles was sent by a client on that face before. */
  lemma WasSubscribed(states: seq<Net>, steps: seq<Step>, h: nat, q: Pair) returns (m: nat)
    requires IsRun(states, steps) && h < |steps| && Subscribes(states[h], steps[h], q)
    ensures m < h && steps[m] == Subscribe(q.1, q.0)
  {
    hide Next, NetValid, HandlingEnds;
    RunsAreValid(states, steps, h);
    var n := states[h];
    TracedAt(q.1, n.posted[q.1], n.handled[q.1], steps[..h]);
    m :| 0 <= m < h && steps[..h][m] == Subscribe(q.1, q.0);
  }

  lemma WasPublished(n: Net, steps: seq<Step>, s: Step) returns (i: nat)
    requires NetTraced(n, steps) && s.RouterHandles? && Enabled(n, s) && !Handled(n, s).Sub?
    ensures i < |steps| && IsPublication(steps[i], Handled(n, s).cd, Handled(n, s).content)
  {
    TracedAt(s.face, n.posted[s.face], n.handled[s.face], steps);
    i :| 0 <= i < |steps| && IsPublication(steps[i], Handled(n, s).cd, Handled(n, s).content);
  }

  /** A publication from the rendezvous point goes only to faces in the table with a matching subscription. */
  lemma WhySent(n: Net, s: Step, f: FaceId) returns (pattern: Cd)
    requires NetValid(n) && s.RouterHandles? && Enabled(n, s) && Handled(n, s).PubFromRp?
    requires f in n.router.outbox && f in Next(n, s).router.outbox
    requires |Next(n, s).router.outbox[f]| != |n.router.outbox[f]|
    ensures f in n.router.faces && (pattern, f) in n.router.subs && Matches(pattern, Handled(n, s).cd)
  {
    var p := Handled(n, s);
    hide Matches, HandlingEnds;
    OneCopyPerSubscriber(n.router, p.cd, p.content, f);
    var q :| q in n.router.subs && q.1 == f && Matches(q.0, p.cd);
    pattern := q.0;
  }

  // ---- Where a publication goes

  /** In this step the router handles the publication `p`, and the FIB sends it to the one face `rp`. */
  ghost predicate Forwards(n: Net, s: Step, rp: FaceId, p: Packet) {
    && s.RouterHandles? && Enabled(n, s) && Handled(n, s) == p && p.PubToRp?
    && Fib.Answer(n.router.costs, p.cd) == {rp}
  }

  /** What a face is sent for a publication from the rendezvous point: one copy, or nothing. */
  ghost function Copies(r: Router, f: FaceId, p: Packet): seq<Packet>
    requires p.PubToRp?
  {
    if exists q :: q in r.subs && q.1 == f && Matches(q.0, p.cd) then [PubFromRp(p.cd, p.content)] else []
  }

  /** Between these two states every face is sent what its subscriptions are owed, and nothing else. */
  ghost predicate Delivers(n: Net, m: Net, p: Packet)
    requires p.PubToRp?
  {
    forall f :: f in n.router.outbox ==>
      f in m.router.outbox && m.router.outbox[f] == n.router.outbox[f] + Copies(n.router, f, p)
  }

  /** What a face is owed for the publication in step `n`: a copy if a matching subscription of it stands then. */
  ghost function Owed(states: seq<Net>, steps: seq<Step>, n: nat, f: FaceId, p: Packet): seq<Packet>
    requires p.PubToRp?
  {
    if exists q, h :: Stands(states, steps, n, q, h) && q.1 == f && Matches(q.0, p.cd)
    then [PubFromRp(p.cd, p.content)] else []
  }

  lemma OwedIsCopies(states: seq<Net>, steps: seq<Step>, n: nat, f: FaceId, p: Packet)
    requires IsRun(states, steps) && n <= |steps| && p.PubToRp?
    ensures Owed(states, steps, n, f, p) == Copies(states[n].router, f, p)
  {
    hide Matches, Stands, Next, Enabled;
    forall q ensures q in states[n].router.subs <==> exists h :: Stands(states, steps, n, q, h) {
      SubsAreStanding(states, steps, n, q);
    }
  }

  /** Step `j` sends every face what it is owed for the publication, and nothing else. */
  ghost predicate DeliversOwed(states: seq<Net>, steps: seq<Step>, j: nat, p: Packet)
    requires p.PubToRp? && j + 1 < |states|
  {
    forall f :: f in states[j].router.outbox ==>
      && f in states[j + 1].router.outbox
      && states[j + 1].router.outbox[f] == states[j].router.outbox[f] + Owed(states, steps, j, f, p)
  }

  lemma DeliversIsOwed(states: seq<Net>, steps: seq<Step>, j: nat, p: Packet)
    requires IsRun(states, steps) && j < |steps| && p.PubToRp? && Delivers(states[j], states[j + 1], p)
    ensures DeliversOwed(states, steps, j, p)
  {
    hide IsRun, Owed, Copies;
    forall f { OwedIsCopies(states, steps, j, f, p); }
  }

  /** The forwarded publication is the next packet on the face. */
  lemma ForwardedToRp(n: Net, s: Step, rp: FaceId, p: Packet)
    requires NetValid(n) && Forwards(n, s, rp, p)
    ensures rp in n.router.outbox && rp in Next(n, s).router.outbox
    ensures Next(n, s).router.outbox[rp] == n.router.outbox[rp] + [p]
  {
    hide Fib.Answer, HandlingEnds;
    BestIsAnswer(n.router.costs, p.cd, rp);
    SendToKeeps(n.router, {rp}, p);
  }

  /** A subscription travels too: the step that handles it sends it on to the face the FIB answers. */
  lemma SubIsForwarded(n: Net, s: Step, q: Pair, rp: FaceId)
    requires NetValid(n) && Subscribes(n, s, q) && Fib.Answer(n.router.costs, q.0) == {rp}
    ensures rp in n.router.outbox && rp in Next(n, s).router.outbox
    ensures Next(n, s).router.outbox[rp] == n.router.outbox[rp] + [Packet.Sub(q.0)]
    ensures q in Next(n, s).router.subs
  {
    hide Fib.Answer, HandlingEnds, Matches, Fib.IsBest, OnPacket;
    BestIsAnswer(n.router.costs, q.0, rp);
    PacketHandled(n.router, q.1, Packet.Sub(q.0), rp);
    PacketAdds(n.router, q.1, Packet.Sub(q.0), rp);
  }

  /** The rendezvous point's answer is the next packet it posts. */
  lemma EchoedByRp(n: Net, rp: FaceId, p: Packet)
    requires Enabled(n, RpHandles(rp, true)) && p.PubToRp? && n.router.outbox[rp][n.taken[rp]] == p
    ensures rp in Next(n, RpHandles(rp, true)).posted
    ensures Next(n, RpHandles(rp, true)).posted[rp] == n.posted[rp] + [PubFromRp(p.cd, p.content)]
  {
  }

  lemma HandledEcho(n: Net, rp: FaceId, p: Packet)
    requires NetValid(n) && Enabled(n, RouterHandles(rp))
    requires p.PubToRp? && Handled(n, RouterHandles(rp)) == PubFromRp(p.cd, p.content)
    ensures Delivers(n, Next(n, RouterHandles(rp)), p)
  {
    hide Matches, HandlingEnds;
    forall f | f in n.router.outbox
      ensures f in Next(n, RouterHandles(rp)).router.outbox
      ensures Next(n, RouterHandles(rp)).router.outbox[f] == n.router.outbox[f] + Copies(n.router, f, p)
    {
      OneCopyPerSubscriber(n.router, p.cd, p.content, f);
    }
  }

  /**
   * Delivery, whatever else goes on. In any run, take the step in which the router forwards a publication,
   * the step in which the rendezvous point takes that packet off its link, and the step in which the router
   * takes the answer off: they come in this order, and the last sends the publication exactly once to
   * every face for which a matching subscription was handled and not ended by then, and nothing to others.
   */
  lemma DeliveredInAnyRun(states: seq<Net>, steps: seq<Step>, j1: nat, j2: nat, j3: nat, rp: FaceId, p: Packet)
    requires IsRun(states, steps) && j1 < |steps| && j2 < |steps| && j3 < |steps|
    requires Forwards(states[j1], steps[j1], rp, p) && rp in states[j1].router.outbox
    requires steps[j2] == RpHandles(rp, true) && Known(states[j2], rp)
    requires states[j2].taken[rp] == |states[j1].router.outbox[rp]|
    requires steps[j3] == RouterHandles(rp) && Known(states[j3], rp)
    requires states[j3].handled[rp] == |states[j2].posted[rp]|
    ensures j1 < j2 < j3 && DeliversOwed(states, steps, j3, p)
  {
    hide NetTraced, RouterValid, HandlingEnds, Fib.Answer, Next, NetValid, Delivers, DeliversOwed;
    RunsAreValid(states, steps, j1);
    ForwardedToRp(states[j1], steps[j1], rp, p);
    assert Enabled(states[j2], steps[j2]) && Enabled(states[j3], steps[j3]);
    if j2 <= j1 { LinksGrow(states, steps, j2, j1, rp); }
    LinksGrow(states, steps, j1 + 1, j2, rp);
    EchoedByRp(states[j2], rp, p);
    if j3 <= j2 { LinksGrow(states, steps, j3, j2, rp); }
    LinksGrow(states, steps, j1 + 1, j2 + 1, rp);
    LinksGrow(states, steps, j2 + 1, j3, rp);
    RunsAreValid(states, steps, j3);
    HandledEcho(states[j3], rp, p);
    DeliversIsOwed(states, steps, j3, p);
  }

  /** Nothing is under way on the link between the router and this peer. */
  ghost predicate Drained(n: Net, f: FaceId) {
    Known(n, f) && n.taken[f] == |n.router.outbox[f]| && n.handled[f] == |n.posted[f]|
  }

  /**
   * No publication is lost on the way. In any run that ends with the rendezvous point's link drained, and in
   * which the rendezvous point always had its end of it, every publication the router forwarded to that
   * link was delivered in a later step.
   */
  lemma DeliveredWhenDrained(states: seq<Net>, steps: seq<Step>, j1: nat, rp: FaceId, p: Packet)
    returns (j2: nat, j3: nat)
    requires IsRun(states, steps) && j1 < |steps|
    requires Forwards(states[j1], steps[j1], rp, p)
    requires RpHandles(rp, false) !in steps && Drained(states[|steps|], rp)
    ensures j1 < j2 < j3 < |steps| && steps[j2] == RpHandles(rp, true) && steps[j3] == RouterHandles(rp)
    ensures DeliversOwed(states, steps, j3, p)
  {
    hide NetTraced, RouterValid, HandlingEnds, Fib.Answer, Next, NetValid, DeliversOwed, Enabled;
    var end := |steps|;
    RunsAreValid(states, steps, j1);
    ForwardedToRp(states[j1], steps[j1], rp, p);
    LinkBounds(states[j1], rp);
    LinksGrow(states, steps, j1, end, rp);
    LinksGrow(states, steps, j1 + 1, end, rp);
    j2 := WasTaken(states, steps, rp, |states[j1].router.outbox[rp]|, j1, end);
    assert steps[j2] in steps;
    LinksGrow(states, steps, j1, j2, rp);
    RunsAreValid(states, steps, j2);
    LinkBounds(states[j2], rp);
    EchoIsPosted(states, steps, j1, j2, rp, p);
    LinksGrow(states, steps, j2 + 1, end, rp);
    j3 := WasHandled(states, steps, rp, |states[j2].posted[rp]|, j2, end);
    LinksGrow(states, steps, j2, j3, rp);
    DeliveredInAnyRun(states, steps, j1, j2, j3, rp, p);
  }

  lemma LinkBounds(n: Net, f: FaceId)
    requires NetValid(n) && f in n.router.outbox
    ensures Known(n, f) && n.handled[f] <= |n.posted[f]| && n.taken[f] <= |n.router.outbox[f]|
  {
    hide RouterValid;
  }

  lemma EchoIsPosted(states: seq<Net>, steps: seq<Step>, j1: nat, j2: nat, rp: FaceId, p: Packet)
    requires IsRun(states, steps) && j1 <= j2 < |steps|
    requires Forwards(states[j1], steps[j1], rp, p) && rp in states[j1].router.outbox
    requires steps[j2] == RpHandles(rp, true) && Known(states[j2], rp)
    requires states[j2].taken[rp] == |states[j1].router.outbox[rp]|
    ensures rp in states[j2 + 1].router.outbox && rp in states[j2 + 1].posted
    ensures states[j2 + 1].posted[rp] == states[j2].posted[rp] + [PubFromRp(p.cd, p.content)]
  {
    hide NetTraced, RouterValid, HandlingEnds, Fib.Answer, Next, NetValid;
    RunsAreValid(states, steps, j1);
    ForwardedToRp(states[j1], steps[j1], rp, p);
    assert Enabled(states[j2], steps[j2]);
    LinksGrow(states, steps, j1, j2, rp);
    LinksGrow(states, steps, j1 + 1, j2, rp);
    LinksGrow(states, steps, j1, j2 + 1, rp);
    EchoedByRp(states[j2], rp, p);
  }
}
