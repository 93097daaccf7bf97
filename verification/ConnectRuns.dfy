/**
 * One attempt of the router's command server to connect to a TCP endpoint, from the calls that start the
 * connect and its timer until both completions have been handled. A cancelled wait and the connect of a
 * closed socket complete as aborted, unless their completion is queued already: that one runs unchanged.
 */
module ConnectRuns {

  /** How the connect completes; `SelfConnected` means that both endpoints are the same. */
  datatype ConnectResult = Connected | SelfConnected | ConnectFailed | ConnectAborted

  datatype ConnectOp = NoConnect | ConnectPending | ConnectQueued(result: ConnectResult)
  datatype TimerOp = NoTimer | TimerPending | TimerQueued(aborted: bool)

  /**
   * Whether `m_connection` holds a socket, what asio holds of the two operations, the replies sent to the
   * controller, OK or not, and whether the router has ended: by an exception that leaves the event loop, or
   * by using the empty `m_connection`.
   */
  datatype Attempt = Attempt(socket: bool, connect: ConnectOp, timer: TimerOp, replies: seq<bool>, ended: bool)

  const IDLE := Attempt(false, NoConnect, NoTimer, [], false)
  const BEGUN := Attempt(true, ConnectPending, TimerPending, [], false)

  datatype Event =
    | ConnectCompletes(result: ConnectResult)   // asio queues the connect's completion
    | TimerFires                                // asio queues the timer's completion
    | HandleConnect                             // the queued completion runs handleConnect
    | HandleTimeout                             // the queued completion runs handleConnectTimeout

  ghost predicate Enabled(a: Attempt, e: Event) {
    && !a.ended
    && match e
       case ConnectCompletes(r) => a.connect.ConnectPending? && !r.ConnectAborted?
       case TimerFires => a.timer.TimerPending?
       case HandleConnect => a.connect.ConnectQueued?
       case HandleTimeout => a.timer.TimerQueued?
  }

  /** `handleConnect`; `nameOk` says whether the command's name is a descriptor. */
  function AfterConnect(a: Attempt, r: ConnectResult, nameOk: bool): Attempt {
    var b := a.(connect := NoConnect, timer := if a.timer.TimerPending? then TimerQueued(true) else a.timer);
    if r.ConnectAborted? then b.(replies := b.replies + [false])
    else if !a.socket then b.(ended := true)
    else if !r.Connected? then b.(socket := false, replies := b.replies + [false])
    else if !nameOk then b.(socket := false, ended := true)
    else b.(socket := false, replies := b.replies + [true])
  }

  /** `handleConnectTimeout`. */
  function AfterTimeout(a: Attempt, aborted: bool): Attempt {
    var b := a.(timer := NoTimer);
    if aborted then b
    else if !a.socket then b.(ended := true)
    else
      b.(socket := false,
         connect := if a.connect.ConnectPending? then ConnectQueued(ConnectAborted) else a.connect)
  }

  function Step(a: Attempt, e: Event, nameOk: bool): Attempt {
    match e
    case ConnectCompletes(r) => a.(connect := ConnectQueued(r))
    case TimerFires => a.(timer := TimerQueued(false))
    case HandleConnect => if a.connect.ConnectQueued? then AfterConnect(a, a.connect.result, nameOk) else a
    case HandleTimeout => if a.timer.TimerQueued? then AfterTimeout(a, a.timer.aborted) else a
  }

  function Run(h: seq<Event>, nameOk: bool): Attempt {
    if h == [] then BEGUN else Step(Run(h[..|h| - 1], nameOk), h[|h| - 1], nameOk)
  }

  ghost predicate Legal(h: seq<Event>, nameOk: bool) {
    forall k :: 0 <= k < |h| ==> Enabled(Run(h[..k], nameOk), h[k])
  }

  /** The router has ended, or both completions were handled. */
  ghost predicate Over(a: Attempt) { a.ended || (a.connect.NoConnect? && a.timer.NoTimer?) }

  // ---- When the router ends

  /** Both completions are queued, and neither was aborted. */
  ghost predicate BothQueued(a: Attempt) {
    a.connect.ConnectQueued? && !a.connect.result.ConnectAborted? && a.timer == TimerQueued(false)
  }

  ghost predicate QueuedTogether(h: seq<Event>, nameOk: bool) {
    exists k :: 0 <= k <= |h| && BothQueued(Run(h[..k], nameOk))
  }

  ghost predicate Succeeds(h: seq<Event>) { ConnectCompletes(Connected) in h }

  /**
   * What is left of an attempt, by which handler has run: `together` and `succeeds` say whether both
   * completions were ever queued at once and whether the connect completed with a connection.
   */
  ghost predicate Inv(a: Attempt, together: bool, succeeds: bool, nameOk: bool) {
    if a.ended then together || (succeeds && !nameOk)
    else if a.socket then
      && (a.connect.ConnectPending? || (a.connect.ConnectQueued? && !a.connect.result.ConnectAborted?))
      && a.timer in {TimerPending, TimerQueued(false)}
      && together == BothQueued(a) && succeeds == (a.connect == ConnectQueued(Connected)) && a.replies == []
    else if a.connect.NoConnect? && a.replies != [] then
      && !a.timer.TimerPending? && together == (a.timer == TimerQueued(false))
      && (succeeds ==> nameOk) && a.replies == [succeeds]
    else
      && a.timer.NoTimer? && a.connect.ConnectQueued? && a.replies == []
      && (if a.connect.result.ConnectAborted? then !together && !succeeds
          else together && succeeds == a.connect.result.Connected?)
  }

  lemma StepKeepsInv(a: Attempt, e: Event, together: bool, succeeds: bool, nameOk: bool)
    requires Inv(a, together, succeeds, nameOk) && Enabled(a, e)
    ensures var b := Step(a, e, nameOk);
            Inv(b, together || BothQueued(b), succeeds || e == ConnectCompletes(Connected), nameOk)
  {
  }

  lemma {:induction false} RunsKeepInv(h: seq<Event>, nameOk: bool)
    requires Legal(h, nameOk)
    ensures Inv(Run(h, nameOk), QueuedTogether(h, nameOk), Succeeds(h), nameOk)
  {
    hide Inv, Enabled;
    if h == [] {
      Beginning(nameOk);
    } else {
      var n := |h| - 1;
      var g := h[..n];
      assert h == g + [h[n]];
      LegalPrefix(h, n, nameOk);
      RunsKeepInv(g, nameOk);
      StepKeepsInv(Run(g, nameOk), h[n], QueuedTogether(g, nameOk), Succeeds(g), nameOk);
      TogetherSnoc(g, h[n], nameOk);
    }
  }

  lemma Beginning(nameOk: bool)
    ensures Inv(Run([], nameOk), QueuedTogether([], nameOk), Succeeds([]), nameOk)
  {
    var h: seq<Event> := [];
    assert forall k :: 0 <= k <= |h| ==> h[..k] == h;
  }

  lemma LegalPrefix(h: seq<Event>, n: nat, nameOk: bool)
    requires Legal(h, nameOk) && n < |h|
    ensures Legal(h[..n], nameOk) && Enabled(Run(h[..n], nameOk), h[n])
  {
    forall k | 0 <= k < n ensures Enabled(Run(h[..n][..k], nameOk), h[..n][k]) {
      assert h[..n][..k] == h[..k];
    }
  }

  lemma TogetherSnoc(h: seq<Event>, e: Event, nameOk: bool)
    ensures QueuedTogether(h + [e], nameOk) <==> QueuedTogether(h, nameOk) || BothQueued(Run(h + [e], nameOk))
  {
    hide Run, BothQueued;
    var g := h + [e];
    assert g[..|g|] == g;
    forall k | 0 <= k <= |h| ensures g[..k] == h[..k] {}
    if QueuedTogether(g, nameOk) {
      var k :| 0 <= k <= |g| && BothQueued(Run(g[..k], nameOk));
      assert k <= |h| ==> g[..k] == h[..k];
    }
    if QueuedTogether(h, nameOk) {
      var k :| 0 <= k <= |h| && BothQueued(Run(h[..k], nameOk));
      assert g[..k] == h[..k];
    }
  }

  /**
   * However the events of an attempt come, once it is over: the router has ended exactly if both completions
   * were queued at once, or the connection succeeded and the name is no descriptor. Otherwise the controller
   * got exactly one reply, which is OK exactly if the connection succeeded.
   */
  lemma AttemptEndsIff(h: seq<Event>, nameOk: bool)
    requires Legal(h, nameOk) && Over(Run(h, nameOk))
    ensures Run(h, nameOk).ended <==> QueuedTogether(h, nameOk) || (Succeeds(h) && !nameOk)
    ensures !Run(h, nameOk).ended ==> Run(h, nameOk).replies == [Succeeds(h)]
  {
    hide Run, QueuedTogether, Succeeds, Legal;
    RunsKeepInv(h, nameOk);
  }

  // ---- Every attempt comes to an end

  /** Events still to come, at most. */
  function Left(a: Attempt): nat {
    (if a.connect.ConnectPending? then 2 else if a.connect.ConnectQueued? then 1 else 0)
    + (if a.timer.TimerPending? then 2 else if a.timer.TimerQueued? then 1 else 0)
  }

  /** Until it is over an attempt can always go on, and it is over after four events at most. */
  lemma {:induction false} AttemptsEnd(h: seq<Event>, nameOk: bool)
    requires Legal(h, nameOk)
    ensures !Over(Run(h, nameOk)) ==> exists e :: Enabled(Run(h, nameOk), e)
    ensures |h| + Left(Run(h, nameOk)) <= 4
  {
    hide Enabled, Legal;
    if h != [] {
      var n := |h| - 1;
      LegalPrefix(h, n, nameOk);
      AttemptsEnd(h[..n], nameOk);
      StepsAreLeft(Run(h[..n], nameOk), h[n], nameOk);
    }
    SomethingEnabled(Run(h, nameOk));
  }

  lemma StepsAreLeft(a: Attempt, e: Event, nameOk: bool)
    requires Enabled(a, e)
    ensures Left(Step(a, e, nameOk)) < Left(a)
  {
  }

  lemma SomethingEnabled(a: Attempt)
    ensures !Over(a) ==> exists e :: Enabled(a, e)
  {
    if !Over(a) {
      var e := match a.connect
        case ConnectPending => ConnectCompletes(Connected)
        case ConnectQueued(_) => HandleConnect
        case NoConnect => if a.timer.TimerPending? then TimerFires else HandleTimeout;
      assert Enabled(a, e);
    }
  }

  // ---- The two ways to end, and one that does not

  /** Both completions queued at once, for any connect result and any name, in either order of handling. */
  lemma TogetherExample(r: ConnectResult, nameOk: bool)
    requires !r.ConnectAborted? && (r.Connected? ==> nameOk)
    ensures var h := [ConnectCompletes(r), TimerFires, HandleConnect, HandleTimeout];
            Legal(h, nameOk) && Run(h, nameOk).ended
    ensures var h := [TimerFires, ConnectCompletes(r), HandleTimeout, HandleConnect];
            Legal(h, nameOk) && Run(h, nameOk).ended
  {
    FourSteps(ConnectCompletes(r), TimerFires, HandleConnect, HandleTimeout, nameOk);
    FourSteps(TimerFires, ConnectCompletes(r), HandleTimeout, HandleConnect, nameOk);
  }

  lemma FourSteps(a: Event, b: Event, c: Event, d: Event, nameOk: bool)
    requires var s1 := Step(BEGUN, a, nameOk);
             var s2 := Step(s1, b, nameOk);
             Enabled(BEGUN, a) && Enabled(s1, b) && Enabled(s2, c) && Enabled(Step(s2, c, nameOk), d)
    ensures Legal([a, b, c, d], nameOk)
    ensures Run([a, b, c, d], nameOk) == Step(Step(Step(Step(BEGUN, a, nameOk), b, nameOk), c, nameOk), d, nameOk)
  {
    hide Step, Enabled, Run, Legal;
    Started(nameOk);
    RunSnoc([], a, nameOk);
    RunSnoc([] + [a], b, nameOk);
    RunSnoc([] + [a] + [b], c, nameOk);
    RunSnoc([] + [a] + [b] + [c], d, nameOk);
    assert [] + [a] + [b] + [c] + [d] == [a, b, c, d];
  }

  lemma Started(nameOk: bool)
    ensures Run([], nameOk) == BEGUN && Legal([], nameOk)
  {
  }

  lemma RunSnoc(h: seq<Event>, e: Event, nameOk: bool)
    ensures Run(h + [e], nameOk) == Step(Run(h, nameOk), e, nameOk)
    ensures Legal(h, nameOk) && Enabled(Run(h, nameOk), e) ==> Legal(h + [e], nameOk)
  {
    var g := h + [e];
    assert g[..|h|] == h;
    if Legal(h, nameOk) && Enabled(Run(h, nameOk), e) {
      hide Run, Enabled;
      forall k | 0 <= k < |g| ensures Enabled(Run(g[..k], nameOk), g[k]) {
        if k < |h| { assert g[..k] == h[..k]; }
      }
    }
  }

  /** A connection that succeeds well before the timer: only a bad name ends the router. */
  lemma SuccessExample(nameOk: bool)
    ensures var h := [ConnectCompletes(Connected), HandleConnect];
            Legal(h, nameOk) && Run(h, nameOk).ended == !nameOk
  {
    hide Run, Legal;
    Started(nameOk);
    RunSnoc([], ConnectCompletes(Connected), nameOk);
    RunSnoc([] + [ConnectCompletes(Connected)], HandleConnect, nameOk);
    assert [] + [ConnectCompletes(Connected)] + [HandleConnect] == [ConnectCompletes(Connected), HandleConnect];
  }
}
