/**
 The life of a server's connections: any number of Serve calls, handlers and Close calls, interleaved
 step by step around one mutex, a wait group and an atomic counter.
 */
module Lifecycle {
  type Conn = nat
  type Tid = nat

  /** How far a connection has come; Serve takes it to Tracked or Refused, its handler from there. */
  datatype Stage =
    | Accepted
    | TrackLocked       // track holds the mutex
    | TrackOpen         // and has seen that the server is not closed
    | InMap             // conns[c] is set
    | WgAdded           // wg.Add(1) is done
    | CurrentAdded      // current.Add(1) is done
    | Tracked           // track has returned true
    | TrackClosed       // track holds the mutex and has seen that the server is closed
    | Refused           // track has returned false
    | RefusedShut       // and Serve has closed the connection
    | Handling
    | HandlerShut       // the handler has closed the connection
    | UntrackLocked     // untrack holds the mutex
    | Deleted           // and has deleted the connection from conns
    | Unlocked          // the mutex is released
    | CurrentDown       // current.Add(-1) is done
    | WgDown            // wg.Done() is done

  datatype ServePc = Starting | StartLocked | Accepting | Tracking(c: Conn) | Checking | CheckLocked | ServeReturned

  datatype ClosePc = Called | CloseLocked | Dropping(left: set<Conn>) | Waiting | CloseReturned

  datatype Owner = Free | ByServe(t: Tid) | ByConn(c: Conn) | ByClose(t: Tid)

  datatype State = State(
    mu: Owner,
    closed: bool,
    conns: set<Conn>,
    wg: int,
    current: int,
    shut: set<Conn>,            // connections whose socket has been closed by either side of the server
    life: map<Conn, Stage>,     // every connection ever accepted
    tracker: map<Conn, Tid>,    // the Serve call that accepted it
    serves: map<Tid, ServePc>,
    closes: map<Tid, ClosePc>)

  /** One atomic step. */
  datatype Step =
    | CallServe(t: Tid)
    | CallClose(t: Tid)
    | Accept(t: Tid, c: Conn)
    | AcceptFails(t: Tid)
    | ListenerGone(t: Tid)
    | ServeMoves(t: Tid)
    | HandlerMoves(c: Conn)
    | CloseMoves(t: Tid)
    | CloseShuts(t: Tid, c: Conn)

  function Start(): State {
    State(Free, false, {}, 0, 0, {}, map[], map[], map[], map[])
  }

  // ---- which stages hold what ----

  predicate HoldsMutex(p: Stage) {
    || p.TrackLocked? || p.TrackOpen? || p.InMap? || p.WgAdded?
    || p.CurrentAdded? || p.TrackClosed? || p.UntrackLocked? || p.Deleted?
  }

  predicate IsInMap(p: Stage) {
    p.InMap? || p.WgAdded? || p.CurrentAdded? || p.Tracked? || p.Handling? || p.HandlerShut? || p.UntrackLocked?
  }

  predicate HoldsCurrent(p: Stage) {
    p.CurrentAdded? || p.Tracked? || p.Handling? || p.HandlerShut? || p.UntrackLocked? || p.Deleted? || p.Unlocked?
  }

  predicate HoldsWg(p: Stage) {
    HoldsCurrent(p) || (p.WgAdded? || p.CurrentDown?)
  }

  /** Being added: the mutex is held and the server was seen open. */
  predicate Entering(p: Stage) {
    p.TrackOpen? || p.InMap? || p.WgAdded? || p.CurrentAdded?
  }

  /** Still in the hands of the Serve call that accepted it. */
  predicate WithServe(p: Stage) {
    || p.Accepted? || p.TrackLocked? || p.TrackOpen? || p.InMap?
    || p.WgAdded? || p.CurrentAdded? || p.Tracked? || p.TrackClosed? || p.Refused?
  }

  predicate SocketClosed(p: Stage) {
    p.RefusedShut? || p.HandlerShut? || p.UntrackLocked? || p.Deleted? || p.Unlocked? || p.CurrentDown? || p.WgDown?
  }

  predicate ServeHolds(p: ServePc) {
    p.StartLocked? || p.CheckLocked?
  }

  predicate CloseHolds(p: ClosePc) {
    p.CloseLocked? || p.Dropping?
  }

  // ---- the steps ----

  predicate ServeEnabled(s: State, p: ServePc) {
    match p
    case Starting => s.mu.Free?
    case Checking => s.mu.Free?
    case StartLocked => true
    case CheckLocked => true
    case Tracking(c) => c in s.life && WithServe(s.life[c]) && (s.life[c].Accepted? ==> s.mu.Free?)
    case _ => false
  }

  predicate HandlerEnabled(s: State, p: Stage) {
    && (p.Handling? || p.HandlerShut? || p.UntrackLocked? || p.Deleted? || p.Unlocked? || p.CurrentDown?)
    && (p.HandlerShut? ==> s.mu.Free?)
  }

  predicate CloseEnabled(s: State, p: ClosePc) {
    match p
    case Called => s.mu.Free?
    case CloseLocked => true
    case Dropping(left) => left == {}
    case Waiting => s.wg == 0
    case CloseReturned => false
  }

  predicate Enabled(s: State, step: Step) {
    match step
    case CallServe(t) => t !in s.serves
    case CallClose(t) => t !in s.closes
    case Accept(t, c) => t in s.serves && s.serves[t].Accepting? && c !in s.life
    case AcceptFails(t) => t in s.serves && s.serves[t].Accepting?
    case ListenerGone(t) => t in s.serves && s.serves[t].Accepting?
    case ServeMoves(t) => t in s.serves && ServeEnabled(s, s.serves[t])
    case HandlerMoves(c) => c in s.life && HandlerEnabled(s, s.life[c])
    case CloseMoves(t) => t in s.closes && CloseEnabled(s, s.closes[t])
    case CloseShuts(t, c) => t in s.closes && s.closes[t].Dropping? && c in s.closes[t].left
  }

  /** track, then the start of the handler or the refusal. */
  function TrackedTo(p: Stage, closed: bool): Stage {
    match p
    case Accepted => TrackLocked
    case TrackLocked => if closed then TrackClosed else TrackOpen
    case TrackOpen => InMap
    case InMap => WgAdded
    case WgAdded => CurrentAdded
    case CurrentAdded => Tracked
    case Tracked => Handling
    case TrackClosed => Refused
    case _ => RefusedShut
  }

  /** The handler's deferred calls: conn.Close, then untrack, which is not one step. */
  function HandledTo(p: Stage): Stage {
    match p
    case Handling => HandlerShut
    case HandlerShut => UntrackLocked
    case UntrackLocked => Deleted
    case Deleted => Unlocked
    case Unlocked => CurrentDown
    case _ => WgDown
  }

  function TrackStep(s: State, t: Tid, c: Conn): State
    requires c in s.life
  {
    var p := s.life[c];
    s.(life := s.life[c := TrackedTo(p, s.closed)],
       mu := if p.Accepted? then ByConn(c) else if p.CurrentAdded? || p.TrackClosed? then Free else s.mu,
       conns := if p.TrackOpen? then s.conns + {c} else s.conns,
       wg := if p.InMap? then s.wg + 1 else s.wg,
       current := if p.WgAdded? then s.current + 1 else s.current,
       shut := if p.Refused? then s.shut + {c} else s.shut,
       serves := if p.Tracked? then s.serves[t := Accepting] else if p.Refused? then s.serves[t := ServeReturned]
                 else s.serves)
  }

  function HandlerStep(s: State, c: Conn): State
    requires c in s.life
  {
    var p := s.life[c];
    s.(life := s.life[c := HandledTo(p)],
       shut := if p.Handling? then s.shut + {c} else s.shut,
       mu := if p.HandlerShut? then ByConn(c) else if p.Deleted? then Free else s.mu,
       conns := if p.UntrackLocked? then s.conns - {c} else s.conns,
       current := if p.Unlocked? then s.current - 1 else s.current,
       wg := if p.CurrentDown? then s.wg - 1 else s.wg)
  }

  /** The steps of Serve outside track: take the mutex, look at closed, release it. */
  function ServeStep(s: State, t: Tid): State
    requires t in s.serves
  {
    var p := s.serves[t];
    if p.Starting? || p.Checking? then
      s.(mu := ByServe(t), serves := s.serves[t := if p.Starting? then StartLocked else CheckLocked])
    else s.(mu := Free, serves := s.serves[t := if s.closed then ServeReturned else Accepting])
  }

  function CloseStep(s: State, t: Tid): State
    requires t in s.closes
  {
    match s.closes[t]
    case Called => s.(mu := ByClose(t), closes := s.closes[t := CloseLocked])
    case CloseLocked => s.(closed := true, closes := s.closes[t := Dropping(s.conns)])
    case Dropping(_) => s.(mu := Free, closes := s.closes[t := Waiting])
    case _ => s.(closes := s.closes[t := CloseReturned])
  }

  function Do(s: State, step: Step): State
    requires Enabled(s, step)
  {
    match step
    case CallServe(t) => s.(serves := s.serves[t := Starting])
    case CallClose(t) => s.(closes := s.closes[t := Called])
    case Accept(t, c) =>
      s.(life := s.life[c := Accepted], tracker := s.tracker[c := t], serves := s.serves[t := Tracking(c)])
    case AcceptFails(t) => s.(serves := s.serves[t := Checking])
    case ListenerGone(t) => s.(serves := s.serves[t := ServeReturned])
    case ServeMoves(t) => if s.serves[t].Tracking? then TrackStep(s, t, s.serves[t].c) else ServeStep(s, t)
    case HandlerMoves(c) => HandlerStep(s, c)
    case CloseMoves(t) => CloseStep(s, t)
    case CloseShuts(t, c) =>
      s.(shut := s.shut + {c}, closes := s.closes[t := Dropping(s.closes[t].left - {c})])
  }

  // ---- the invariant, field by field ----

  function InMapSet(life: map<Conn, Stage>): set<Conn> {
    set c | c in life && IsInMap(life[c])
  }

  function WgSet(life: map<Conn, Stage>): set<Conn> {
    set c | c in life && HoldsWg(life[c])
  }

  function CurrentSet(life: map<Conn, Stage>): set<Conn> {
    set c | c in life && HoldsCurrent(life[c])
  }

  predicate ConnMutex(life: map<Conn, Stage>, mu: Owner) {
    && (forall c | c in life :: HoldsMutex(life[c]) <==> mu == ByConn(c))
    && (mu.ByConn? ==> mu.c in life)
  }

  predicate ServeMutex(serves: map<Tid, ServePc>, mu: Owner) {
    && (forall t | t in serves :: ServeHolds(serves[t]) <==> mu == ByServe(t))
    && (mu.ByServe? ==> mu.t in serves)
  }

  predicate CloseMutex(closes: map<Tid, ClosePc>, mu: Owner) {
    && (forall t | t in closes :: CloseHolds(closes[t]) <==> mu == ByClose(t))
    && (mu.ByClose? ==> mu.t in closes)
  }

  /** The three counts are the numbers of connections between the steps that raise and lower them. */
  predicate Counts(life: map<Conn, Stage>, conns: set<Conn>, wg: int, current: int) {
    conns == InMapSet(life) && wg == |WgSet(life)| && current == |CurrentSet(life)|
  }

  predicate NoEntry(life: map<Conn, Stage>, closed: bool) {
    closed ==> forall c | c in life :: !Entering(life[c])
  }

  predicate Sockets(life: map<Conn, Stage>, shut: set<Conn>) {
    forall c | c in life :: SocketClosed(life[c]) ==> c in shut
  }

  /** A connection not yet handed on is in the hands of exactly the Serve call that accepted it. */
  predicate Custody(life: map<Conn, Stage>, tracker: map<Conn, Tid>, serves: map<Tid, ServePc>) {
    && (forall c | c in life && WithServe(life[c]) ::
          c in tracker && tracker[c] in serves && serves[tracker[c]] == Tracking(c))
    && (forall t | t in serves && serves[t].Tracking? ::
          var c := serves[t].c; c in life && WithServe(life[c]) && c in tracker && tracker[c] == t)
  }

  /** What a Close call has achieved by each point. */
  predicate Achieved(p: ClosePc, closed: bool, conns: set<Conn>, shut: set<Conn>, wg: int) {
    match p
    case Dropping(left) => closed && left <= conns && conns - left <= shut
    case Waiting => closed && conns <= shut
    case CloseReturned => closed && conns <= shut && wg == 0
    case _ => true
  }

  predicate Closing(closes: map<Tid, ClosePc>, closed: bool, conns: set<Conn>, shut: set<Conn>, wg: int) {
    forall t | t in closes :: Achieved(closes[t], closed, conns, shut, wg)
  }

  predicate Inv(s: State) {
    && ConnMutex(s.life, s.mu) && ServeMutex(s.serves, s.mu) && CloseMutex(s.closes, s.mu)
    && Counts(s.life, s.conns, s.wg, s.current)
    && NoEntry(s.life, s.closed) && Sockets(s.life, s.shut) && Custody(s.life, s.tracker, s.serves)
    && Closing(s.closes, s.closed, s.conns, s.shut, s.wg)
  }

  lemma StartIsGood()
    ensures Inv(Start())
  {
  }

  /** What a move of one connection does to the three sets. */
  lemma LifeMoves(life: map<Conn, Stage>, c: Conn, p: Stage)
    ensures InMapSet(life[c := p]) == if IsInMap(p) then InMapSet(life) + {c} else InMapSet(life) - {c}
    ensures WgSet(life[c := p]) == if HoldsWg(p) then WgSet(life) + {c} else WgSet(life) - {c}
    ensures CurrentSet(life[c := p]) == if HoldsCurrent(p) then CurrentSet(life) + {c} else CurrentSet(life) - {c}
    ensures c in life ==>
              && (c in InMapSet(life) <==> IsInMap(life[c])) && (c in WgSet(life) <==> HoldsWg(life[c]))
              && (c in CurrentSet(life) <==> HoldsCurrent(life[c]))
  {
  }

  lemma CountsMove(life: map<Conn, Stage>, conns: set<Conn>, wg: int, current: int, c: Conn, p: Stage)
    requires Counts(life, conns, wg, current) && c in life
    ensures var o := life[c];
            Counts(life[c := p],
                   if IsInMap(p) then conns + {c} else conns - {c},
                   wg + (if HoldsWg(p) then 1 else 0) - (if HoldsWg(o) then 1 else 0),
                   current + (if HoldsCurrent(p) then 1 else 0) - (if HoldsCurrent(o) then 1 else 0))
    ensures HoldsWg(life[c]) ==> wg > 0
    ensures c in conns <==> IsInMap(life[c])
  {
    LifeMoves(life, c, p);
    Sizes(WgSet(life), c);
    Sizes(CurrentSet(life), c);
  }

  lemma Sizes(x: set<Conn>, c: Conn)
    ensures |x + {c}| == |x| + (if c in x then 0 else 1)
    ensures |x - {c}| == |x| - (if c in x then 1 else 0)
    ensures c in x ==> |x| > 0
  {
    if c in x {
      assert x + {c} == x;
    } else {
      assert x - {c} == x;
    }
  }

  lemma TrackKeepsCounts(s: State, t: Tid, c: Conn)
    requires Inv(s) && c in s.life && WithServe(s.life[c])
    ensures var n := TrackStep(s, t, c); Counts(n.life, n.conns, n.wg, n.current)
  {
    CountsMove(s.life, s.conns, s.wg, s.current, c, TrackedTo(s.life[c], s.closed));
    assert c in s.conns ==> s.conns + {c} == s.conns;
    assert c !in s.conns ==> s.conns - {c} == s.conns;
  }

  lemma TrackKeepsMutex(s: State, t: Tid, c: Conn)
    requires Inv(s) && Enabled(s, ServeMoves(t)) && s.serves[t] == Tracking(c)
    ensures var n := TrackStep(s, t, c);
            ConnMutex(n.life, n.mu) && ServeMutex(n.serves, n.mu) && CloseMutex(n.closes, n.mu)
  {
  }

  lemma TrackKeepsStages(s: State, t: Tid, c: Conn)
    requires Inv(s) && Enabled(s, ServeMoves(t)) && s.serves[t] == Tracking(c)
    ensures var n := TrackStep(s, t, c);
            && NoEntry(n.life, n.closed) && Sockets(n.life, n.shut) && Custody(n.life, n.tracker, n.serves)
            && Closing(n.closes, n.closed, n.conns, n.shut, n.wg)
  {
  }

  lemma TrackKeeps(s: State, t: Tid, c: Conn)
    requires Inv(s) && Enabled(s, ServeMoves(t)) && s.serves[t] == Tracking(c)
    ensures Inv(TrackStep(s, t, c))
  {
    TrackKeepsCounts(s, t, c);
    TrackKeepsMutex(s, t, c);
    TrackKeepsStages(s, t, c);
  }

  lemma HandlerKeepsCounts(s: State, c: Conn)
    requires Inv(s) && Enabled(s, HandlerMoves(c))
    ensures var n := HandlerStep(s, c); Counts(n.life, n.conns, n.wg, n.current)
    ensures s.life[c].CurrentDown? ==> s.wg > 0
  {
    CountsMove(s.life, s.conns, s.wg, s.current, c, HandledTo(s.life[c]));
    assert c in s.conns ==> s.conns + {c} == s.conns;
    assert c !in s.conns ==> s.conns - {c} == s.conns;
  }

  lemma HandlerKeepsMutex(s: State, c: Conn)
    requires Inv(s) && Enabled(s, HandlerMoves(c))
    ensures var n := HandlerStep(s, c);
            ConnMutex(n.life, n.mu) && ServeMutex(n.serves, n.mu) && CloseMutex(n.closes, n.mu)
  {
  }

  lemma HandlerKeepsStages(s: State, c: Conn)
    requires Inv(s) && Enabled(s, HandlerMoves(c))
    requires s.life[c].CurrentDown? ==> s.wg > 0
    ensures var n := HandlerStep(s, c);
            && NoEntry(n.life, n.closed) && Sockets(n.life, n.shut) && Custody(n.life, n.tracker, n.serves)
            && Closing(n.closes, n.closed, n.conns, n.shut, n.wg)
  {
  }

  lemma HandlerKeeps(s: State, c: Conn)
    requires Inv(s) && Enabled(s, HandlerMoves(c))
    ensures Inv(HandlerStep(s, c))
  {
    HandlerKeepsCounts(s, c);
    HandlerKeepsMutex(s, c);
    HandlerKeepsStages(s, c);
  }

  lemma ServeKeepsMutex(s: State, t: Tid)
    requires ConnMutex(s.life, s.mu) && ServeMutex(s.serves, s.mu) && CloseMutex(s.closes, s.mu)
    requires Enabled(s, ServeMoves(t)) && !s.serves[t].Tracking?
    ensures var n := ServeStep(s, t);
            ConnMutex(n.life, n.mu) && ServeMutex(n.serves, n.mu) && CloseMutex(n.closes, n.mu)
  {
  }

  lemma ServeKeeps(s: State, t: Tid)
    requires Inv(s) && Enabled(s, ServeMoves(t)) && !s.serves[t].Tracking?
    ensures Inv(ServeStep(s, t))
  {
    hide ConnMutex, ServeMutex, CloseMutex, Counts;
    ServeKeepsMutex(s, t);
  }

  lemma CloseKeepsMutex(s: State, t: Tid)
    requires CloseMutex(s.closes, s.mu) && Enabled(s, CloseMoves(t))
    ensures CloseMutex(CloseStep(s, t).closes, CloseStep(s, t).mu)
  {
  }

  lemma CloseKeepsOthers(s: State, t: Tid)
    requires ConnMutex(s.life, s.mu) && ServeMutex(s.serves, s.mu) && CloseMutex(s.closes, s.mu)
    requires Enabled(s, CloseMoves(t))
    ensures var n := CloseStep(s, t); ConnMutex(n.life, n.mu) && ServeMutex(n.serves, n.mu)
  {
  }

  /** A Close call sets closed with the mutex held, so no connection is being added at that moment. */
  lemma CloseKeepsStages(s: State, t: Tid)
    requires Inv(s) && Enabled(s, CloseMoves(t))
    ensures var n := CloseStep(s, t);
            NoEntry(n.life, n.closed) && Closing(n.closes, n.closed, n.conns, n.shut, n.wg)
  {
  }

  lemma CloseKeeps(s: State, t: Tid)
    requires Inv(s) && Enabled(s, CloseMoves(t))
    ensures Inv(CloseStep(s, t))
  {
    CloseKeepsMutex(s, t);
    CloseKeepsOthers(s, t);
    CloseKeepsStages(s, t);
  }

  lemma ShutKeeps(s: State, t: Tid, c: Conn)
    requires Inv(s) && Enabled(s, CloseShuts(t, c))
    ensures Inv(Do(s, CloseShuts(t, c)))
  {
  }

  lemma AcceptKeepsCounts(s: State, c: Conn)
    requires Inv(s) && c !in s.life
    ensures Counts(s.life[c := Accepted], s.conns, s.wg, s.current)
  {
    LifeMoves(s.life, c, Accepted);
    Sizes(WgSet(s.life), c);
    Sizes(CurrentSet(s.life), c);
    assert InMapSet(s.life) - {c} == InMapSet(s.life);
  }

  lemma AcceptKeeps(s: State, t: Tid, c: Conn)
    requires Inv(s) && Enabled(s, Accept(t, c))
    ensures Inv(Do(s, Accept(t, c)))
  {
    AcceptKeepsCounts(s, c);
  }

  /** Every step of every party keeps the invariant. */
  lemma StepKeeps(s: State, step: Step)
    requires Inv(s) && Enabled(s, step)
    ensures Inv(Do(s, step))
  {
    match step
    case ServeMoves(t) => if s.serves[t].Tracking? { TrackKeeps(s, t, s.serves[t].c); } else { ServeKeeps(s, t); }
    case HandlerMoves(c) => HandlerKeeps(s, c);
    case CloseMoves(t) => CloseKeeps(s, t);
    case CloseShuts(t, c) => ShutKeeps(s, t, c);
    case Accept(t, c) => AcceptKeeps(s, t, c);
    case _ =>
  }

  // ---- what holds in every state, at every step and over every run ----

  lemma {:induction false} SubsetIsSmaller(x: set<Conn>, y: set<Conn>)
    requires x <= y
    ensures |x| <= |y|
  {
    if x != {} {
      var c :| c in x;
      SubsetIsSmaller(x - {c}, y - {c});
    }
  }

  /** A connection is being added to the counts right now, with the mutex held. */
  predicate Adding(s: State) {
    s.mu.ByConn? && s.mu.c in s.life && Entering(s.life[s.mu.c])
  }

  /** The counts are ordered wherever no connection is just being added, and never negative. */
  lemma CountsAreOrdered(s: State)
    requires Inv(s)
    ensures 0 <= s.current <= s.wg
    ensures !Adding(s) ==> |s.conns| <= s.current
  {
    SubsetIsSmaller(CurrentSet(s.life), WgSet(s.life));
    if !Adding(s) {
      assert InMapSet(s.life) <= CurrentSet(s.life);
      SubsetIsSmaller(InMapSet(s.life), CurrentSet(s.life));
    }
  }

  /** No more is tracked in n than in s. */
  predicate OnlyFalls(s: State, n: State) {
    && n.closed && n.conns <= s.conns && n.wg <= s.wg && n.current <= s.current
    && forall c | c in s.life && !HoldsWg(s.life[c]) :: c in n.life && !HoldsWg(n.life[c])
  }

  lemma TrackOnlyFalls(s: State, t: Tid)
    requires Inv(s) && s.closed && Enabled(s, ServeMoves(t)) && s.serves[t].Tracking?
    ensures OnlyFalls(s, TrackStep(s, t, s.serves[t].c))
  {
  }

  lemma HandlerOnlyFalls(s: State, c: Conn)
    requires Inv(s) && s.closed && Enabled(s, HandlerMoves(c))
    ensures OnlyFalls(s, HandlerStep(s, c))
  {
  }

  /** Once closed is set, it stays, nothing is tracked any more, and the counts only fall. */
  lemma NothingTrackedOnceClosed(s: State, step: Step)
    requires Inv(s) && s.closed && Enabled(s, step)
    ensures OnlyFalls(s, Do(s, step))
  {
    match step
    case ServeMoves(t) => if s.serves[t].Tracking? { TrackOnlyFalls(s, t); }
    case HandlerMoves(c) => HandlerOnlyFalls(s, c);
    case _ =>
  }

  /** A connection leaves the map only by its own handler, which has closed it before. */
  lemma ClosedBeforeUntracked(s: State, step: Step, c: Conn)
    requires Inv(s) && Enabled(s, step) && c in s.conns && c !in Do(s, step).conns
    ensures c in s.shut && step == HandlerMoves(c)
  {
  }

  /** states is a run: from the start, by enabled steps of any party, in any order. */
  predicate IsRun(states: seq<State>, steps: seq<Step>) {
    && |states| == |steps| + 1 && states[0] == Start()
    && forall i :: 0 <= i < |steps| ==> Enabled(states[i], steps[i]) && states[i + 1] == Do(states[i], steps[i])
  }

  lemma {:induction false} RunIsGood(states: seq<State>, steps: seq<Step>, i: nat)
    requires IsRun(states, steps) && i < |states|
    ensures Inv(states[i])
  {
    if i == 0 {
      StartIsGood();
    } else {
      RunIsGood(states, steps, i - 1);
      StepKeeps(states[i - 1], steps[i - 1]);
    }
  }

  lemma {:induction false} ClosedForGood(states: seq<State>, steps: seq<Step>, i: nat, j: nat)
    requires IsRun(states, steps) && i <= j < |states| && states[i].closed
    ensures states[j].closed && states[j].conns <= states[i].conns
    ensures states[j].wg <= states[i].wg && states[j].current <= states[i].current
    decreases j
  {
    if i < j {
      ClosedForGood(states, steps, i, j - 1);
      RunIsGood(states, steps, j - 1);
      NothingTrackedOnceClosed(states[j - 1], steps[j - 1]);
    }
  }

  /** Accepted, and not yet refused and closed. */
  predicate ToBeRefused(p: Stage) {
    p.Accepted? || p.TrackLocked? || p.TrackClosed? || p.Refused?
  }

  /** No handler is left, and every connection is closed or about to be refused and closed. */
  predicate Quiet(s: State) {
    && s.conns == {} && s.wg == 0 && s.current == 0
    && forall c | c in s.life :: !HoldsWg(s.life[c]) && (c in s.shut || ToBeRefused(s.life[c]))
  }

  lemma ZeroIsQuiet(s: State)
    requires Inv(s) && s.closed && s.wg == 0
    ensures Quiet(s)
  {
    CountsAreOrdered(s);
    forall c | c in s.life ensures !HoldsWg(s.life[c]) && (c in s.shut || ToBeRefused(s.life[c])) {
      assert c !in WgSet(s.life);
      assert SocketClosed(s.life[c]) ==> c in s.shut;
    }
    assert s.conns == {};
  }

  /** When any Close returns, the map and both counts are empty, no handler is left, and it stays so. */
  lemma CloseIsFinal(states: seq<State>, steps: seq<Step>, i: nat, j: nat, t: Tid)
    requires IsRun(states, steps) && i <= j < |states|
    requires t in states[i].closes && states[i].closes[t].CloseReturned?
    ensures Quiet(states[j])
  {
    RunIsGood(states, steps, i);
    assert Achieved(states[i].closes[t], states[i].closed, states[i].conns, states[i].shut, states[i].wg);
    ClosedForGood(states, steps, i, j);
    RunIsGood(states, steps, j);
    CountsAreOrdered(states[j]);
    ZeroIsQuiet(states[j]);
  }

  /** The steps that move calls already made; new calls and new connections are not among them. */
  predicate Moves(step: Step) {
    step.ServeMoves? || step.HandlerMoves? || step.CloseMoves? || step.CloseShuts?
  }

  lemma HolderCanMove(s: State) returns (step: Step)
    requires Inv(s) && !s.mu.Free?
    ensures Moves(step) && Enabled(s, step)
  {
    match s.mu
    case ByServe(t) => step := ServeMoves(t);
    case ByClose(t) =>
      if s.closes[t].Dropping? && s.closes[t].left != {} {
        var c :| c in s.closes[t].left;
        step := CloseShuts(t, c);
      } else {
        step := CloseMoves(t);
      }
    case ByConn(c) =>
      step := if WithServe(s.life[c]) then ServeMoves(s.tracker[c]) else HandlerMoves(c);
  }

  /** A Close that has not returned never waits for nothing: some call already made can take a step. */
  lemma NoDeadlock(s: State, t: Tid) returns (step: Step)
    requires Inv(s) && t in s.closes && !s.closes[t].CloseReturned?
    ensures Moves(step) && Enabled(s, step)
  {
    if !s.mu.Free? {
      step := HolderCanMove(s);
    } else if s.closes[t].Waiting? && s.wg != 0 {
      assert WgSet(s.life) != {};
      var c :| c in WgSet(s.life);
      step := if WithServe(s.life[c]) then ServeMoves(s.tracker[c]) else HandlerMoves(c);
    } else {
      step := CloseMoves(t);
    }
  }

  // ---- everything comes to an end ----

  /**
   The steps of calls already made; once closed is set, those that wait for a listener as well. Before
   that a listener may bring connections and failures for ever.
   */
  predicate Driven(s: State, step: Step) {
    Moves(step) || (s.closed && (step.Accept? || step.AcceptFails? || step.ListenerGone?))
  }

  /** How many steps the handler of a connection may still take. */
  function HandlerRank(p: Stage, closed: bool): nat {
    match p
    case Accepted => if closed then 0 else 6
    case TrackLocked => if closed then 0 else 6
    case TrackOpen => 6
    case InMap => 6
    case WgAdded => 6
    case CurrentAdded => 6
    case Tracked => 6
    case Handling => 6
    case HandlerShut => 5
    case UntrackLocked => 4
    case Deleted => 3
    case Unlocked => 2
    case CurrentDown => 1
    case _ => 0
  }

  /** How many steps a Serve call with a connection in its hands may still take. */
  function TrackRank(p: Stage, closed: bool): nat {
    match p
    case Accepted => if closed then 4 else 12
    case TrackLocked => if closed then 3 else 11
    case TrackOpen => 10
    case InMap => 9
    case WgAdded => 8
    case CurrentAdded => 7
    case Tracked => 6
    case TrackClosed => 2
    case Refused => 1
    case _ => 0
  }

  function HandlerLeft(s: State, c: Conn): (n: nat)
    ensures n > 0 ==> c in s.life
  {
    if c in s.life then HandlerRank(s.life[c], s.closed) else 0
  }

  /** Once closed is set, a Serve call accepts or fails at most once more; before, it goes on to wait. */
  function ServeLeft(s: State, t: Tid): (n: nat)
    ensures n > 0 ==> t in s.serves
  {
    if t !in s.serves then 0
    else
      match s.serves[t]
      case Starting => if s.closed then 2 else 7
      case Checking => if s.closed then 2 else 7
      case StartLocked => if s.closed then 1 else 6
      case CheckLocked => if s.closed then 1 else 6
      case Tracking(c) => if c in s.life then TrackRank(s.life[c], s.closed) else 0
      case Accepting => 5
      case ServeReturned => 0
  }

  function CloseLeft(s: State, t: Tid): (n: nat)
    ensures n > 0 ==> t in s.closes
  {
    if t !in s.closes then 0
    else
      match s.closes[t]
      case Called => 4
      case CloseLocked => 3
      case Dropping(_) => 2
      case Waiting => 1
      case CloseReturned => 0
  }

  /** The connections a Close call may still have to close. */
  function ToDrop(s: State, t: Tid): (left: set<Conn>)
    ensures left != {} ==> t in s.closes
  {
    if t !in s.closes then {}
    else
      match s.closes[t]
      case Called => if s.closed then s.conns else s.life.Keys
      case CloseLocked => if s.closed then s.conns else s.life.Keys
      case Dropping(left) => left
      case _ => {}
  }

  /** A step some party still has to take, counted down to zero. */
  datatype Token =
    | OfHandler(c: Conn, left: nat)
    | OfServe(t: Tid, left: nat)
    | OfClose(t: Tid, left: nat)
    | OfDrop(t: Tid, c: Conn)

  /** The work left in a state. */
  function Work(s: State): set<Token> {
    (set c, i | c in s.life && 0 <= i < HandlerLeft(s, c) :: OfHandler(c, i))
    + (set t, i | t in s.serves && 0 <= i < ServeLeft(s, t) :: OfServe(t, i))
    + (set t, i | t in s.closes && 0 <= i < CloseLeft(s, t) :: OfClose(t, i))
    + (set t, c | t in s.closes && c in ToDrop(s, t) :: OfDrop(t, c))
  }

  /** No party has more left to do in n than in s. */
  ghost predicate NoMore(s: State, n: State) {
    && (forall c :: HandlerLeft(n, c) <= HandlerLeft(s, c))
    && (forall t :: ServeLeft(n, t) <= ServeLeft(s, t))
    && (forall t :: CloseLeft(n, t) <= CloseLeft(s, t))
    && (forall t :: ToDrop(n, t) <= ToDrop(s, t))
  }

  /** Some party has less left to do. */
  ghost predicate SomeLess(s: State, n: State) {
    || (exists c :: HandlerLeft(n, c) < HandlerLeft(s, c))
    || (exists t :: ServeLeft(n, t) < ServeLeft(s, t))
    || (exists t :: CloseLeft(n, t) < CloseLeft(s, t))
    || (exists t :: ToDrop(n, t) < ToDrop(s, t))
  }

  /** If some party has less left to do and no party more, a token is gone and none is new. */
  lemma LessWork(s: State, n: State)
    requires NoMore(s, n) && SomeLess(s, n)
    ensures Work(n) < Work(s)
  {
    hide HandlerLeft, ServeLeft, CloseLeft, ToDrop;
    var k := GoneToken(s, n);
    NoNewToken(s, n);
  }

  lemma NoNewToken(s: State, n: State)
    requires NoMore(s, n)
    ensures Work(n) <= Work(s)
  {
    hide HandlerLeft, ServeLeft, CloseLeft, ToDrop;
    forall k | k in Work(n) ensures k in Work(s) {
    }
  }

  lemma GoneToken(s: State, n: State) returns (k: Token)
    requires NoMore(s, n) && SomeLess(s, n)
    ensures k in Work(s) && k !in Work(n)
  {
    hide HandlerLeft, ServeLeft, CloseLeft, ToDrop;
    if c :| HandlerLeft(n, c) < HandlerLeft(s, c) {
      k := OfHandler(c, HandlerLeft(n, c));
    } else if t :| ServeLeft(n, t) < ServeLeft(s, t) {
      k := OfServe(t, ServeLeft(n, t));
    } else if t :| CloseLeft(n, t) < CloseLeft(s, t) {
      k := OfClose(t, CloseLeft(n, t));
    } else {
      var t :| ToDrop(n, t) < ToDrop(s, t);
      var c :| c in ToDrop(s, t) && c !in ToDrop(n, t);
      k := OfDrop(t, c);
    }
  }

  lemma TrackLowers(s: State, t: Tid)
    requires NoEntry(s.life, s.closed) && Custody(s.life, s.tracker, s.serves)
    requires Enabled(s, ServeMoves(t)) && s.serves[t].Tracking?
    ensures var n := TrackStep(s, t, s.serves[t].c); NoMore(s, n) && SomeLess(s, n)
  {
    var c := s.serves[t].c;
    var n := TrackStep(s, t, c);
    assert HandlerLeft(n, c) <= HandlerLeft(s, c);
    assert forall u | u in s.serves && u != t :: s.serves[u] != Tracking(c);
    assert ServeLeft(n, t) < ServeLeft(s, t);
  }

  lemma HandlerLowers(s: State, c: Conn)
    requires Enabled(s, HandlerMoves(c))
    ensures var n := HandlerStep(s, c); NoMore(s, n) && SomeLess(s, n)
  {
    var n := HandlerStep(s, c);
    assert HandlerLeft(n, c) < HandlerLeft(s, c);
  }

  lemma ServeStepLowers(s: State, t: Tid)
    requires Enabled(s, ServeMoves(t)) && !s.serves[t].Tracking?
    ensures var n := ServeStep(s, t); NoMore(s, n) && SomeLess(s, n)
  {
    var n := ServeStep(s, t);
    assert ServeLeft(n, t) < ServeLeft(s, t);
  }

  /** A step of Close leaves no party more connections to close. */
  lemma DropsFall(s: State, t: Tid, u: Tid)
    requires s.conns == InMapSet(s.life) && Enabled(s, CloseMoves(t))
    ensures ToDrop(CloseStep(s, t), u) <= ToDrop(s, u)
  {
    assert s.conns <= s.life.Keys;
  }

  lemma CloseStepLowers(s: State, t: Tid)
    requires s.conns == InMapSet(s.life) && Enabled(s, CloseMoves(t))
    ensures var n := CloseStep(s, t); NoMore(s, n) && SomeLess(s, n)
  {
    hide ToDrop, InMapSet;
    var n := CloseStep(s, t);
    forall u ensures ToDrop(n, u) <= ToDrop(s, u) {
      DropsFall(s, t, u);
    }
    assert CloseLeft(n, t) < CloseLeft(s, t);
  }

  lemma ShutLowers(s: State, t: Tid, c: Conn)
    requires Enabled(s, CloseShuts(t, c))
    ensures var n := Do(s, CloseShuts(t, c)); NoMore(s, n) && SomeLess(s, n)
  {
    var n := Do(s, CloseShuts(t, c));
    assert ToDrop(n, t) < ToDrop(s, t);
  }

  /** Once closed is set, a listener can bring a Serve call one more connection or one failure. */
  lemma ListenerLowers(s: State, step: Step)
    requires Custody(s.life, s.tracker, s.serves)
    requires s.closed && Enabled(s, step) && (step.Accept? || step.AcceptFails? || step.ListenerGone?)
    ensures var n := Do(s, step); NoMore(s, n) && SomeLess(s, n)
  {
    var n := Do(s, step);
    assert ServeLeft(n, step.t) < ServeLeft(s, step.t);
  }

  /** Every driven step leaves strictly less work. */
  lemma MovesLower(s: State, step: Step)
    requires Inv(s) && Driven(s, step) && Enabled(s, step)
    ensures Work(Do(s, step)) < Work(s)
  {
    hide NoMore, SomeLess, Work;
    match step {
      case ServeMoves(t) => if s.serves[t].Tracking? { TrackLowers(s, t); } else { ServeStepLowers(s, t); }
      case HandlerMoves(c) => HandlerLowers(s, c);
      case CloseMoves(t) => CloseStepLowers(s, t);
      case CloseShuts(t, c) => ShutLowers(s, t, c);
      case _ => ListenerLowers(s, step);
    }
    LessWork(s, Do(s, step));
  }

  lemma {:induction false} LessIsFewer(x: set<Token>, y: set<Token>)
    requires x < y
    ensures |x| < |y|
  {
    var k :| k in y && k !in x;
    if x == {} {
      assert |y| > 0;
    } else {
      var j :| j in x;
      LessIsFewer(x - {j}, y - {j});
    }
  }

  /** From any good state, by driven steps. */
  predicate IsContinuation(states: seq<State>, steps: seq<Step>) {
    && |states| == |steps| + 1 && Inv(states[0])
    && forall i :: 0 <= i < |steps| ==>
         && Driven(states[i], steps[i]) && Enabled(states[i], steps[i])
         && states[i + 1] == Do(states[i], steps[i])
  }

  lemma {:induction false} WorkBoundsSteps(states: seq<State>, steps: seq<Step>, i: nat)
    requires IsContinuation(states, steps) && i < |states|
    ensures Inv(states[i]) && i + |Work(states[i])| <= |Work(states[0])|
  {
    if i > 0 {
      WorkBoundsSteps(states, steps, i - 1);
      StepKeeps(states[i - 1], steps[i - 1]);
      MovesLower(states[i - 1], steps[i - 1]);
      LessIsFewer(Work(states[i]), Work(states[i - 1]));
    }
  }

  /** No driven step is left to take. */
  ghost predicate Stuck(s: State) {
    forall step | Driven(s, step) :: !Enabled(s, step)
  }

  /** Every call has returned, every handler is done and every connection is closed. */
  predicate Over(s: State) {
    && s.conns == {} && s.wg == 0 && s.current == 0
    && (forall t | t in s.serves :: s.serves[t].ServeReturned?)
    && (forall t | t in s.closes :: s.closes[t].CloseReturned?)
    && forall c | c in s.life :: (s.life[c].RefusedShut? || s.life[c].WgDown?) && c in s.shut
  }

  lemma StuckIsFree(s: State)
    requires Inv(s) && Stuck(s)
    ensures s.mu.Free?
  {
    if !s.mu.Free? {
      var step := HolderCanMove(s);
      assert Driven(s, step);
    }
  }

  /** In a closed state, only what is over takes no further step. */
  lemma StuckIsOver(s: State)
    requires Inv(s) && s.closed
    ensures Stuck(s) <==> Over(s)
  {
    if Stuck(s) {
      StuckIsFree(s);
      forall t | t in s.serves ensures s.serves[t].ServeReturned? {
        assert Driven(s, ServeMoves(t)) && Driven(s, AcceptFails(t));
      }
      forall t | t in s.closes ensures s.closes[t].CloseReturned? {
        if !s.closes[t].CloseReturned? {
          var step := NoDeadlock(s, t);
          assert Driven(s, step);
        }
      }
      forall c | c in s.life ensures s.life[c].RefusedShut? || s.life[c].WgDown? {
        assert Driven(s, HandlerMoves(c));
      }
      assert WgSet(s.life) == {} && CurrentSet(s.life) == {} && InMapSet(s.life) == {};
    }
  }

  /**
   Close returns, and Serve with it: however the calls already made are scheduled, they can take only
   so many steps. When none is left to take, every Close call has returned; and if closed was ever
   set, every Serve call and every handler is through as well and every connection is closed.
   */
  lemma CloseReturns(states: seq<State>, steps: seq<Step>)
    requires IsContinuation(states, steps)
    ensures |steps| <= |Work(states[0])|
    ensures var last := states[|steps|];
            Stuck(last) ==>
              && (forall t | t in last.closes :: last.closes[t].CloseReturned?)
              && (last.closed ==> Over(last))
  {
    var last := states[|steps|];
    WorkBoundsSteps(states, steps, |steps|);
    if Stuck(last) {
      forall t | t in last.closes ensures last.closes[t].CloseReturned? {
        if !last.closes[t].CloseReturned? {
          var step := NoDeadlock(last, t);
          assert Driven(last, step);
        }
      }
      if last.closed {
        StuckIsOver(last);
      }
    }
  }
}
