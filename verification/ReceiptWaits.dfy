/** Every interleaving of `waitReceipt` calls with the router. */
module ReceiptWaits {
  import opened Wrappers
  import opened ReceiptRouter

  /** Where one `waitReceipt` call stands. The last three are its ways out. */
  datatype Phase =
    | Registering
    | Waiting
    | Cancelling(onTimer: bool)
    | Checking
    | Returned(receipt: Receipt)
    | TimedOut
    | TxFailed

  /** A call: what it waits for, whether it has a timer, and where it stands. Its channel is its name. */
  datatype Client = Client(kind: Kind, hash: Hash, bounded: bool, phase: Phase)

  /**
   * `inbox` is a request the router has taken and not yet acted on; `lost` and `cancelled` record two of its branches.
   * `errors` is the one-slot channel of transaction errors that all waits read; `arrived` and `strayed` record the
   * errors put in it and those read by a wait for another hash.
   */
  datatype System = System(clients: map<ChanId, Client>, tables: Tables, inbox: Option<Request>, now: int,
                           lost: set<ChanId>, cancelled: set<ChanId>,
                           errors: Option<Hash>, arrived: multiset<Hash>, strayed: multiset<Hash>)

  datatype Step =
    | Call(ch: ChanId, kind: Kind, hash: Hash, bounded: bool)  // a new wait, with a channel of its own
    | Hand(ch: ChanId)                                         // its send meets the router's receive
    | Serve                                                    // the router acts on the request it took
    | Arrive(receipt: Option<Receipt>)                         // the router takes a receipt
    | Cleanup                                                  // the router's ticker
    | Take(ch: ChanId)                                         // the wait receives its answer
    | TimerFires(ch: ChanId)
    | ErrorArrives(errHash: Hash)                              // a transaction error comes in
    | TakeError(ch: ChanId)                                    // the wait receives it
    | LastLook(ch: ChanId)                                     // the channel check after a cancel
    | Elapse(delay: nat)

  const INIT := System(map[], Tables(map[], map[], map[]), None, 0, {}, {}, None, multiset{}, multiset{})

  function Move(s: System, ch: ChanId, phase: Phase): System
    requires ch in s.clients
  {
    s.(clients := s.clients[ch := s.clients[ch].(phase := phase)])
  }

  function Asks(s: System, ch: ChanId): Waiter
    requires ch in s.clients
  {
    Waiter(ch, s.clients[ch].kind, s.clients[ch].hash)
  }

  /** The wait that handed over its cancel checks its channel only if the timer sent it there. */
  function HandOver(s: System, ch: ChanId): System
    requires ch in s.clients
  {
    var w := Asks(s, ch);
    match s.clients[ch].phase
    case Registering => Move(s, ch, Waiting).(inbox := Some(Register(ch, w.kind, w.hash)))
    case Cancelling(onTimer) =>
      Move(s, ch, if onTimer then Checking else TxFailed).(inbox := Some(Cancel(ch, w.kind, w.hash)))
    case _ => s
  }

  function ServeRequest(s: System, req: Request): System {
    if req.Register? then
      s.(inbox := None, tables := OnRegister(s.tables, req, s.now),
         lost := if Expired(s.tables, req.hash, s.now) then s.lost + {req.ch} else s.lost)
    else
      s.(inbox := None, tables := OnCancel(s.tables, req),
         cancelled := if req.hash in s.tables.waiters
                         && Waiter(req.ch, req.kind, req.hash) in s.tables.waiters[req.hash]
                      then s.cancelled + {req.ch} else s.cancelled)
  }

  /** Receive from the channel, if there is something in it. */
  function Drain(s: System, ch: ChanId, otherwise: Phase): System
    requires ch in s.clients
  {
    var c := At(s.tables.chans, ch);
    if c.slot.None? then Move(s, ch, otherwise)
    else Move(s, ch, Returned(c.slot.value)).(tables := s.tables.(chans := s.tables.chans[ch := c.(slot := None)]))
  }

  /** The wait is in its select, with a timer. */
  predicate BoundedWait(s: System, ch: ChanId) {
    ch in s.clients && s.clients[ch].phase.Waiting? && s.clients[ch].bounded
  }

  /** A wait that reads the error of another drops it and waits on. */
  function ReadError(s: System, ch: ChanId): System
    requires ch in s.clients && s.errors.Some?
  {
    var rest := s.(errors := None);
    if s.errors.value == s.clients[ch].hash then Move(rest, ch, Cancelling(false))
    else rest.(strayed := s.strayed + multiset{s.errors.value})
  }

  /** A step that is not enabled leaves the system alone, so every sequence of steps is a run. */
  function Next(s: System, step: Step): System {
    match step
    case Call(ch, kind, hash, bounded) =>
      if ch in s.clients then s
      else s.(clients := s.clients[ch := Client(kind, hash, bounded, Registering)],
              tables := s.tables.(chans := s.tables.chans[ch := Chan(None, [], 0)]))
    case Hand(ch) => if s.inbox.None? && ch in s.clients then HandOver(s, ch) else s
    case Serve => if s.inbox.Some? then ServeRequest(s, s.inbox.value) else s
    case Arrive(receipt) =>
      if s.inbox.None? && receipt.Some? then s.(tables := OnReceipt(s.tables, receipt.value, s.now)) else s
    case Cleanup => if s.inbox.None? then s.(tables := OnCleanup(s.tables, s.now)) else s
    case Take(ch) => if ch in s.clients && s.clients[ch].phase.Waiting? then Drain(s, ch, Waiting) else s
    case TimerFires(ch) =>
      if BoundedWait(s, ch) then Move(s, ch, Cancelling(true)) else s
    case ErrorArrives(errHash) =>
      if s.errors.None? then s.(errors := Some(errHash), arrived := s.arrived + multiset{errHash}) else s
    case TakeError(ch) => if BoundedWait(s, ch) && s.errors.Some? then ReadError(s, ch) else s
    case LastLook(ch) => if ch in s.clients && s.clients[ch].phase.Checking? then Drain(s, ch, TimedOut) else s
    case Elapse(delay) => s.(now := s.now + delay)
  }

  function RunFrom(s: System, steps: seq<Step>): System {
    if steps == [] then s else Next(RunFrom(s, steps[..|steps| - 1]), steps[|steps| - 1])
  }

  // ----- The invariant -----

  /** The router has acted on this wait's registration. */
  ghost predicate Registered(s: System, ch: ChanId)
    requires ch in s.clients
  {
    && !s.clients[ch].phase.Registering?
    && s.inbox != Some(Register(ch, s.clients[ch].kind, s.clients[ch].hash))
  }

  ghost predicate Answered(s: System, ch: ChanId) {
    At(s.tables.chans, ch).sent != []
  }

  ghost predicate Queued(s: System, ch: ChanId)
    requires ch in s.clients
  {
    Listed(s.tables.waiters, Asks(s, ch))
  }

  function One(b: bool): nat {
    if b then 1 else 0
  }

  /** How many of the four fates this wait has met. */
  ghost function Fates(s: System, ch: ChanId): nat
    requires ch in s.clients
  {
    One(Answered(s, ch)) + One(Queued(s, ch)) + One(ch in s.lost) + One(ch in s.cancelled)
  }

  /** The receipt is one the wait asked for. */
  predicate Suits(c: Client, r: Receipt) {
    r.txHash == c.hash || (c.kind == ByReceiptHash && r.rHash == c.hash)
  }

  /** The wait is past its cancel request. */
  predicate Leaving(p: Phase) {
    p.Checking? || p.TimedOut? || p.TxFailed?
  }

  ghost predicate ChannelInv(s: System, ch: ChanId)
    requires ch in s.clients
  {
    var c, k := s.clients[ch], At(s.tables.chans, ch);
    && k.drops == 0
    && (!c.bounded ==> c.phase.Registering? || c.phase.Waiting? || c.phase.Returned?)
    && (k.sent == [] ==> k.slot.None? && !c.phase.Returned?)
    && (k.sent != [] ==>
          && |k.sent| == 1 && Suits(c, k.sent[0])
          && (if c.phase.Returned? then k.slot.None? && c.phase.receipt == k.sent[0] else k.slot == Some(k.sent[0])))
  }

  ghost predicate FateInv(s: System, ch: ChanId)
    requires ch in s.clients
  {
    && Fates(s, ch) == One(Registered(s, ch))
    && (Leaving(s.clients[ch].phase) && Queued(s, ch) ==>
          s.inbox.Some? && s.inbox.value.Cancel? && s.inbox.value.ch == ch)
    && (s.clients[ch].phase.TimedOut? ==> !Answered(s, ch))
  }

  ghost predicate InboxInv(s: System) {
    s.inbox.Some? ==>
      var req := s.inbox.value;
      && req.ch in s.clients && req.kind == s.clients[req.ch].kind && req.hash == s.clients[req.ch].hash
      && var p := s.clients[req.ch].phase;
         if req.Register? then p.Waiting? || p.Cancelling? else Leaving(p) || p.Returned?
  }

  ghost predicate TableInv(s: System) {
    && Sound(s.tables.waiters)
    && (forall w :: Listed(s.tables.waiters, w) ==> w.ch in s.clients && w == Asks(s, w.ch))
    && s.tables.chans.Keys == s.clients.Keys
    && (forall h :: h in s.tables.pending ==> s.tables.pending[h].value.txHash == h)
  }

  ghost predicate Inv(s: System) {
    && TableInv(s) && InboxInv(s)
    && s.lost <= s.clients.Keys && s.cancelled <= s.clients.Keys
    && (forall ch :: ch in s.clients ==> ChannelInv(s, ch))
    && (forall ch :: ch in s.clients ==> FateInv(s, ch))
  }

  // ----- Each step keeps it -----

  /** A wait that a step does not concern keeps its part of the invariant. */
  lemma UntouchedKeeps(s: System, t: System, ch: ChanId)
    requires ch in s.clients && ch in t.clients && s.clients[ch] == t.clients[ch]
    requires At(s.tables.chans, ch) == At(t.tables.chans, ch)
    requires Listed(s.tables.waiters, Asks(s, ch)) == Listed(t.tables.waiters, Asks(s, ch))
    requires (ch in s.lost) == (ch in t.lost) && (ch in s.cancelled) == (ch in t.cancelled)
    requires || s.inbox == t.inbox
             || ((s.inbox.Some? ==> s.inbox.value.ch != ch) && (t.inbox.Some? ==> t.inbox.value.ch != ch))
    requires ChannelInv(s, ch) && FateInv(s, ch)
    ensures ChannelInv(t, ch) && FateInv(t, ch)
  {
  }

  lemma CallKeepsInv(s: System, ch: ChanId, kind: Kind, hash: Hash, bounded: bool)
    requires Inv(s)
    ensures Inv(Next(s, Call(ch, kind, hash, bounded)))
  {
    var t := Next(s, Call(ch, kind, hash, bounded));
    if ch !in s.clients {
      assert forall w :: Listed(t.tables.waiters, w) ==> w.ch != ch;
      forall d | d in t.clients ensures ChannelInv(t, d) && FateInv(t, d) {
        if d != ch { UntouchedKeeps(s, t, d); }
      }
    }
  }

  /** A step that changes one wait's phase and channel only has that wait's part of the invariant to keep. */
  lemma LocalStepKeepsInv(s: System, t: System, ch: ChanId, c: Client, k: Chan)
    requires Inv(s) && ch in s.clients && c.kind == s.clients[ch].kind && c.hash == s.clients[ch].hash
    requires t == s.(clients := s.clients[ch := c], tables := s.tables.(chans := s.tables.chans[ch := k]))
    requires ChannelInv(t, ch) && FateInv(t, ch) && InboxInv(t)
    ensures Inv(t)
  {
    forall d | d in t.clients && d != ch ensures ChannelInv(t, d) && FateInv(t, d) {
      UntouchedKeeps(s, t, d);
    }
    hide ChannelInv, FateInv, InboxInv;
    assert TableInv(t);
  }

  lemma MoveKeepsInv(s: System, ch: ChanId, phase: Phase)
    requires Inv(s) && ch in s.clients
    requires s.clients[ch].phase.Waiting? && phase.Cancelling? && s.clients[ch].bounded
    ensures Inv(Move(s, ch, phase))
  {
    var t := Move(s, ch, phase);
    assert ChannelInv(s, ch) && FateInv(s, ch);
    assert t.tables == s.tables.(chans := s.tables.chans[ch := s.tables.chans[ch]]);
    LocalStepKeepsInv(s, t, ch, t.clients[ch], s.tables.chans[ch]);
  }

  lemma HandKeepsInv(s: System, ch: ChanId)
    requires Inv(s)
    ensures Inv(Next(s, Hand(ch)))
  {
    var t := Next(s, Hand(ch));
    if t != s {
      assert ChannelInv(s, ch) && FateInv(s, ch);
      assert ChannelInv(t, ch) && FateInv(t, ch);
      forall d | d in t.clients && d != ch ensures ChannelInv(t, d) && FateInv(t, d) {
        UntouchedKeeps(s, t, d);
      }
    }
  }

  lemma RegistrantKeeps(s: System)
    requires Inv(s) && s.inbox.Some? && s.inbox.value.Register?
    ensures var t, ch := Next(s, Serve), s.inbox.value.ch; ch in t.clients && ChannelInv(t, ch) && FateInv(t, ch)
  {
    var req := s.inbox.value;
    assert FateInv(s, req.ch) && ChannelInv(s, req.ch);
    RegisterLists(s.tables, req, s.now);
  }

  lemma ServeRegisterKeepsInv(s: System)
    requires Inv(s) && s.inbox.Some? && s.inbox.value.Register?
    ensures Inv(Next(s, Serve))
  {
    var t, req := Next(s, Serve), s.inbox.value;
    assert FateInv(s, req.ch) && ChannelInv(s, req.ch);
    assert forall w :: Listed(s.tables.waiters, w) ==> w.ch != req.ch;
    RegisterLists(s.tables, req, s.now);
    RegistrantKeeps(s);
    forall d | d in t.clients && d != req.ch ensures ChannelInv(t, d) && FateInv(t, d) {
      UntouchedKeeps(s, t, d);
    }
  }

  lemma ServeCancelKeepsInv(s: System)
    requires Inv(s) && s.inbox.Some? && s.inbox.value.Cancel?
    ensures Inv(Next(s, Serve))
  {
    var t, req := Next(s, Serve), s.inbox.value;
    assert FateInv(s, req.ch) && ChannelInv(s, req.ch);
    CancelUnlists(s.tables, req);
    assert ChannelInv(t, req.ch) && FateInv(t, req.ch);
    forall d | d in t.clients && d != req.ch ensures ChannelInv(t, d) && FateInv(t, d) {
      UntouchedKeeps(s, t, d);
    }
  }

  lemma ArriveKeepsInv(s: System, r: Receipt)
    requires Inv(s) && s.inbox.None?
    ensures Inv(Next(s, Arrive(Some(r))))
  {
    var t := Next(s, Arrive(Some(r)));
    ReceiptUnlists(s.tables, r, s.now);
    ReceiptKeepsChans(s.tables, r, s.now);
    forall d | d in t.clients ensures ChannelInv(t, d) && FateInv(t, d) {
      assert ChannelInv(s, d) && FateInv(s, d);
      ReceiptAnswers(s.tables, r, s.now, Asks(s, d));
    }
    PassUnlists(s.tables, r.txHash, ByTxHash, r);
    PassUnlists(Pass(s.tables, r.txHash, ByTxHash, r), r.rHash, ByReceiptHash, r);
  }

  lemma CleanupKeepsInv(s: System)
    requires Inv(s)
    ensures Inv(Next(s, Cleanup))
  {
    var t := Next(s, Cleanup);
    forall d | d in t.clients ensures ChannelInv(t, d) && FateInv(t, d) {
      UntouchedKeeps(s, t, d);
    }
  }

  lemma DrainKeepsInv(s: System, ch: ChanId, otherwise: Phase)
    requires Inv(s) && ch in s.clients
    requires var p := s.clients[ch].phase; (p.Waiting? && otherwise.Waiting?) || (p.Checking? && otherwise.TimedOut?)
    ensures Inv(Drain(s, ch, otherwise))
  {
    var t := Drain(s, ch, otherwise);
    assert ChannelInv(s, ch) && FateInv(s, ch);
    assert t.tables == s.tables.(chans := s.tables.chans[ch := At(t.tables.chans, ch)]);
    LocalStepKeepsInv(s, t, ch, t.clients[ch], At(t.tables.chans, ch));
  }

  /** The clock and the errors are none of the invariant's business. */
  lemma FrameKeepsInv(s: System, t: System)
    requires Inv(s) && t.clients == s.clients && t.tables == s.tables && t.inbox == s.inbox
    requires t.lost == s.lost && t.cancelled == s.cancelled
    ensures Inv(t)
  {
    forall d | d in t.clients ensures ChannelInv(t, d) && FateInv(t, d) {
      UntouchedKeeps(s, t, d);
    }
  }

  lemma ReadErrorKeepsInv(s: System, ch: ChanId)
    requires Inv(s) && BoundedWait(s, ch) && s.errors.Some?
    ensures Inv(ReadError(s, ch))
  {
    hide Inv;
    var rest := s.(errors := None);
    FrameKeepsInv(s, rest);
    if s.errors.value == s.clients[ch].hash {
      MoveKeepsInv(rest, ch, Cancelling(false));
    } else {
      FrameKeepsInv(s, ReadError(s, ch));
    }
  }

  lemma NextKeepsInv(s: System, step: Step)
    requires Inv(s)
    ensures Inv(Next(s, step))
  {
    hide Inv, HandOver, ServeRequest, ReadError;
    match step
    case Call(ch, kind, hash, bounded) => CallKeepsInv(s, ch, kind, hash, bounded);
    case Hand(ch) => HandKeepsInv(s, ch);
    case Serve =>
      if s.inbox.Some? {
        if s.inbox.value.Register? { ServeRegisterKeepsInv(s); } else { ServeCancelKeepsInv(s); }
      }
    case Arrive(receipt) => if s.inbox.None? && receipt.Some? { ArriveKeepsInv(s, receipt.value); }
    case Cleanup => CleanupKeepsInv(s);
    case Take(ch) => if ch in s.clients && s.clients[ch].phase.Waiting? { DrainKeepsInv(s, ch, Waiting); }
    case TimerFires(ch) => if BoundedWait(s, ch) { MoveKeepsInv(s, ch, Cancelling(true)); }
    case ErrorArrives(errHash) => FrameKeepsInv(s, Next(s, step));
    case TakeError(ch) => if BoundedWait(s, ch) && s.errors.Some? { ReadErrorKeepsInv(s, ch); }
    case LastLook(ch) => if ch in s.clients && s.clients[ch].phase.Checking? { DrainKeepsInv(s, ch, TimedOut); }
    case Elapse(delay) => FrameKeepsInv(s, Next(s, step));
  }

  lemma {:induction false} RunKeepsInv(s: System, steps: seq<Step>)
    requires Inv(s)
    ensures Inv(RunFrom(s, steps))
  {
    if steps != [] {
      RunKeepsInv(s, steps[..|steps| - 1]);
      NextKeepsInv(RunFrom(s, steps[..|steps| - 1]), steps[|steps| - 1]);
    }
  }

  // ----- What every run keeps -----

  ghost predicate Reachable(s: System) {
    exists steps :: s == RunFrom(INIT, steps)
  }

  lemma ReachableInv(s: System)
    requires Reachable(s)
    ensures Inv(s)
  {
    var steps :| s == RunFrom(INIT, steps);
    RunKeepsInv(INIT, steps);
  }

  /** Nothing a wait has reached is taken back: its request, what was sent to it, its way out, its loss. */
  ghost predicate Extends(s: System, t: System, ch: ChanId)
    requires ch in s.clients
  {
    && ch in t.clients
    && t.clients[ch].(phase := s.clients[ch].phase) == s.clients[ch]
    && At(s.tables.chans, ch).sent <= At(t.tables.chans, ch).sent
    && (var p := s.clients[ch].phase; p.TimedOut? || p.Returned? || p.TxFailed? ==> t.clients[ch].phase == p)
    && (ch in s.lost ==> ch in t.lost)
    && (ch in s.cancelled ==> ch in t.cancelled)
  }

  lemma ArriveExtends(s: System, r: Receipt, ch: ChanId)
    requires Inv(s) && ch in s.clients && s.inbox.None?
    ensures Extends(s, Next(s, Arrive(Some(r))), ch)
  {
    ReceiptAnswers(s.tables, r, s.now, Asks(s, ch));
  }

  lemma ServeExtends(s: System, ch: ChanId)
    requires ch in s.clients
    ensures Extends(s, Next(s, Serve), ch)
  {
  }

  lemma OtherStepExtends(s: System, step: Step, ch: ChanId)
    requires ch in s.clients && !step.Arrive? && !step.Serve?
    ensures Extends(s, Next(s, step), ch)
  {
    hide ServeRequest, OnReceipt;
  }

  lemma NextExtends(s: System, step: Step, ch: ChanId)
    requires Inv(s) && ch in s.clients
    ensures Extends(s, Next(s, step), ch)
  {
    if step.Serve? {
      ServeExtends(s, ch);
    } else if !step.Arrive? {
      OtherStepExtends(s, step, ch);
    } else if s.inbox.None? && step.receipt.Some? {
      ArriveExtends(s, step.receipt.value, ch);
    }
  }

  lemma {:induction false} RunExtends(s: System, steps: seq<Step>, ch: ChanId)
    requires Inv(s) && ch in s.clients
    ensures Extends(s, RunFrom(s, steps), ch) && Inv(RunFrom(s, steps))
  {
    RunKeepsInv(s, steps);
    if steps != [] {
      RunExtends(s, steps[..|steps| - 1], ch);
      NextExtends(RunFrom(s, steps[..|steps| - 1]), steps[|steps| - 1], ch);
    }
  }

  /**
   * Accounting. In every run, each wait whose registration the router has acted on has met exactly one of: answered,
   * queued, lost on an expired entry, cancelled; before that it has met none. It is answered at most once, by a receipt
   * it asked for, and no put into its channel is ever dropped.
   */
  lemma Accounting(s: System, ch: ChanId)
    requires Reachable(s) && ch in s.clients
    ensures Fates(s, ch) == One(Registered(s, ch))
    ensures var k := At(s.tables.chans, ch);
            k.drops == 0 && (k.sent == [] || (|k.sent| == 1 && Suits(s.clients[ch], k.sent[0])))
  {
    ReachableInv(s);
    assert ChannelInv(s, ch) && FateInv(s, ch);
  }

  /** A queued wait is queued once, under its own hash. */
  lemma QueuedOnce(s: System, ch: ChanId)
    requires Reachable(s) && ch in s.clients && Queued(s, ch)
    ensures var bucket := s.tables.waiters[s.clients[ch].hash]; exists i :: 0 <= i < |bucket| && bucket[i].ch == ch
    ensures forall h, i, g, j {:trigger s.tables.waiters[h][i], s.tables.waiters[g][j]} ::
              && h in s.tables.waiters && 0 <= i < |s.tables.waiters[h]| && s.tables.waiters[h][i].ch == ch
              && g in s.tables.waiters && 0 <= j < |s.tables.waiters[g]| && s.tables.waiters[g][j].ch == ch
              ==> h == g == s.clients[ch].hash && i == j
  {
    ReachableInv(s);
    assert forall h, i :: h in s.tables.waiters && 0 <= i < |s.tables.waiters[h]| ==>
             Listed(s.tables.waiters, s.tables.waiters[h][i]);
  }

  /** A wait that returned the timeout error was never sent a receipt, and in no continuation will be. */
  lemma TimeoutIsFinal(s: System, more: seq<Step>, ch: ChanId)
    requires Reachable(s) && ch in s.clients && s.clients[ch].phase.TimedOut?
    ensures var t := RunFrom(s, more);
            ch in t.clients && t.clients[ch].phase.TimedOut? && At(t.tables.chans, ch).sent == []
  {
    ReachableInv(s);
    RunExtends(s, more, ch);
    assert FateInv(RunFrom(s, more), ch);
  }

  lemma ArrivalAnswers(s: System, r: Receipt, ch: ChanId)
    requires Inv(s) && s.inbox.None? && ch in s.clients && Queued(s, ch) && Answers(Asks(s, ch), r)
    ensures var u := Next(s, Arrive(Some(r)));
            u.clients == s.clients && At(u.tables.chans, ch).sent == [r] && At(u.tables.chans, ch).slot == Some(r)
  {
    assert FateInv(s, ch) && ChannelInv(s, ch);
    ReceiptAnswers(s.tables, r, s.now, Asks(s, ch));
  }

  lemma AnswerStays(s: System, r: Receipt, more: seq<Step>, ch: ChanId)
    requires Inv(s) && ch in s.clients && At(s.tables.chans, ch).sent == [r]
    ensures var t := RunFrom(s, more);
            && ch in t.clients && At(t.tables.chans, ch).sent == [r] && !t.clients[ch].phase.TimedOut?
            && (if t.clients[ch].phase.Returned? then t.clients[ch].phase.receipt == r
                else At(t.tables.chans, ch).slot == Some(r))
  {
    RunExtends(s, more, ch);
    var t := RunFrom(s, more);
    assert FateInv(t, ch) && ChannelInv(t, ch);
  }

  /**
   * A matching receipt that the router takes while a wait is queued is that wait's answer: no continuation ends in the
   * timeout error, it is what the wait returns if it returns, and until then it is there to be received.
   */
  lemma QueuedWaitIsAnswered(s: System, r: Receipt, more: seq<Step>, ch: ChanId)
    requires Reachable(s) && s.inbox.None? && ch in s.clients && Queued(s, ch) && Answers(Asks(s, ch), r)
    ensures var t := RunFrom(Next(s, Arrive(Some(r))), more);
            && ch in t.clients && At(t.tables.chans, ch).sent == [r]
            && !t.clients[ch].phase.TimedOut?
            && (if t.clients[ch].phase.Returned? then t.clients[ch].phase.receipt == r
                else At(t.tables.chans, ch).slot == Some(r))
  {
    ReachableInv(s);
    ArrivalAnswers(s, r, ch);
    NextKeepsInv(s, Arrive(Some(r)));
    AnswerStays(Next(s, Arrive(Some(r))), r, more, ch);
  }

  /**
   * Which receipts answer a queued wait: one that asked by transaction hash, those with its hash there; one that asked
   * by receipt hash, those with its hash there, and no others. It stays queued through the rest.
   */
  lemma QueuedWaitFate(s: System, r: Receipt, ch: ChanId)
    requires Reachable(s) && s.inbox.None? && ch in s.clients && Queued(s, ch)
    ensures var t, c := Next(s, Arrive(Some(r))), s.clients[ch];
            var mine := if c.kind == ByTxHash then r.txHash == c.hash else r.rHash == c.hash;
            && t.clients == s.clients
            && (Answered(t, ch) <==> mine) && (Queued(t, ch) <==> !mine)
  {
    ReachableInv(s);
    assert FateInv(s, ch) && ChannelInv(s, ch);
    ReceiptAnswers(s.tables, r, s.now, Asks(s, ch));
    ReceiptUnlists(s.tables, r, s.now);
  }

  /** A wait with a receipt in its channel can return it, and takes it out. */
  lemma TakeReturns(s: System, ch: ChanId)
    requires ch in s.clients && s.clients[ch].phase.Waiting? && At(s.tables.chans, ch).slot.Some?
    ensures var t := Next(s, Take(ch));
            t.clients[ch].phase == Returned(At(s.tables.chans, ch).slot.value) && At(t.tables.chans, ch).slot.None?
  {
  }

  /** When the timer fires the wait cancels, and then looks once more: it returns what is there, or times out. */
  lemma TimeoutLooksOnce(s: System, ch: ChanId)
    requires BoundedWait(s, ch) && s.inbox.None?
    ensures var t := Next(Next(Next(s, TimerFires(ch)), Hand(ch)), LastLook(ch));
            var slot := At(s.tables.chans, ch).slot;
            && ch in t.clients && t.clients[ch].phase == (if slot.Some? then Returned(slot.value) else TimedOut)
            && t.inbox == Some(Cancel(ch, s.clients[ch].kind, s.clients[ch].hash))
  {
  }

  /** What becomes of a registration is decided by the pending entry under its hash and nothing else. */
  lemma RegistrationFate(s: System)
    requires Reachable(s) && s.inbox.Some? && s.inbox.value.Register?
    ensures var t, req := Next(s, Serve), s.inbox.value;
            && req.ch in t.clients
            && (req.ch in t.lost <==> Expired(s.tables, req.hash, s.now))
            && (Queued(t, req.ch) <==> req.hash !in s.tables.pending)
            && (Answered(t, req.ch) <==> req.hash in s.tables.pending && !Expired(s.tables, req.hash, s.now))
  {
    ReachableInv(s);
    assert FateInv(s, s.inbox.value.ch) && ChannelInv(s, s.inbox.value.ch);
    RegisterLists(s.tables, s.inbox.value, s.now);
  }

  /** A registration uses up the pending entry under its hash, expired or not, and leaves the others alone. */
  lemma RegistrationUsesUp(s: System)
    requires s.inbox.Some? && s.inbox.value.Register?
    ensures var before, after, h := s.tables.pending, Next(s, Serve).tables.pending, s.inbox.value.hash;
            && h !in after
            && forall g :: g != h ==> (g in after <==> g in before) && (g in before ==> after[g] == before[g])
  {
  }

  /** No receipt with this transaction hash comes. */
  predicate NoReceipt(steps: seq<Step>, h: Hash) {
    forall i :: 0 <= i < |steps| && steps[i].Arrive? && steps[i].receipt.Some? ==> steps[i].receipt.value.txHash != h
  }

  lemma NoEntryStep(s: System, step: Step, h: Hash)
    requires h !in s.tables.pending && NoReceipt([step], h)
    ensures h !in Next(s, step).tables.pending
  {
    assert [step][0] == step;
    if step.Arrive? && step.receipt.Some? {
      var r := step.receipt.value;
      assert Pass(Pass(s.tables, r.txHash, ByTxHash, r), r.rHash, ByReceiptHash, r).pending == s.tables.pending;
    }
  }

  lemma {:induction false} NoEntry(s: System, steps: seq<Step>, h: Hash)
    requires h !in s.tables.pending && NoReceipt(steps, h)
    ensures h !in RunFrom(s, steps).tables.pending
  {
    if steps != [] {
      NoEntry(s, steps[..|steps| - 1], h);
      NoEntryStep(RunFrom(s, steps[..|steps| - 1]), steps[|steps| - 1], h);
    }
  }

  lemma QueuedWithoutEntry(s: System)
    requires Inv(s) && s.inbox.Some? && s.inbox.value.Register? && s.inbox.value.hash !in s.tables.pending
    ensures var t, ch := Next(s, Serve), s.inbox.value.ch; ch in t.clients && Queued(t, ch) && !Answered(t, ch)
  {
    assert FateInv(s, s.inbox.value.ch) && ChannelInv(s, s.inbox.value.ch);
    RegisterLists(s.tables, s.inbox.value, s.now);
  }

  /**
   * So one receipt answers one early registration: the next for the hash is queued, if no other receipt for it came.
   */
  lemma NextRegistrationIsQueued(s: System, more: seq<Step>)
    requires Reachable(s) && s.inbox.Some? && s.inbox.value.Register? && NoReceipt(more, s.inbox.value.hash)
    requires var t := RunFrom(Next(s, Serve), more);
             t.inbox.Some? && t.inbox.value.Register? && t.inbox.value.hash == s.inbox.value.hash
    ensures var t := RunFrom(Next(s, Serve), more);
            var u := Next(t, Serve);
            t.inbox.value.ch in u.clients && Queued(u, t.inbox.value.ch) && !Answered(u, t.inbox.value.ch)
  {
    var u := Next(s, Serve);
    RegistrationUsesUp(s);
    NoEntry(u, more, s.inbox.value.hash);
    ReachableInv(s);
    NextKeepsInv(s, Serve);
    RunKeepsInv(u, more);
    hide Inv, RunFrom;
    QueuedWithoutEntry(RunFrom(u, more));
  }

  /** A lost registration stays lost: no receipt ever reaches it, and without a timer the wait never ends. */
  lemma LostIsForever(s: System, more: seq<Step>, ch: ChanId)
    requires Reachable(s) && ch in s.lost
    ensures var t := RunFrom(s, more);
            && ch in t.clients && At(t.tables.chans, ch).sent == [] && !Queued(t, ch) && !t.clients[ch].phase.Returned?
            && (!t.clients[ch].bounded ==> t.clients[ch].phase.Waiting?)
  {
    ReachableInv(s);
    RunExtends(s, more, ch);
    assert FateInv(RunFrom(s, more), ch) && ChannelInv(RunFrom(s, more), ch);
  }

  // ----- Runs put together -----

  lemma {:induction false} RunConcat(s: System, a: seq<Step>, b: seq<Step>)
    ensures RunFrom(s, a + b) == RunFrom(RunFrom(s, a), b)
  {
    if b == [] {
      assert a + b == a;
    } else {
      RunConcat(s, a, b[..|b| - 1]);
      assert (a + b)[..|a + b| - 1] == a + b[..|b| - 1];
    }
  }

  lemma RunOne(s: System, a: Step)
    ensures RunFrom(s, [a]) == Next(s, a)
  {
    assert [a][..0] == [];
  }

  lemma RunTwo(s: System, a: Step, b: Step)
    ensures RunFrom(s, [a, b]) == Next(Next(s, a), b)
  {
    RunOne(s, a);
    assert [a, b][..1] == [a];
  }

  lemma ArriveIs(s: System, r: Receipt)
    requires s.inbox.None?
    ensures Next(s, Arrive(Some(r))) == s.(tables := OnReceipt(s.tables, r, s.now))
  {
  }

  /** A wait is called and its registration acted on. */
  function Enter(ch: ChanId, kind: Kind, hash: Hash, bounded: bool): seq<Step> {
    [Call(ch, kind, hash, bounded), Hand(ch), Serve]
  }

  lemma RunEnter(s: System, ch: ChanId, kind: Kind, hash: Hash, bounded: bool)
    ensures RunFrom(s, Enter(ch, kind, hash, bounded))
         == Next(Next(Next(s, Call(ch, kind, hash, bounded)), Hand(ch)), Serve)
  {
    var steps := Enter(ch, kind, hash, bounded);
    RunTwo(s, steps[0], steps[1]);
    assert steps[..2] == [steps[0], steps[1]];
  }

  lemma EnterIs(s: System, ch: ChanId, kind: Kind, hash: Hash, bounded: bool)
    requires ch !in s.clients && s.inbox.None?
    ensures var t := RunFrom(s, Enter(ch, kind, hash, bounded));
            && t.clients == s.clients[ch := Client(kind, hash, bounded, Waiting)] && t.inbox.None? && t.now == s.now
            && t.tables == OnRegister(s.tables.(chans := s.tables.chans[ch := Chan(None, [], 0)]),
                                      Register(ch, kind, hash), s.now)
            && t.lost == (if Expired(s.tables, hash, s.now) then s.lost + {ch} else s.lost)
            && (t.errors, t.arrived, t.strayed) == (s.errors, s.arrived, s.strayed)
  {
    hide OnRegister, RunFrom, Enter;
    RunEnter(s, ch, kind, hash, bounded);
  }

  /** A receipt nobody waits for, past its minute. */
  lemma Forgotten(r: Receipt)
    ensures var s := RunFrom(INIT, [Arrive(Some(r)), Elapse(61)]);
            s.clients == map[] && s.inbox.None? && Expired(s.tables, r.txHash, s.now)
  {
    RunTwo(INIT, Arrive(Some(r)), Elapse(61));
    hide RunFrom;
    ArriveIs(INIT, r);
  }

  /** The loss happens: a receipt arrives, outlives its minute uncleaned, and a wait for it registers. */
  lemma LossIsReachable(r: Receipt, kind: Kind, bounded: bool)
    ensures 0 in RunFrom(INIT, [Arrive(Some(r)), Elapse(61)] + Enter(0, kind, r.txHash, bounded)).lost
  {
    hide RunFrom, Enter, Expired;
    var early := [Arrive(Some(r)), Elapse(61)];
    Forgotten(r);
    RunConcat(INIT, early, Enter(0, kind, r.txHash, bounded));
    EnterIs(RunFrom(INIT, early), 0, kind, r.txHash, bounded);
  }

  /**
   * A registration taken right after a cleanup is not lost: only entries that run out between two cleanups can do
   * that.
   */
  lemma CleanupPreventsLoss(s: System, ch: ChanId)
    requires Reachable(s) && s.inbox.None? && ch in s.clients && s.clients[ch].phase.Registering?
    ensures var t := Next(Next(Next(s, Cleanup), Hand(ch)), Serve);
            ch in t.clients && ch !in t.lost && (Answered(t, ch) || Queued(t, ch))
  {
    ReachableInv(s);
    var u := Next(s, Cleanup);
    NextKeepsInv(s, Cleanup);
    NextKeepsInv(u, Hand(ch));
    NextKeepsInv(Next(u, Hand(ch)), Serve);
    var t := Next(Next(u, Hand(ch)), Serve);
    assert FateInv(u, ch) && FateInv(t, ch);
    assert !Expired(u.tables, s.clients[ch].hash, s.now);
  }

  // ----- What a wait leaves behind -----

  lemma FailedIsNotServed(s: System, step: Step, ch: ChanId)
    requires InboxInv(s) && ch in s.clients && s.clients[ch].phase.TxFailed? && !step.Arrive?
    ensures var t := Next(s, step);
            ch in t.clients && t.clients[ch] == s.clients[ch] && At(t.tables.chans, ch) == At(s.tables.chans, ch)
  {
  }

  /** Nothing is put into or taken from the channel of a wait that a transaction error has ended. */
  lemma FailedSlotStays(s: System, step: Step, ch: ChanId)
    requires Inv(s) && ch in s.clients && s.clients[ch].phase.TxFailed?
    ensures var t := Next(s, step);
            ch in t.clients && t.clients[ch] == s.clients[ch] && At(t.tables.chans, ch) == At(s.tables.chans, ch)
  {
    if !step.Arrive? {
      FailedIsNotServed(s, step, ch);
    } else if s.inbox.None? && step.receipt.Some? {
      assert FateInv(s, ch);
      ReceiptAnswers(s.tables, step.receipt.value, s.now, Asks(s, ch));
      ArriveIs(s, step.receipt.value);
      hide Next;
    }
  }

  lemma {:induction false} FailedSlotStaysForever(s: System, more: seq<Step>, ch: ChanId)
    requires Inv(s) && ch in s.clients && s.clients[ch].phase.TxFailed?
    ensures var t := RunFrom(s, more);
            ch in t.clients && t.clients[ch].phase.TxFailed? && At(t.tables.chans, ch) == At(s.tables.chans, ch)
  {
    if more != [] {
      FailedSlotStaysForever(s, more[..|more| - 1], ch);
      RunKeepsInv(s, more[..|more| - 1]);
      FailedSlotStays(RunFrom(s, more[..|more| - 1]), more[|more| - 1], ch);
    }
  }

  /**
   * A wait that a transaction error ends does not look again. Once the router takes its cancel it has ended, in every
   * continuation, and leaves a receipt in its channel exactly when one is there at that moment.
   */
  lemma TxErrorStrandsIff(s: System, more: seq<Step>, ch: ChanId)
    requires Reachable(s) && s.inbox.None? && ch in s.clients && s.clients[ch].phase == Cancelling(false)
    ensures var t := RunFrom(Next(s, Hand(ch)), more);
            && ch in t.clients && t.clients[ch].phase.TxFailed?
            && (At(t.tables.chans, ch).slot.Some? <==> At(s.tables.chans, ch).slot.Some?)
  {
    ReachableInv(s);
    NextKeepsInv(s, Hand(ch));
    FailedSlotStaysForever(Next(s, Hand(ch)), more, ch);
  }

  /** Every other way out leaves the channel empty: a wait that has ended holds a receipt only if an error ended it. */
  lemma OtherWaysOutLeaveNothing(s: System, ch: ChanId)
    requires Reachable(s) && ch in s.clients
    ensures s.clients[ch].phase.Returned? || s.clients[ch].phase.TimedOut? ==> At(s.tables.chans, ch).slot.None?
    ensures s.clients[ch].phase.TxFailed? ==> (At(s.tables.chans, ch).slot.Some? <==> Answered(s, ch))
  {
    ReachableInv(s);
    assert ChannelInv(s, ch) && FateInv(s, ch);
  }

  /** One wait, queued, and its receipt. */
  lemma Delivered(r: Receipt)
    ensures var s := RunFrom(INIT, Enter(0, ByTxHash, r.txHash, true));
            && BoundedWait(s, 0) && s.clients[0].hash == r.txHash && s.inbox.None? && s.errors.None?
            && At(OnReceipt(s.tables, r, s.now).chans, 0).slot == Some(r)
  {
    hide RunFrom, Enter;
    EnterIs(INIT, 0, ByTxHash, r.txHash, true);
    var w, t := Waiter(0, ByTxHash, r.txHash), RunFrom(INIT, Enter(0, ByTxHash, r.txHash, true)).tables;
    assert t.waiters == map[r.txHash := [w]] by { assert [] + [w] == [w]; }
    assert Listed(t.waiters, w);
    ReceiptAnswers(t, r, INIT.now, w);
  }

  /** A wait reads its own error. */
  lemma ErrorTaken(s: System, ch: ChanId)
    requires BoundedWait(s, ch) && s.errors.None?
    ensures var t := RunFrom(s, [ErrorArrives(s.clients[ch].hash), TakeError(ch)]);
            && t.tables == s.tables && t.inbox == s.inbox && t.now == s.now
            && ch in t.clients && t.clients[ch].phase == Cancelling(false)
  {
    RunTwo(s, ErrorArrives(s.clients[ch].hash), TakeError(ch));
    hide RunFrom;
  }

  /** The receipt comes after the error, while the wait is still queued. */
  lemma StrandedWhileQueued(r: Receipt)
    ensures var error := [ErrorArrives(r.txHash), TakeError(0)];
            var s := RunFrom(INIT, Enter(0, ByTxHash, r.txHash, true) + error + [Arrive(Some(r))]);
            && s.inbox.None? && 0 in s.clients && s.clients[0].phase == Cancelling(false)
            && At(s.tables.chans, 0).slot == Some(r)
  {
    var enter, error := Enter(0, ByTxHash, r.txHash, true), [ErrorArrives(r.txHash), TakeError(0)];
    hide RunFrom, Next, OnReceipt, Enter;
    Delivered(r);
    ErrorTaken(RunFrom(INIT, enter), 0);
    RunConcat(INIT, enter, error);
    RunConcat(INIT, enter + error, [Arrive(Some(r))]);
    RunOne(RunFrom(INIT, enter + error), Arrive(Some(r)));
    ArriveIs(RunFrom(INIT, enter + error), r);
  }

  /** The receipt comes first, and the wait's select takes the error. */
  lemma StrandedInSlot(r: Receipt)
    ensures var error := [ErrorArrives(r.txHash), TakeError(0)];
            var s := RunFrom(INIT, Enter(0, ByTxHash, r.txHash, true) + [Arrive(Some(r))] + error);
            && s.inbox.None? && 0 in s.clients && s.clients[0].phase == Cancelling(false)
            && At(s.tables.chans, 0).slot == Some(r)
  {
    var enter, error := Enter(0, ByTxHash, r.txHash, true), [ErrorArrives(r.txHash), TakeError(0)];
    hide RunFrom, Next, OnReceipt, Enter;
    Delivered(r);
    RunConcat(INIT, enter, [Arrive(Some(r))]);
    RunOne(RunFrom(INIT, enter), Arrive(Some(r)));
    ArriveIs(RunFrom(INIT, enter), r);
    ErrorTaken(RunFrom(INIT, enter + [Arrive(Some(r))]), 0);
    RunConcat(INIT, enter + [Arrive(Some(r))], error);
  }

  // ----- Transaction errors -----

  predicate EndedByError(c: Client, h: Hash) {
    c.hash == h && (c.phase == Cancelling(false) || c.phase.TxFailed?)
  }

  ghost function ErrorEnded(s: System, h: Hash): set<ChanId> {
    set ch | ch in s.clients && EndedByError(s.clients[ch], h)
  }

  /**
   * Every error for `h` that came in ended a wait for `h`, was read by a wait for another hash, or is in the channel.
   */
  ghost predicate ErrorInv(s: System, h: Hash) {
    s.arrived[h] == |ErrorEnded(s, h)| + s.strayed[h] + One(s.errors == Some(h))
  }

  lemma ReadErrorKeepsErrors(s: System, ch: ChanId, h: Hash)
    requires BoundedWait(s, ch) && s.errors.Some? && ErrorInv(s, h)
    ensures ErrorInv(ReadError(s, ch), h)
  {
    var t := ReadError(s, ch);
    if s.errors.value == s.clients[ch].hash == h {
      assert ErrorEnded(t, h) == ErrorEnded(s, h) + {ch} && ch !in ErrorEnded(s, h);
    } else {
      assert ErrorEnded(t, h) == ErrorEnded(s, h);
    }
  }

  /** No other step ends a wait by error, or brings one back. */
  lemma OthersKeepEnded(s: System, step: Step, h: Hash)
    requires !step.TakeError?
    ensures ErrorEnded(Next(s, step), h) == ErrorEnded(s, h)
  {
    hide OnRegister, OnReceipt, OnCancel, OnCleanup;
    var t := Next(s, step);
    forall ch ensures ch in ErrorEnded(t, h) <==> ch in ErrorEnded(s, h) {}
  }

  lemma NextKeepsErrors(s: System, step: Step, h: Hash)
    requires ErrorInv(s, h)
    ensures ErrorInv(Next(s, step), h)
  {
    if step.TakeError? {
      if BoundedWait(s, step.ch) && s.errors.Some? { ReadErrorKeepsErrors(s, step.ch, h); }
    } else {
      OthersKeepEnded(s, step, h);
      hide ErrorEnded, OnRegister, OnReceipt, OnCancel, OnCleanup;
    }
  }

  lemma {:induction false} RunKeepsErrors(s: System, steps: seq<Step>, h: Hash)
    requires ErrorInv(s, h)
    ensures ErrorInv(RunFrom(s, steps), h)
  {
    if steps != [] {
      RunKeepsErrors(s, steps[..|steps| - 1], h);
      NextKeepsErrors(RunFrom(s, steps[..|steps| - 1]), steps[|steps| - 1], h);
    }
  }

  /**
   * Where the errors go, in every run: each error for `h` ended one wait for `h`, or strayed, or is still to be read.
   * So all of them were lost on the waits for `h` exactly when each was read by a wait for another hash.
   */
  lemma ErrorsAccounted(s: System, h: Hash)
    requires Reachable(s)
    ensures s.arrived[h] == |ErrorEnded(s, h)| + s.strayed[h] + One(s.errors == Some(h))
    ensures s.arrived[h] == s.strayed[h] <==> ErrorEnded(s, h) == {} && s.errors != Some(h)
  {
    var steps :| s == RunFrom(INIT, steps);
    assert ErrorEnded(INIT, h) == {};
    RunKeepsErrors(INIT, steps, h);
  }

  /** What becomes of an error is decided by who reads it: its own wait ends, and any other lets it drop. */
  lemma ReadErrorFate(s: System, ch: ChanId)
    requires BoundedWait(s, ch) && s.errors.Some?
    ensures var t, h := Next(s, TakeError(ch)), s.errors.value;
            && t.errors.None?
            && (t.clients[ch].phase == Cancelling(false) <==> s.clients[ch].hash == h)
            && (t.strayed[h] == s.strayed[h] + 1 <==> s.clients[ch].hash != h)
            && (s.clients[ch].hash != h ==> t.clients == s.clients)
  {
  }

  lemma ErrorsGrow(s: System, step: Step, h: Hash)
    ensures s.strayed[h] <= Next(s, step).strayed[h] && s.arrived[h] <= Next(s, step).arrived[h]
  {
  }

  lemma {:induction false} ErrorsOnlyGrow(s: System, more: seq<Step>, h: Hash)
    ensures s.strayed[h] <= RunFrom(s, more).strayed[h] && s.arrived[h] <= RunFrom(s, more).arrived[h]
  {
    if more != [] {
      ErrorsOnlyGrow(s, more[..|more| - 1], h);
      hide HandOver, ServeRequest, Drain, OnReceipt, OnCleanup;
      ErrorsGrow(RunFrom(s, more[..|more| - 1]), more[|more| - 1], h);
    }
  }

  /** A strayed error does not come back: until another one for `h` comes in, no wait for `h` ends by error. */
  lemma StrayedIsLost(s: System, more: seq<Step>, h: Hash)
    requires Reachable(s) && s.arrived[h] == s.strayed[h] && RunFrom(s, more).arrived[h] == s.arrived[h]
    ensures ErrorEnded(RunFrom(s, more), h) == {}
  {
    ErrorsAccounted(s, h);
    RunKeepsErrors(s, more, h);
    ErrorsOnlyGrow(s, more, h);
  }

  /** A wait reads the error of another. */
  lemma ErrorDropped(s: System, ch: ChanId, h: Hash)
    requires BoundedWait(s, ch) && s.errors.None? && s.clients[ch].hash != h
    ensures RunFrom(s, [ErrorArrives(h), TakeError(ch)])
         == s.(arrived := s.arrived + multiset{h}, strayed := s.strayed + multiset{h})
  {
    RunTwo(s, ErrorArrives(h), TakeError(ch));
    hide RunFrom;
  }

  /** And it happens: a wait for `g` reads the error for `h`, and a wait for `h` waits on. */
  lemma ErrorStrays(g: Hash, h: Hash)
    requires g != h
    ensures var enter := Enter(0, ByTxHash, g, true) + Enter(1, ByTxHash, h, true);
            var s := RunFrom(INIT, enter + [ErrorArrives(h), TakeError(0)]);
            BoundedWait(s, 1) && s.clients[1].hash == h && s.errors.None? && s.arrived[h] == s.strayed[h] == 1
  {
    hide RunFrom, Enter, OnRegister;
    var first, second := Enter(0, ByTxHash, g, true), Enter(1, ByTxHash, h, true);
    EnterIs(INIT, 0, ByTxHash, g, true);
    EnterIs(RunFrom(INIT, first), 1, ByTxHash, h, true);
    RunConcat(INIT, first, second);
    RunConcat(INIT, first + second, [ErrorArrives(h), TakeError(0)]);
    ErrorDropped(RunFrom(INIT, first + second), 0, h);
  }

  // ----- Receipts that come early -----

  /** No step on the way brings another receipt for the hash, or serves a registration for it. */
  ghost predicate Undisturbed(s: System, more: seq<Step>, h: Hash) {
    more == [] ||
    var t, step := RunFrom(s, more[..|more| - 1]), more[|more| - 1];
    && Undisturbed(s, more[..|more| - 1], h)
    && !(step.Arrive? && step.receipt.Some? && step.receipt.value.txHash == h)
    && !(step.Serve? && t.inbox.Some? && t.inbox.value.Register? && t.inbox.value.hash == h)
  }

  /** An unexpired entry outlasts any step that neither replaces nor serves it; the clock never runs back. */
  lemma EntryStays(s: System, step: Step, h: Hash)
    requires h in s.tables.pending && Undisturbed(s, [step], h) && Next(s, step).now <= s.tables.pending[h].expiresAt
    ensures h in Next(s, step).tables.pending && Next(s, step).tables.pending[h] == s.tables.pending[h]
  {
    assert [step][..0] == [];
    if step.Arrive? && step.receipt.Some? {
      var r := step.receipt.value;
      assert Pass(Pass(s.tables, r.txHash, ByTxHash, r), r.rHash, ByReceiptHash, r).pending == s.tables.pending;
    }
  }

  lemma {:induction false} EntryOutlasts(s: System, more: seq<Step>, h: Hash)
    requires h in s.tables.pending && Undisturbed(s, more, h) && RunFrom(s, more).now <= s.tables.pending[h].expiresAt
    ensures var t := RunFrom(s, more);
            h in t.tables.pending && t.tables.pending[h] == s.tables.pending[h] && s.now <= t.now
  {
    if more != [] {
      var t, step := RunFrom(s, more[..|more| - 1]), more[|more| - 1];
      assert Next(t, step).now >= t.now;
      EntryOutlasts(s, more[..|more| - 1], h);
      assert [step][..0] == [] && Undisturbed(t, [], h);
      EntryStays(t, step, h);
    }
  }

  /**
   * A receipt that came first is kept for its minute: the next registration for its hash within it is answered with
   * it.
   */
  lemma EarlyReceiptAnswers(s: System, r: Receipt, more: seq<Step>)
    requires Reachable(s) && s.inbox.None? && Undisturbed(Next(s, Arrive(Some(r))), more, r.txHash)
    requires var t := RunFrom(Next(s, Arrive(Some(r))), more);
             t.now <= s.now + 60 && t.inbox.Some? && t.inbox.value.Register? && t.inbox.value.hash == r.txHash
    ensures var t := RunFrom(Next(s, Arrive(Some(r))), more);
            At(Next(t, Serve).tables.chans, t.inbox.value.ch).sent == [r]
  {
    var u := Next(s, Arrive(Some(r)));
    var t := RunFrom(u, more);
    ReachableInv(s);
    NextKeepsInv(s, Arrive(Some(r)));
    RunKeepsInv(u, more);
    EntryOutlasts(u, more, r.txHash);
    var ch := t.inbox.value.ch;
    assert FateInv(t, ch) && ChannelInv(t, ch);
    assert At(t.tables.chans, ch) == Chan(None, [], 0);
  }
}
