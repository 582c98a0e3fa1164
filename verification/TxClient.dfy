/** The USB transmitter client: connect, hand over, transmit. Its environment within one render is a
    value; everything else that can happen to it is an action between renders. */
module TxClient {
  import opened Options

  datatype Invite = Invite(id: nat, hasAddress: bool)

  datatype Status =
    | Initial
    | WaitingForUsbAccessory
    | WaitingForInvite
    | Invited(invite: Invite)
    | Connecting
    | TransmitterReadyForPickup
    | Transmitting

  datatype Error = CtrlServer(code: nat) | UsbGadgetError(code: nat) | Connect(code: nat) | UnexpectedState

  type State = Result<Status, Error>

  /** A connection attempt: under way, or resolved by the last sleep. */
  datatype Attempt = InFlight | Resolved(outcome: Result<(), nat>)

  datatype Usb = UsbFailed(code: nat) | NoSession | Session(id: nat)

  /** What one render sees: the clock, the USB gadget, whether the control server can be
      started, and the invites a new one has at once. */
  datatype Env = Env(now: nat, usb: Usb, ctrl: Result<seq<Invite>, nat>)

  const RESTART_DELAY: nat := 1000

  /** The client's fields; `guards` counts the teardown guards that are alive. */
  datatype Client = Client(
    lastSession: Option<nat>, ctrlServer: Option<seq<Invite>>,
    pendingConnect: Option<Attempt>, pendingError: Option<nat>, pendingTransmitter: bool,
    transmitting: bool, guards: nat)

  /** The client under its reconciler. */
  datatype Tx = Tx(client: Client, state: State, update: nat)

  const NEW_CLIENT := Client(None, None, None, None, false, false, 0)

  function NewTx(now: nat): Tx {
    Tx(NEW_CLIENT, Ok(Initial), now)
  }

  // One render.

  /** Picks a resolved attempt up. */
  function PickUp(c: Client): Client {
    match c.pendingConnect
    case Some(Resolved(Ok(_))) => c.(pendingConnect := None, pendingTransmitter := true)
    case Some(Resolved(Err(e))) => c.(pendingConnect := None, pendingError := Some(e))
    case _ => c
  }

  /** The last step: the status follows from what is pending. */
  function Settled(c: Client): Status {
    if c.pendingTransmitter then TransmitterReadyForPickup
    else if c.pendingConnect.Some? then Connecting
    else if c.transmitting then Transmitting
    else WaitingForInvite
  }

  /** The part of `render` that runs with a session and a control server. */
  function WithServer(c: Client, status: Status, invites: seq<Invite>): (Client, State) {
    var popped := c.(ctrlServer := Some(if invites == [] then [] else invites[1..]));
    if invites != [] && status == WaitingForInvite then (popped, Ok(Invited(invites[0])))
    else if status.Invited? then
      if status.invite.hasAddress then (popped.(pendingConnect := Some(InFlight)), Ok(Connecting))
      else (popped, Err(UnexpectedState))
    else (popped, Ok(Settled(c)))
  }

  /** The control server belongs to one session. */
  function ForSession(c: Client, id: nat): Client {
    if c.lastSession == Some(id) then c else c.(ctrlServer := None, lastSession := Some(id))
  }

  function InSession(c: Client, status: Status, env: Env): (Client, State) {
    match c.ctrlServer
    case Some(invites) => WithServer(c, status, invites)
    case None =>
      match env.ctrl
      case Ok(invites) => WithServer(c, status, invites)
      case Err(code) => (c, Err(CtrlServer(code)))
  }

  function Render(c: Client, prev: State, update: nat, env: Env): (Client, State) {
    if prev.Err? then
      if env.now - update > RESTART_DELAY then (c, Ok(Initial)) else (c, prev)
    else if env.usb.UsbFailed? then
      (c, Err(UsbGadgetError(env.usb.code)))
    else
      var c1 := PickUp(c);
      if c1.pendingError.Some? then (c1.(pendingError := None), Err(Connect(c1.pendingError.value)))
      else if env.usb.NoSession? then (c1.(ctrlServer := None), Ok(WaitingForUsbAccessory))
      else InSession(ForSession(c1, env.usb.id), prev.value, env)
  }

  function OnUpdate(c: Client, new_: State): Client {
    if new_.Err? then c.(ctrlServer := None, pendingConnect := None, lastSession := None) else c
  }

  /** One turn of the reconciler's loop. */
  function Turn(t: Tx, env: Env): Tx {
    var (c, next) := Render(t.client, t.state, t.update, env);
    if next != t.state then Tx(OnUpdate(c, next), next, env.now) else t.(client := c)
  }

  // The loop ends.

  /** The status that a render with a session heads for. */
  function Target(c: Client, env: Env): Status {
    if env.usb.NoSession? then WaitingForUsbAccessory else Settled(PickUp(c))
  }

  /** How many more turns can change the state. */
  function Rank(t: Tx, env: Env): (n: nat)
    ensures n <= 6
  {
    match t.state
    case Err(_) => if env.now - t.update > RESTART_DELAY then 6 else 0
    case Ok(Invited(_)) => 3
    case Ok(WaitingForInvite) => 4
    case Ok(s) =>
      if s == Target(t.client, env) then 1
      else if Target(t.client, env) == WaitingForInvite then 5
      else 2
  }

  lemma TurnRanks(t: Tx, env: Env)
    requires Turn(t, env).state != t.state
    ensures Rank(Turn(t, env), env) < Rank(t, env)
  {
  }

  function Reconcile(t: Tx, env: Env): Tx
    decreases Rank(t, env)
  {
    var t' := Turn(t, env);
    if t'.state == t.state then t' else TurnRanks(t, env); Reconcile(t', env)
  }

  /** A further turn would not change the state. */
  predicate Stable(t: Tx, env: Env) {
    Turn(t, env).state == t.state
  }

  /** A render in a session that keeps the status keeps it again. */
  lemma InSessionAgain(c: Client, status: Status, env: Env)
    requires InSession(c, status, env).1 == Ok(status)
    requires c.pendingConnect in {None, Some(InFlight)}
    ensures var c' := InSession(c, status, env).0;
            && InSession(c', status, env).1 == Ok(status)
            && PickUp(c') == c' && c'.pendingError == c.pendingError && c'.lastSession == c.lastSession
  {
  }

  lemma PickUpDone(c: Client)
    ensures PickUp(c).pendingConnect in {None, Some(InFlight)}
  {
  }

  lemma StableStays(t: Tx, env: Env)
    requires Stable(t, env)
    ensures Stable(Turn(t, env), env) && Turn(t, env).state == t.state
  {
    hide InSession, PickUp;
    var c1 := PickUp(t.client);
    PickUpDone(t.client);
    if t.state.Ok? && env.usb.Session? && c1.pendingError == None {
      InSessionAgain(ForSession(c1, env.usb.id), t.state.value, env);
    } else if t.state.Ok? && env.usb.NoSession? && c1.pendingError == None {
      PickUpAgain(t.client);
    }
  }

  lemma PickUpAgain(c: Client)
    ensures PickUp(PickUp(c)) == PickUp(c)
    ensures PickUp(PickUp(c).(ctrlServer := None)) == PickUp(c).(ctrlServer := None)
  {
  }

  lemma {:induction false} ReconcileStable(t: Tx, env: Env)
    ensures Stable(Reconcile(t, env), env)
    decreases Rank(t, env)
  {
    if Stable(t, env) {
      StableStays(t, env);
    } else {
      TurnRanks(t, env);
      ReconcileStable(Turn(t, env), env);
    }
  }

  /** The number of renders of one reconcile call. */
  function Renders(t: Tx, env: Env): (n: nat)
    ensures n <= Rank(t, env) + 1
    decreases Rank(t, env)
  {
    if Stable(t, env) then 1 else TurnRanks(t, env); 1 + Renders(Turn(t, env), env)
  }

  // Everything that can happen to it.

  /** A render reads each part of its environment once, so what happens to the client during a render
      might as well happen before or after it. */
  datatype Action =
    | Rendered(env: Env)
    /** A whole reconcile call during which the environment stands still. */
    | Reconciled(env: Env)
    | PopTransmitter
    | DropGuard
    | Resolve(outcome: Result<(), nat>)
    | InviteArrives(invite: Invite)
    | ForceUnlock

  /** `pop_transmitter`: hands the transmitter over with a guard that is now alive. */
  function Pop(t: Tx): Tx {
    if t.client.pendingTransmitter then
      t.(client := t.client.(pendingTransmitter := false, transmitting := true, guards := t.client.guards + 1))
    else t
  }

  predicate Enabled(t: Tx, a: Action) {
    match a
    case DropGuard => t.client.guards > 0
    case Resolve(_) => t.client.pendingConnect == Some(InFlight)
    case InviteArrives(_) => t.client.ctrlServer.Some?
    case _ => true
  }

  function Apply(t: Tx, a: Action): Tx
    requires Enabled(t, a)
  {
    match a
    case Rendered(env) => Turn(t, env)
    case Reconciled(env) => Reconcile(t, env)
    case PopTransmitter => Pop(t)
    case DropGuard => t.(client := t.client.(guards := t.client.guards - 1, transmitting := false))
    case Resolve(outcome) => t.(client := t.client.(pendingConnect := Some(Resolved(outcome))))
    case InviteArrives(invite) => t.(client := t.client.(ctrlServer := Some(t.client.ctrlServer.value + [invite])))
    case ForceUnlock => t.(client := t.client.(transmitting := false))
  }

  /** A run: every action is enabled where it happens. */
  predicate IsRun(t: Tx, actions: seq<Action>)
    decreases |actions|
  {
    actions == [] || (Enabled(t, actions[0]) && IsRun(Apply(t, actions[0]), actions[1..]))
  }

  function After(t: Tx, actions: seq<Action>): Tx
    requires IsRun(t, actions)
    decreases |actions|
  {
    if actions == [] then t else After(Apply(t, actions[0]), actions[1..])
  }

  function Owners(c: Client): nat {
    (if c.pendingConnect.Some? then 1 else 0) + (if c.pendingTransmitter then 1 else 0) + (if c.transmitting then 1 else 0)
  }

  /** At most one of attempt, waiting transmitter and raised flag; none before an invite is taken up. */
  predicate Exclusive(t: Tx) {
    && t.client.pendingError == None
    && Owners(t.client) <= 1
    && (t.state == Ok(WaitingForInvite) || (t.state.Ok? && t.state.value.Invited?) ==> Owners(t.client) == 0)
  }

  /** The flag stands for the one guard that is alive. */
  predicate Guarded(t: Tx) {
    t.client.guards == if t.client.transmitting then 1 else 0
  }

  lemma TurnExclusive(t: Tx, env: Env)
    requires Exclusive(t)
    ensures Exclusive(Turn(t, env))
    ensures Turn(t, env).client.guards == t.client.guards && Turn(t, env).client.transmitting == t.client.transmitting
  {
  }

  lemma {:induction false} ReconcileExclusive(t: Tx, env: Env)
    requires Exclusive(t)
    ensures Exclusive(Reconcile(t, env))
    ensures Reconcile(t, env).client.guards == t.client.guards
    ensures Reconcile(t, env).client.transmitting == t.client.transmitting
    decreases Rank(t, env)
  {
    hide Exclusive, Turn;
    TurnExclusive(t, env);
    if !Stable(t, env) {
      TurnRanks(t, env);
      ReconcileExclusive(Turn(t, env), env);
    }
  }

  lemma ApplyExclusive(t: Tx, a: Action)
    requires Exclusive(t) && Enabled(t, a)
    ensures Exclusive(Apply(t, a))
    ensures Guarded(t) && !a.ForceUnlock? ==> Guarded(Apply(t, a))
    ensures !a.PopTransmitter? ==> Apply(t, a).client.guards <= t.client.guards
  {
    hide Reconcile, Turn;
    if a.Reconciled? { ReconcileExclusive(t, a.env); }
    if a.Rendered? { TurnExclusive(t, a.env); }
  }

  /** No forced unlock of the run happens while a guard is alive. */
  predicate HarmlessUnlocks(t: Tx, actions: seq<Action>)
    requires IsRun(t, actions)
    decreases |actions|
  {
    actions == [] ||
    ((actions[0].ForceUnlock? ==> t.client.guards == 0) && HarmlessUnlocks(Apply(t, actions[0]), actions[1..]))
  }

  lemma {:induction false} RunExclusive(t: Tx, actions: seq<Action>)
    requires IsRun(t, actions) && Exclusive(t)
    ensures Exclusive(After(t, actions))
    ensures Guarded(t) && HarmlessUnlocks(t, actions) ==> Guarded(After(t, actions))
    decreases |actions|
  {
    hide Exclusive, Guarded, Apply, Enabled;
    if actions != [] {
      ApplyExclusive(t, actions[0]);
      if Guarded(t) && actions[0].ForceUnlock? && t.client.guards == 0 { HarmlessUnlock(t); }
      RunExclusive(Apply(t, actions[0]), actions[1..]);
    }
  }

  lemma HarmlessUnlock(t: Tx)
    requires Guarded(t)
    ensures Guarded(Apply(t, ForceUnlock)) <==> t.client.guards == 0
  {
  }

  lemma NewExclusive(now: nat)
    ensures Exclusive(NewTx(now)) && Guarded(NewTx(now))
  {
  }

  lemma ReadyMeansFlagDown(t: Tx)
    requires Exclusive(t)
    ensures t.client.pendingTransmitter ==> !t.client.transmitting
  {
  }

  /** Whenever a transmitter can be popped the transmitting flag is down: "already transmitting" is
      never found, in any run, even with the lock forced. */
  lemma NeverAlreadyTransmitting(now: nat, actions: seq<Action>)
    requires IsRun(NewTx(now), actions)
    ensures var c := After(NewTx(now), actions).client; c.pendingTransmitter ==> !c.transmitting
  {
    hide Reconcile, IsRun, After;
    RunExclusive(NewTx(now), actions);
  }

  /** In a run that never forces the lock under a live guard, at most one attempt, waiting transmitter
      or live guard exists. */
  lemma OneOwner(now: nat, actions: seq<Action>)
    requires IsRun(NewTx(now), actions) && HarmlessUnlocks(NewTx(now), actions)
    ensures var c := After(NewTx(now), actions).client;
            (if c.pendingConnect.Some? then 1 else 0) + (if c.pendingTransmitter then 1 else 0) + c.guards <= 1
  {
    hide Reconcile, IsRun, After, HarmlessUnlocks;
    RunExclusive(NewTx(now), actions);
  }

  /** A reconcile call in an environment that stands still is a run of renders. */
  lemma {:induction false} ReconcileByRenders(t: Tx, env: Env)
    ensures var run := seq(Renders(t, env), _ => Rendered(env));
            IsRun(t, run) && After(t, run) == Reconcile(t, env)
    decreases Rank(t, env)
  {
    hide Turn;
    var run := seq(Renders(t, env), _ => Rendered(env));
    if Stable(t, env) {
      RunStep(t, Rendered(env), []);
      assert run == [Rendered(env)] + [];
    } else {
      TurnRanks(t, env);
      var rest := seq(Renders(Turn(t, env), env), _ => Rendered(env));
      ReconcileByRenders(Turn(t, env), env);
      RunStep(t, Rendered(env), rest);
      assert run == [Rendered(env)] + rest;
    }
  }

  // Forcing the lock.

  /** The flag stands for the one live guard in every state of the run. */
  predicate AlwaysGuarded(t: Tx, actions: seq<Action>)
    requires IsRun(t, actions)
    decreases |actions|
  {
    Guarded(t) && (actions == [] || AlwaysGuarded(Apply(t, actions[0]), actions[1..]))
  }

  /** Over any run the flag keeps standing for the guard if and only if the lock is never forced while a
      guard is alive. */
  lemma {:induction false} OwnershipExactly(t: Tx, actions: seq<Action>)
    requires IsRun(t, actions) && Exclusive(t) && Guarded(t)
    ensures AlwaysGuarded(t, actions) <==> HarmlessUnlocks(t, actions)
    decreases |actions|
  {
    hide Exclusive, Guarded, Apply, Enabled;
    if actions != [] {
      var u := Apply(t, actions[0]);
      ApplyExclusive(t, actions[0]);
      if actions[0].ForceUnlock? { HarmlessUnlock(t); }
      if Guarded(u) {
        OwnershipExactly(u, actions[1..]);
      }
    }
  }

  lemma {:induction false} NoUnlockIsHarmless(t: Tx, actions: seq<Action>)
    requires IsRun(t, actions) && ForceUnlock !in actions
    ensures HarmlessUnlocks(t, actions)
    decreases |actions|
  {
    hide Apply, Enabled;
    if actions != [] {
      NoUnlockIsHarmless(Apply(t, actions[0]), actions[1..]);
    }
  }

  lemma RunStep(t: Tx, a: Action, rest: seq<Action>)
    requires Enabled(t, a) && IsRun(Apply(t, a), rest)
    ensures IsRun(t, [a] + rest) && After(t, [a] + rest) == After(Apply(t, a), rest)
  {
    assert ([a] + rest)[1..] == rest;
  }

  lemma {:induction false} RunThen(t: Tx, first: seq<Action>, second: seq<Action>)
    requires IsRun(t, first) && IsRun(After(t, first), second)
    ensures IsRun(t, first + second) && After(t, first + second) == After(After(t, first), second)
    decreases |first|
  {
    hide Apply, Enabled;
    if first == [] {
      assert first + second == second;
    } else {
      RunThen(Apply(t, first[0]), first[1..], second);
      RunStep(t, first[0], first[1..] + second);
      assert first + second == [first[0]] + (first[1..] + second);
    }
  }

  /** An invite, a connection attempt that succeeds, and the transmitter is handed over. */
  function Handover(invite: Invite, first: Env, second: Env, third: Env): seq<Action> {
    [InviteArrives(invite)] + ([Rendered(first)] + ([Rendered(second)]
    + ([Resolve(Ok(()))] + ([Rendered(third)] + ([PopTransmitter] + [])))))
  }

  /** A client that waits for an invite, with an idle control server in its session. */
  predicate Waits(t: Tx, session: nat) {
    && t.state == Ok(WaitingForInvite) && Exclusive(t)
    && t.client.lastSession == Some(session) && t.client.ctrlServer == Some([])
  }

  lemma InvitedTurn(t: Tx, session: nat, invite: Invite, env: Env)
    requires Waits(t, session) && env.usb == Session(session)
    ensures Turn(Apply(t, InviteArrives(invite)), env) == Tx(t.client, Ok(Invited(invite)), env.now)
  {
    var c := Apply(t, InviteArrives(invite)).client;
    assert t.client.ctrlServer.value + [invite] == [invite] && [invite][1..] == [];
    assert PickUp(c) == c && ForSession(c, session) == c;
  }

  /** From any waiting client a hand-over adds a guard and raises the flag, as long as the session lasts. */
  lemma HandoverEffect(t: Tx, session: nat, invite: Invite, first: Env, second: Env, third: Env)
    requires Waits(t, session) && invite.hasAddress
    requires first.usb == second.usb == third.usb == Session(session)
    ensures var run := Handover(invite, first, second, third);
            && IsRun(t, run) && ForceUnlock !in run
            && After(t, run) == Tx(t.client.(transmitting := true, guards := t.client.guards + 1),
                                   Ok(TransmitterReadyForPickup), third.now)
  {
    var t1 := Apply(t, InviteArrives(invite));
    var t2 := Tx(t.client, Ok(Invited(invite)), first.now);
    InvitedTurn(t, session, invite, first);
    var t3 := Tx(t.client.(pendingConnect := Some(InFlight)), Ok(Connecting), second.now);
    assert Turn(t2, second) == t3;
    var t4 := Apply(t3, Resolve(Ok(())));
    var t5 := Tx(t.client.(pendingTransmitter := true), Ok(TransmitterReadyForPickup), third.now);
    assert Turn(t4, third) == t5;
    hide Turn;
    RunStep(t5, PopTransmitter, []);
    RunStep(t4, Rendered(third), [PopTransmitter] + []);
    RunStep(t3, Resolve(Ok(())), [Rendered(third)] + ([PopTransmitter] + []));
    RunStep(t2, Rendered(second), [Resolve(Ok(()))] + ([Rendered(third)] + ([PopTransmitter] + [])));
    RunStep(t1, Rendered(first), [Rendered(second)] + ([Resolve(Ok(()))] + ([Rendered(third)] + ([PopTransmitter] + []))));
    RunStep(t, InviteArrives(invite), Handover(invite, first, second, third)[1..]);
    assert Handover(invite, first, second, third)[1..]
           == [Rendered(first)] + ([Rendered(second)] + ([Resolve(Ok(()))] + ([Rendered(third)] + ([PopTransmitter] + []))));
  }

  /** Nothing is pending, nothing is invited, and the flag is down. */
  predicate Quiet(t: Tx) {
    && Exclusive(t) && Owners(t.client) == 0
    && t.state != Ok(WaitingForInvite) && !(t.state.Ok? && t.state.value.Invited?)
  }

  /** An environment with a session and a control server that starts without invites. */
  predicate Calm(env: Env, session: nat) {
    env.usb == Session(session) && env.ctrl == Ok([])
  }

  /** In a new session a quiet client waits for an invite after one render. */
  lemma QuietWaits(t: Tx, env: Env, session: nat)
    requires Quiet(t) && t.state.Ok? && Calm(env, session) && t.client.lastSession != Some(session)
    ensures Waits(Turn(t, env), session)
    ensures Turn(t, env).client.guards == t.client.guards && Turn(t, env).update == env.now
    ensures Turn(t, env).client.transmitting == t.client.transmitting
  {
  }

  /** The restart out of an error, if there is one, and a new session. */
  function NewSession(t: Tx, env: Env): seq<Action> {
    (if t.state.Err? then [Rendered(env.(now := t.update + RESTART_DELAY + 1))] else []) + [Rendered(env)]
  }

  lemma NewSessionWaits(t: Tx, env: Env, session: nat)
    requires Quiet(t) && Calm(env, session) && t.client.lastSession != Some(session)
    ensures var run := NewSession(t, env);
            IsRun(t, run) && ForceUnlock !in run
            && Waits(After(t, run), session) && After(t, run).client.guards == t.client.guards
  {
    hide Turn, Quiet, Waits;
    if t.state.Err? {
      var late := env.(now := t.update + RESTART_DELAY + 1);
      RestartTurn(t, late);
      var u := Turn(t, late);
      QuietWaits(u, env, session);
      RunStep(u, Rendered(env), []);
      RunStep(t, Rendered(late), [Rendered(env)] + []);
      assert NewSession(t, env) == [Rendered(late)] + ([Rendered(env)] + []);
    } else {
      QuietWaits(t, env, session);
      RunStep(t, Rendered(env), []);
      assert NewSession(t, env) == [Rendered(env)] + [];
    }
  }

  lemma RestartTurn(t: Tx, env: Env)
    requires Quiet(t) && t.state.Err? && env.now - t.update > RESTART_DELAY
    ensures var u := Turn(t, env); u == Tx(t.client, Ok(Initial), env.now) && Quiet(u)
  {
  }

  /** A run, without another forced unlock, to a state with more than one live guard. */
  predicate GuardsPileUp(t: Tx, actions: seq<Action>) {
    ForceUnlock !in actions && IsRun(t, actions) && After(t, actions).client.guards > 1
  }

  /** Forcing the lock is harmless exactly when no guard is alive: otherwise the flag stops standing for
      the guard at once, and some continuation lets a second guard live beside the first. */
  lemma ForceUnlockExactly(t: Tx)
    requires Exclusive(t) && Guarded(t)
    ensures Guarded(Apply(t, ForceUnlock)) <==> t.client.guards == 0
    ensures (exists actions :: GuardsPileUp(Apply(t, ForceUnlock), actions)) <==> t.client.guards > 0
  {
    hide Turn, IsRun, After;
    var u := Apply(t, ForceUnlock);
    if t.client.guards > 0 {
      var session := if t.client.lastSession == Some(0) then 1 else 0;
      var env := Env(0, Session(session), Ok([]));
      var invite := Invite(0, true);
      var first, second := NewSession(u, env), Handover(invite, env, env, env);
      NewSessionWaits(u, env, session);
      HandoverEffect(After(u, first), session, invite, env, env, env);
      RunThen(u, first, second);
      assert GuardsPileUp(u, first + second);
    } else {
      ApplyExclusive(t, ForceUnlock);
      forall actions | GuardsPileUp(u, actions) ensures false {
        NoUnlockIsHarmless(u, actions);
        RunExclusive(u, actions);
      }
    }
  }

  /** A hand-over from a new client, a forced unlock, and a second hand-over. */
  function TwoGuards(invite: Invite, env: Env): seq<Action> {
    var handover := Handover(invite, env, env, env);
    [Rendered(env)] + (handover + ([ForceUnlock] + ([Rendered(env)] + handover)))
  }

  /** It happens to a client from its very start: two guards live at once, and the end of one of them
      clears the flag under the other. */
  lemma ForcedLockBreaksOwnership(now: nat, invite: Invite, env: Env, session: nat)
    requires invite.hasAddress && Calm(env, session)
    ensures var run := TwoGuards(invite, env);
            && IsRun(NewTx(now), run)
            && var t := After(NewTx(now), run);
            && t.client.guards == 2 && Enabled(t, DropGuard)
            && var d := Apply(t, DropGuard).client;
            d.guards == 1 && !d.transmitting
  {
    hide IsRun, After, Turn, Handover;
    var handover := Handover(invite, env, env, env);
    var t0 := NewTx(now);
    QuietWaits(t0, env, session);
    var t1 := Turn(t0, env);
    HandoverEffect(t1, session, invite, env, env, env);
    var t2 := After(t1, handover);
    var t3 := Apply(t2, ForceUnlock);
    var t4 := Turn(t3, env);
    UnlockedWaits(t3, env, session);
    HandoverEffect(t4, session, invite, env, env, env);
    RunStep(t3, Rendered(env), handover);
    RunStep(t2, ForceUnlock, [Rendered(env)] + handover);
    RunThen(t1, handover, [ForceUnlock] + ([Rendered(env)] + handover));
    RunStep(t0, Rendered(env), handover + ([ForceUnlock] + ([Rendered(env)] + handover)));
  }

  /** A client whose flag was cleared waits for the next invite after one render. */
  lemma UnlockedWaits(t: Tx, env: Env, session: nat)
    requires Quiet(t) && t.state.Ok? && env.usb == Session(session)
    requires t.client.lastSession == Some(session) && t.client.ctrlServer == Some([])
    ensures Waits(Turn(t, env), session) && Turn(t, env).client.guards == t.client.guards
  {
  }

  // Where the loop rests.

  /** What a reconcile call of a client ends in, by what is the matter first. */
  ghost function Outcome(t: Tx, env: Env): State {
    var c := t.client;
    if env.usb.UsbFailed? then Err(UsbGadgetError(env.usb.code))
    else if c.pendingConnect.Some? && c.pendingConnect.value.Resolved? && c.pendingConnect.value.outcome.Err? then
      Err(Connect(c.pendingConnect.value.outcome.error))
    else if env.usb.NoSession? then Ok(WaitingForUsbAccessory)
    else
      var renewed := c.lastSession != Some(env.usb.id) || c.ctrlServer == None;
      if renewed && env.ctrl.Err? then Err(CtrlServer(env.ctrl.error))
      else if c.pendingTransmitter || (c.pendingConnect.Some? && c.pendingConnect.value.Resolved?) then Ok(TransmitterReadyForPickup)
      else if c.pendingConnect.Some? then Ok(Connecting)
      else if c.transmitting then Ok(Transmitting)
      else
        var queue := if renewed then env.ctrl.value else c.ctrlServer.value;
        var invite := if t.state.Ok? && t.state.value.Invited? then Some(t.state.value.invite)
                      else if t.state == Ok(WaitingForInvite) && |queue| > 0 then Some(queue[0])
                      else if t.state != Ok(WaitingForInvite) && |queue| > 1 then Some(queue[1])
                      else None;
        if invite == None then Ok(WaitingForInvite)
        else if invite.value.hasAddress then Ok(Connecting)
        else Err(UnexpectedState)
  }

  lemma OutcomeOfSession(t: Tx, env: Env)
    requires Exclusive(t) && t.state.Ok? && env.usb.Session?
    requires t.client.pendingConnect.Some? && t.client.pendingConnect.value.Resolved? ==> t.client.pendingConnect.value.outcome.Ok?
    ensures var (c, next) := InSession(ForSession(PickUp(t.client), env.usb.id), t.state.value, env);
            && (next.Err? || next == t.state ==> next == Outcome(t, env))
            && (next.Ok? && next != t.state ==> Outcome(Tx(c, next, env.now), env) == Outcome(t, env))
  {
    var d := ForSession(PickUp(t.client), env.usb.id);
    if d.ctrlServer.Some? || env.ctrl.Ok? {
      var queue := if d.ctrlServer.Some? then d.ctrlServer.value else env.ctrl.value;
      assert queue == [] <==> |queue| == 0;
      assert InSession(d, t.state.value, env) == WithServer(d, t.state.value, queue);
    }
  }

  lemma OutcomeOfTurn(t: Tx, env: Env)
    requires Exclusive(t) && (t.state.Err? ==> env.now - t.update > 1000)
    ensures var u := Turn(t, env);
            && (u.state.Err? || u.state == t.state ==> u.state == Outcome(t, env))
            && (u.state.Ok? && u.state != t.state ==> Outcome(u, env) == Outcome(t, env))
            && (u.state != t.state ==> u.update == env.now)
  {
    hide InSession, Outcome, PickUp, ForSession;
    var c := t.client;
    if t.state.Err? {
      OutcomeAfterError(t, env);
    } else if env.usb.UsbFailed? {
      assert Outcome(t, env) == Err(UsbGadgetError(env.usb.code)) by { OutcomeOfFailure(t, env); }
    } else {
      OutcomeOfPickUp(t, env);
      if PickUp(c).pendingError == None {
        if env.usb.Session? {
          OutcomeOfSession(t, env);
        } else {
          OutcomeOfNoSession(t, env);
        }
      }
    }
  }

  lemma OutcomeAfterError(t: Tx, env: Env)
    requires t.state.Err?
    ensures Outcome(Tx(t.client, Ok(Initial), env.now), env) == Outcome(t, env)
  {
  }

  lemma OutcomeOfFailure(t: Tx, env: Env)
    requires env.usb.UsbFailed?
    ensures Outcome(t, env) == Err(UsbGadgetError(env.usb.code))
  {
  }

  lemma OutcomeOfPickUp(t: Tx, env: Env)
    requires Exclusive(t) && !env.usb.UsbFailed?
    ensures var c := PickUp(t.client);
            && (c.pendingError.Some? ==> Outcome(t, env) == Err(Connect(c.pendingError.value)))
            && (c.pendingError == None ==>
                  t.client.pendingConnect.Some? && t.client.pendingConnect.value.Resolved? ==>
                    t.client.pendingConnect.value.outcome.Ok?)
  {
  }

  lemma OutcomeOfNoSession(t: Tx, env: Env)
    requires Exclusive(t) && env.usb.NoSession? && PickUp(t.client).pendingError == None
    ensures Outcome(t, env) == Ok(WaitingForUsbAccessory)
    ensures Outcome(Tx(PickUp(t.client).(ctrlServer := None), Ok(WaitingForUsbAccessory), env.now), env)
            == Ok(WaitingForUsbAccessory)
  {
  }

  lemma ErrorRests(t: Tx, env: Env)
    requires t.state.Err? && env.now - t.update <= 1000
    ensures Reconcile(t, env) == t
  {
    assert Turn(t, env) == t;
  }

  lemma {:induction false} RestsAtOutcome(t: Tx, env: Env)
    requires Exclusive(t) && (t.state.Err? ==> env.now - t.update > 1000)
    ensures Reconcile(t, env).state == Outcome(t, env)
    decreases Rank(t, env)
  {
    hide Outcome, Turn, Exclusive;
    var u := Turn(t, env);
    OutcomeOfTurn(t, env);
    TurnExclusive(t, env);
    if u.state != t.state {
      TurnRanks(t, env);
      if u.state.Err? {
        ErrorRests(u, env);
      } else {
        RestsAtOutcome(u, env);
      }
    }
  }

  /** One reconcile call of a client that does not wait out an error ends in exactly this, the first that
      applies: the USB gadget failed; a connection attempt failed; there is no session; its control
      server does not start; a transmitter waits; an attempt is under way; one transmits; an invite is
      taken up, namely the one already accepted, else the next, of which one is dropped first if the
      client was not waiting for it; or none is there. */
  lemma RestsExactly(t: Tx, env: Env)
    requires Exclusive(t) && (t.state.Err? ==> env.now - t.update > 1000)
    ensures var c := t.client;
            Reconcile(t, env).state ==
            if env.usb.UsbFailed? then Err(UsbGadgetError(env.usb.code))
            else if c.pendingConnect.Some? && c.pendingConnect.value.Resolved? && c.pendingConnect.value.outcome.Err? then
              Err(Connect(c.pendingConnect.value.outcome.error))
            else if env.usb.NoSession? then Ok(WaitingForUsbAccessory)
            else
              var renewed := c.lastSession != Some(env.usb.id) || c.ctrlServer == None;
              if renewed && env.ctrl.Err? then Err(CtrlServer(env.ctrl.error))
              else if c.pendingTransmitter || (c.pendingConnect.Some? && c.pendingConnect.value.Resolved?) then Ok(TransmitterReadyForPickup)
              else if c.pendingConnect.Some? then Ok(Connecting)
              else if c.transmitting then Ok(Transmitting)
              else
                var queue := if renewed then env.ctrl.value else c.ctrlServer.value;
                var invite := if t.state.Ok? && t.state.value.Invited? then Some(t.state.value.invite)
                              else if t.state == Ok(WaitingForInvite) && |queue| > 0 then Some(queue[0])
                              else if t.state != Ok(WaitingForInvite) && |queue| > 1 then Some(queue[1])
                              else None;
                if invite == None then Ok(WaitingForInvite)
                else if invite.value.hasAddress then Ok(Connecting)
                else Err(UnexpectedState)
  {
    hide Reconcile;
    RestsAtOutcome(t, env);
  }

  /** What such a call leaves behind in `y`. */
  ghost predicate Leaves(t: Tx, y: Tx, env: Env) {
    var c, q := t.client, y.client;
    && q.transmitting == c.transmitting && q.guards == c.guards && q.pendingError == None
    && (q.pendingTransmitter <==>
          || c.pendingTransmitter
          || (!env.usb.UsbFailed? && c.pendingConnect.Some? && c.pendingConnect.value.Resolved?
              && c.pendingConnect.value.outcome.Ok?))
    && (y.state.Err? ==> q.ctrlServer == None && q.pendingConnect == None && q.lastSession == None && y.update == env.now)
    && (y.state.Ok? && env.usb.NoSession? ==>
          && q.ctrlServer == None && q.lastSession == c.lastSession
          && q.pendingConnect == if c.pendingConnect == Some(InFlight) then Some(InFlight) else None)
    && (y.state.Ok? && env.usb.Session? ==>
          && q.ctrlServer.Some? && q.lastSession == Some(env.usb.id)
          && q.pendingConnect == if y.state == Ok(Connecting) then Some(InFlight) else None)
  }

  lemma TurnLeaves(t: Tx, env: Env)
    requires Exclusive(t) && t.state.Ok?
    ensures var u := Turn(t, env);
            && (u.state.Err? || u.state == t.state ==> Leaves(t, u, env))
            && (u.state.Ok? && u.state != t.state ==> forall y :: Leaves(u, y, env) ==> Leaves(t, y, env))
  {
  }

  lemma {:induction false} RestLeaves(t: Tx, env: Env)
    requires Exclusive(t) && (t.state.Err? ==> env.now - t.update > 1000)
    ensures Leaves(t, Reconcile(t, env), env)
    decreases Rank(t, env)
  {
    hide Turn, Exclusive, Leaves;
    var u := Turn(t, env);
    OutcomeOfTurn(t, env);
    TurnExclusive(t, env);
    if t.state.Err? {
      Restarts(t, env);
      TurnRanks(t, env);
      RestLeaves(u, env);
      LeavesAfterRestart(t, u, Reconcile(u, env), env);
    } else {
      TurnLeaves(t, env);
      if u.state != t.state {
        TurnRanks(t, env);
        if u.state.Err? {
          ErrorRests(u, env);
        } else {
          RestLeaves(u, env);
        }
      }
    }
  }

  lemma Restarts(t: Tx, env: Env)
    requires t.state.Err? && env.now - t.update > 1000
    ensures Turn(t, env) == Tx(t.client, Ok(Initial), env.now)
  {
  }

  lemma LeavesAfterRestart(t: Tx, u: Tx, y: Tx, env: Env)
    requires u.client == t.client && Leaves(u, y, env)
    ensures Leaves(t, y, env)
  {
  }

  /** Flag and guards are left alone; a transmitter waits if one did or a connection was made and picked
      up; an error forgets control server, attempt and session and is dated; without a session an attempt
      goes on, and in one it is under way exactly in Connecting, and the control server is the session's. */
  lemma WhatARestLeaves(t: Tx, env: Env)
    requires Exclusive(t) && (t.state.Err? ==> env.now - t.update > 1000)
    ensures var c, y := t.client, Reconcile(t, env);
            var q := y.client;
            && q.transmitting == c.transmitting && q.guards == c.guards && q.pendingError == None
            && (q.pendingTransmitter <==>
                  || c.pendingTransmitter
                  || (!env.usb.UsbFailed? && c.pendingConnect.Some? && c.pendingConnect.value.Resolved?
                      && c.pendingConnect.value.outcome.Ok?))
            && (y.state.Err? ==> q.ctrlServer == None && q.pendingConnect == None && q.lastSession == None && y.update == env.now)
            && (y.state.Ok? && env.usb.NoSession? ==>
                  && q.ctrlServer == None && q.lastSession == c.lastSession
                  && q.pendingConnect == if c.pendingConnect == Some(InFlight) then Some(InFlight) else None)
            && (y.state.Ok? && env.usb.Session? ==>
                  && q.ctrlServer.Some? && q.lastSession == Some(env.usb.id)
                  && q.pendingConnect == if y.state == Ok(Connecting) then Some(InFlight) else None)
  {
    hide Reconcile;
    RestLeaves(t, env);
  }

  /** A render in a session that does not fail takes exactly one invite, wanted or not, off the queue of
      the session's control server, which it starts if there is none. */
  lemma OneInvitePerRender(t: Tx, env: Env)
    requires t.state.Ok? && env.usb.Session? && Turn(t, env).state.Ok?
    ensures var c := t.client;
            var renewed := c.lastSession != Some(env.usb.id) || c.ctrlServer == None;
            && (renewed ==> env.ctrl.Ok?)
            && var queue := if renewed then env.ctrl.value else c.ctrlServer.value;
            Turn(t, env).client.ctrlServer == Some(if |queue| > 0 then queue[1..] else queue)
  {
    var d := ForSession(PickUp(t.client), env.usb.id);
    assert d.ctrlServer == if t.client.lastSession == Some(env.usb.id) then t.client.ctrlServer else None;
  }

  /** A failed attempt ends in its error in the very next render, which forgets control server and
      session; a waiting transmitter, the flag and the guards are left alone. */
  lemma FailedConnect(t: Tx, e: nat, env: Env)
    requires Exclusive(t) && t.state.Ok? && t.client.pendingConnect == Some(InFlight) && !env.usb.UsbFailed?
    ensures var run := [Resolve(Err(e)), Rendered(env)];
            && IsRun(t, run)
            && var u := After(t, run);
            && u.state == Err(Connect(e)) && u.update == env.now
            && u.client == Client(None, None, None, None, t.client.pendingTransmitter, t.client.transmitting, t.client.guards)
  {
    var t1 := Apply(t, Resolve(Err(e)));
    var u := Turn(t1, env);
    assert u.state == Err(Connect(e));
    RunStep(t1, Rendered(env), []);
    RunStep(t, Resolve(Err(e)), [Rendered(env)] + []);
    assert [Resolve(Err(e))] + ([Rendered(env)] + []) == [Resolve(Err(e)), Rendered(env)];
  }

  // What the composed gadget relies on.

  /** Popping between two reconcile calls changes nothing but turns "ready" into "transmitting". */
  lemma StateAfterPop(t: Tx, env: Env)
    requires Exclusive(t)
    ensures var u := Reconcile(t, env);
            Reconcile(Pop(u), env).state
            == if u.state == Ok(TransmitterReadyForPickup) then Ok(Transmitting) else u.state
  {
    var u := Reconcile(t, env);
    ReconcileStable(t, env);
    ReconcileExclusive(t, env);
    ReadyHasTransmitter(t, env);
    PopOfStable(u, env);
  }

  lemma {:induction false} ReadyHasTransmitter(t: Tx, env: Env)
    ensures Reconcile(t, env).state == Ok(TransmitterReadyForPickup) ==> Reconcile(t, env).client.pendingTransmitter
    decreases Rank(t, env)
  {
    if !Stable(t, env) {
      TurnRanks(t, env);
      ReadyHasTransmitter(Turn(t, env), env);
    }
  }

  lemma PopOfStable(u: Tx, env: Env)
    requires Stable(u, env) && Exclusive(u)
    requires u.state == Ok(TransmitterReadyForPickup) ==> u.client.pendingTransmitter
    ensures Reconcile(Pop(u), env).state
            == if u.state == Ok(TransmitterReadyForPickup) then Ok(Transmitting) else u.state
  {
    var v := Turn(Pop(u), env);
    if u.state == Ok(TransmitterReadyForPickup) {
      assert v.state == Ok(Transmitting);
      assert Reconcile(v, env) == Turn(v, env);
    } else {
      assert v.state == u.state;
      assert Reconcile(Pop(u), env) == v;
    }
  }

  /** A client just made never has a transmitter by the end of its first reconcile call. */
  lemma FreshNeverReady(now: nat, env: Env)
    ensures Reconcile(NewTx(now), env).state !in {Ok(TransmitterReadyForPickup), Ok(Transmitting)}
  {
    NothingPending(NewTx(now), env);
  }

  lemma {:induction false} NothingPending(t: Tx, env: Env)
    requires t.client.pendingConnect in {None, Some(InFlight)} && !t.client.pendingTransmitter && !t.client.transmitting
    requires t.state !in {Ok(TransmitterReadyForPickup), Ok(Transmitting)}
    ensures Reconcile(t, env).state !in {Ok(TransmitterReadyForPickup), Ok(Transmitting)}
    decreases Rank(t, env)
  {
    if !Stable(t, env) {
      TurnRanks(t, env);
      NothingPending(Turn(t, env), env);
    }
  }
}
