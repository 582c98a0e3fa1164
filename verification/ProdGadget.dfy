/** The composed gadget: one transmitter client towards the car, one wireless receiver towards the
    phone, each under its own reconciler, and the loop that runs both. */
module ProdGadget {
  import opened Options
  import T = TxClient
  import R = WirelessReceiver

  datatype Status =
    | Initial
    | WaitingForUdc
    | WaitingForUsbTransmitterGadget
    | WaitingForWirelessCarPlayGadget
    | WaitingForCar
    | WaitingForIPhone
    | Running

  datatype Error = FailedToSetupUsbClient(code: nat)

  type State = Result<Status, Error>

  /** One environment for a whole reconcile call; `setup` is the outcome of making the USB client. */
  datatype Env = Env(now: nat, tx: T.Env, rx: R.Env, setup: Option<nat>)

  const RESTART_DELAY: nat := 1000

  datatype Gadget = Gadget(rx: Option<R.Rx>, tx: Option<T.Tx>, lastTx: bool)

  datatype Prod = Prod(gadget: Gadget, state: State, update: nat)

  function NewProd(now: nat): Prod {
    Prod(Gadget(None, None, false), Ok(Initial), now)
  }

  // One render.

  /** Both children run to their own fixpoints first. */
  function Children(g: Gadget, env: Env): Gadget {
    g.(rx := match g.rx case None => None case Some(x) => Some(R.Reconcile(x, env.rx)),
       tx := match g.tx case None => None case Some(t) => Some(T.Reconcile(t, env.tx)))
  }

  function Block(x: R.Rx, blocked: bool): R.Rx {
    x.(receiver := x.receiver.(invitesBlocked := blocked))
  }

  /** Takes a transmitter that waits to be picked up, and blocks invites until there has been one. */
  function PickUp(g: Gadget): Gadget
    requires g.rx.Some? && g.tx.Some?
  {
    var lastTx := g.lastTx || g.tx.value.client.pendingTransmitter;
    Gadget(Some(Block(g.rx.value, !lastTx)), Some(T.Pop(g.tx.value)), lastTx)
  }

  function Advance(status: Status, tx: T.State, rx: R.State): Status {
    match status
    case Initial => WaitingForUdc
    case WaitingForUdc => WaitingForUsbTransmitterGadget
    case WaitingForUsbTransmitterGadget => WaitingForWirelessCarPlayGadget
    case WaitingForWirelessCarPlayGadget => WaitingForCar
    case WaitingForCar =>
      if tx in {Ok(T.Transmitting), Ok(T.TransmitterReadyForPickup)} then WaitingForIPhone else WaitingForCar
    case WaitingForIPhone => if rx == Ok(R.Receiving) then Running else WaitingForIPhone
    case Running => if rx == Ok(R.Receiving) && tx == Ok(T.Transmitting) then Running else WaitingForCar
  }

  /** What a render does once the children have been reconciled; `setup` is the failure of making the
      USB client, if there is one. */
  function RenderOwn(g: Gadget, prev: State, update: nat, now: nat, setup: Option<nat>): (Gadget, State) {
    match prev
    case Err(e) => (g, if now - update > RESTART_DELAY then Ok(Initial) else Err(e))
    case Ok(status) =>
      var g2 := g.(rx := if g.rx == None then Some(R.NewRx(now)) else g.rx);
      if g2.tx == None && setup.Some? then (g2, Err(FailedToSetupUsbClient(setup.value)))
      else
        var g3 := g2.(tx := if g2.tx == None then Some(T.NewTx(now)) else g2.tx);
        var g4 := PickUp(g3);
        (g4, Ok(Advance(status, g4.tx.value.state, g4.rx.value.state)))
  }

  function Render(g: Gadget, prev: State, update: nat, env: Env): (Gadget, State) {
    RenderOwn(Children(g, env), prev, update, env.now, env.setup)
  }

  function OnUpdate(g: Gadget, new_: State): Gadget {
    if new_.Err? && g.rx.Some? then g.(rx := Some(Block(g.rx.value, true))) else g
  }

  function Turn(p: Prod, env: Env): Prod {
    var (g, next) := Render(p.gadget, p.state, p.update, env);
    if next != p.state then Prod(OnUpdate(g, next), next, env.now) else p.(gadget := g)
  }

  /** The part of a turn that comes after the children's own loops. */
  function OwnTurn(p: Prod, now: nat, setup: Option<nat>): Prod {
    var (g, next) := RenderOwn(p.gadget, p.state, p.update, now, setup);
    if next != p.state then Prod(OnUpdate(g, next), next, now) else p.(gadget := g)
  }

  lemma TurnIsOwnTurn(p: Prod, env: Env)
    ensures Turn(p, env) == OwnTurn(p.(gadget := Children(p.gadget, env)), env.now, env.setup)
  {
    hide R.Reconcile, T.Reconcile, PickUp, Advance;
  }

  // The children's invariants hold throughout.

  predicate Consistent(g: Gadget) {
    && (g.rx.Some? ==> R.Consistent(g.rx.value))
    && (g.tx.Some? ==> T.Exclusive(g.tx.value))
  }

  lemma ChildrenConsistent(g: Gadget, env: Env)
    requires Consistent(g)
    ensures Consistent(Children(g, env))
  {
    hide R.Consistent, T.Exclusive, R.Reconcile, T.Reconcile;
    if g.rx.Some? { R.ReconcileConsistent(g.rx.value, env.rx); }
    if g.tx.Some? { T.ReconcileExclusive(g.tx.value, env.tx); }
  }

  lemma OwnTurnConsistent(p: Prod, now: nat, setup: Option<nat>)
    requires Consistent(p.gadget)
    ensures Consistent(OwnTurn(p, now, setup).gadget)
  {
  }

  lemma TurnConsistent(p: Prod, env: Env)
    requires Consistent(p.gadget)
    ensures Consistent(Turn(p, env).gadget)
  {
    hide Children, Turn, OwnTurn, Consistent;
    ChildrenConsistent(p.gadget, env);
    TurnIsOwnTurn(p, env);
    OwnTurnConsistent(p.(gadget := Children(p.gadget, env)), env.now, env.setup);
  }

  // What the next render will see of the children.

  datatype TxView = Ready | Sending | Other

  function TxSeen(g: Gadget, env: Env): TxView {
    match g.tx
    case None => Other
    case Some(t) =>
      var s := T.Reconcile(t, env.tx).state;
      if s == Ok(T.TransmitterReadyForPickup) then Ready
      else if s == Ok(T.Transmitting) then Sending
      else Other
  }

  predicate RxSeen(g: Gadget, env: Env) {
    g.rx.Some? && R.Reconcile(g.rx.value, env.rx).state == Ok(R.Receiving)
  }

  /** How far the cycle of the last three states is from rest, once both children have come to rest. */
  function CycleRank(status: Status, tx: TxView, rx: bool): nat {
    if tx == Ready then 3
    else if tx == Sending then
      if rx then (if status == Running then 0 else if status == WaitingForIPhone then 1 else 2)
      else (if status == WaitingForIPhone then 0 else if status == WaitingForCar then 1 else 2)
    else
      if rx then (if status == WaitingForCar then 0 else if status == Running then 1 else 2)
      else (if status == Running then 1 else 0)
  }

  /** How many more turns can change the state. */
  function Rank(p: Prod, env: Env): (n: nat)
    ensures n <= 9
  {
    match p.state
    case Err(_) => if env.now - p.update > RESTART_DELAY then 9 else 0
    case Ok(Initial) => 8
    case Ok(WaitingForUdc) => 7
    case Ok(WaitingForUsbTransmitterGadget) => 6
    case Ok(WaitingForWirelessCarPlayGadget) => 5
    case Ok(s) =>
      if p.gadget.rx == None || p.gadget.tx == None then 4
      else CycleRank(s, TxSeen(p.gadget, env), RxSeen(p.gadget, env))
  }

  /** What a render sees of the children determines what the next one sees: a waiting transmitter has
      been picked up, everything else is as before. */
  lemma NextSeen(p: Prod, env: Env)
    requires Consistent(p.gadget) && p.state.Ok? && Turn(p, env).state.Ok?
    ensures var g, g' := p.gadget, Turn(p, env).gadget;
            && g'.rx.Some? && g'.tx.Some?
            && TxSeen(g', env) == (if TxSeen(g, env) == Ready then Sending else TxSeen(g, env))
            && (g.rx.Some? ==> RxSeen(g', env) == RxSeen(g, env))
  {
    hide R.Consistent, T.Exclusive, R.Reconcile, T.Reconcile;
    var g := p.gadget;
    if g.tx.Some? {
      T.StateAfterPop(g.tx.value, env.tx);
    } else {
      T.FreshNeverReady(env.now, env.tx);
    }
    if g.rx.Some? {
      var lastTx := Turn(p, env).gadget.lastTx;
      R.ReceivingAfterBlocking(g.rx.value, env.rx, !lastTx);
    }
  }

  /** What a render sees decides its step. */
  lemma StepSeen(p: Prod, env: Env)
    requires p.state.Ok? && Turn(p, env).state.Ok?
    ensures var tx, rx := TxSeen(p.gadget, env), RxSeen(p.gadget, env);
            Turn(p, env).state == Ok(match p.state.value
              case WaitingForCar => if tx != Other then WaitingForIPhone else WaitingForCar
              case WaitingForIPhone => if rx then Running else WaitingForIPhone
              case Running => if rx && tx == Sending then Running else WaitingForCar
              case Initial => WaitingForUdc
              case WaitingForUdc => WaitingForUsbTransmitterGadget
              case WaitingForUsbTransmitterGadget => WaitingForWirelessCarPlayGadget
              case WaitingForWirelessCarPlayGadget => WaitingForCar)
  {
    hide R.Reconcile, T.Reconcile;
  }

  lemma TurnRanks(p: Prod, env: Env)
    requires Consistent(p.gadget) && Turn(p, env).state != p.state
    ensures Rank(Turn(p, env), env) < Rank(p, env)
  {
    hide Turn, TxSeen, RxSeen, Consistent;
    if p.state.Err? || Turn(p, env).state.Err? {
      ErrorTurn(p, env);
    } else {
      NextSeen(p, env);
      StepSeen(p, env);
    }
  }

  lemma ErrorTurn(p: Prod, env: Env)
    requires p.state.Err? || Turn(p, env).state.Err?
    requires Turn(p, env).state != p.state
    ensures Turn(p, env).update == env.now
    ensures p.state.Err? ==> env.now - p.update > RESTART_DELAY && Turn(p, env).state == Ok(Initial)
    ensures p.state.Ok? ==> p.gadget.tx == None
  {
    hide R.Reconcile, T.Reconcile;
  }

  /** Runs to the fixpoint within one environment. */
  function Reconcile(p: Prod, env: Env): Prod
    requires Consistent(p.gadget)
    decreases Rank(p, env)
  {
    var p' := Turn(p, env);
    if p'.state == p.state then p'
    else TurnRanks(p, env); TurnConsistent(p, env); Reconcile(p', env)
  }

  /** The number of renders of one reconcile call. */
  function Renders(p: Prod, env: Env): (n: nat)
    requires Consistent(p.gadget)
    ensures n <= Rank(p, env) + 1 <= 10
    decreases Rank(p, env)
  {
    if Turn(p, env).state == p.state then 1
    else TurnRanks(p, env); TurnConsistent(p, env); 1 + Renders(Turn(p, env), env)
  }

  /** If a reconcile call ends in Running, the client is transmitting and the receiver receiving. */
  lemma {:induction false} RunningMeansBoth(p: Prod, env: Env)
    requires Consistent(p.gadget)
    ensures var q := Reconcile(p, env);
            && Consistent(q.gadget)
            && (q.state == Ok(Running) ==>
                  && q.gadget.tx.Some? && q.gadget.tx.value.state == Ok(T.Transmitting)
                  && q.gadget.rx.Some? && q.gadget.rx.value.state == Ok(R.Receiving))
    decreases Rank(p, env)
  {
    hide Turn, OwnTurn, Children, Consistent;
    TurnConsistent(p, env);
    if Turn(p, env).state == p.state {
      if p.state == Ok(Running) {
        TurnIsOwnTurn(p, env);
        RunningOwnTurn(p.(gadget := Children(p.gadget, env)), env.now, env.setup);
      }
    } else {
      TurnRanks(p, env);
      RunningMeansBoth(Turn(p, env), env);
    }
  }

  /** Whatever happens between renders, the loop rests in Running only when its last render found the
      client transmitting and the receiver receiving. */
  lemma RunningOwnTurn(p: Prod, now: nat, setup: Option<nat>)
    requires OwnTurn(p, now, setup).state == p.state == Ok(Running)
    ensures var g := OwnTurn(p, now, setup).gadget;
            && g.tx.Some? && g.tx.value.state == Ok(T.Transmitting)
            && g.rx.Some? && g.rx.value.state == Ok(R.Receiving)
  {
  }

  // Whole runs.

  /** A composed render is renders of the receiver, renders of the client, then the gadget's own part,
      each in its own environment, with anything that may happen to the client in between. */
  datatype Action =
    | Rendered(now: nat, setup: Option<nat>)
    | OnRx(rx: R.Action)
    | OnTx(tx: T.Action)
    /** A whole reconcile call during which the environment stands still. */
    | Reconciled(env: Env)

  /** The composed gadget itself pops the transmitter and blocks invites, and never forces the lock. */
  predicate Enabled(p: Prod, a: Action) {
    match a
    case Rendered(_, _) => true
    case OnRx(b) => p.gadget.rx.Some? && b.Rendered?
    case OnTx(b) =>
      && p.gadget.tx.Some? && T.Enabled(p.gadget.tx.value, b)
      && (b.Rendered? || b.DropGuard? || b.Resolve? || b.InviteArrives?)
    case Reconciled(_) => true
  }

  predicate Made(p: Prod) {
    && (p.gadget.rx.Some? ==> (p.gadget.rx.value.receiver.invitesBlocked <==> !p.gadget.lastTx))
    && (p.gadget.tx.Some? ==> p.gadget.rx.Some?)
    && (p.gadget.tx == None ==> !p.gadget.lastTx && (p.state.Err? || p.state == Ok(Initial)))
    && (p.state.Err? ==> p.gadget.rx.Some? && p.gadget.tx == None)
  }

  /** What holds between any two renders: the children's invariants, one owner of the transmitter, and
      once there has been a transmitter it is remembered; and how far the gadget has got with making its
      children, and that invites are blocked until there has been a transmitter. */
  predicate Inv(p: Prod) {
    && Consistent(p.gadget)
    && Made(p)
    && (p.gadget.tx.Some? ==> T.Guarded(p.gadget.tx.value) && (p.gadget.tx.value.client.guards > 0 ==> p.gadget.lastTx))
  }

  lemma NewInv(now: nat)
    ensures Inv(NewProd(now))
  {
  }

  function Apply(p: Prod, a: Action): Prod
    requires Inv(p) && Enabled(p, a)
  {
    match a
    case Rendered(now, setup) => OwnTurn(p, now, setup)
    case Reconciled(env) => Reconcile(p, env)
    case OnRx(b) => p.(gadget := p.gadget.(rx := Some(R.Apply(p.gadget.rx.value, b))))
    case OnTx(b) => p.(gadget := p.gadget.(tx := Some(T.Apply(p.gadget.tx.value, b))))
  }

  predicate IsRun(p: Prod, actions: seq<Action>)
    requires Inv(p)
    decreases |actions|
  {
    actions == [] || (Enabled(p, actions[0]) && (ApplyInv(p, actions[0]); IsRun(Apply(p, actions[0]), actions[1..])))
  }

  lemma OwnTurnInv(p: Prod, now: nat, setup: Option<nat>)
    requires Inv(p)
    ensures Inv(OwnTurn(p, now, setup))
  {
    hide R.Consistent, T.Exclusive, T.Guarded, Made;
    OwnTurnConsistent(p, now, setup);
    OwnTurnMade(p, now, setup);
    if p.gadget.tx.Some? {
      PopGuarded(p.gadget.tx.value);
    } else {
      NewGuarded(now);
    }
  }

  lemma OwnTurnMade(p: Prod, now: nat, setup: Option<nat>)
    requires Made(p)
    ensures Made(OwnTurn(p, now, setup))
  {
    hide Advance;
  }

  lemma ChildrenMade(p: Prod, env: Env)
    requires Made(p)
    ensures Made(p.(gadget := Children(p.gadget, env)))
  {
    hide R.Reconcile, T.Reconcile;
    if p.gadget.rx.Some? { R.ReconcileKeepsBlocked(p.gadget.rx.value, env.rx); }
  }

  lemma NewGuarded(now: nat)
    ensures T.Guarded(T.NewTx(now)) && T.Pop(T.NewTx(now)) == T.NewTx(now) && T.NewTx(now).client.guards == 0
  {
  }

  lemma TurnInv(p: Prod, env: Env)
    requires Inv(p)
    ensures Inv(Turn(p, env))
  {
    hide R.Reconcile, T.Reconcile, R.Consistent, T.Exclusive, Made, OwnTurn, Turn;
    ChildrenConsistent(p.gadget, env);
    ChildrenMade(p, env);
    if p.gadget.tx.Some? {
      T.ReconcileExclusive(p.gadget.tx.value, env.tx);
    }
    TurnIsOwnTurn(p, env);
    OwnTurnInv(p.(gadget := Children(p.gadget, env)), env.now, env.setup);
  }

  lemma PopGuarded(t: T.Tx)
    requires T.Exclusive(t) && T.Guarded(t)
    ensures T.Guarded(T.Pop(t))
    ensures T.Pop(t).client.guards > t.client.guards ==> t.client.pendingTransmitter
    ensures T.Pop(t).client.guards >= t.client.guards
  {
  }

  lemma {:induction false} ReconcileInv(p: Prod, env: Env)
    requires Inv(p)
    ensures Inv(Reconcile(p, env))
    decreases Rank(p, env)
  {
    hide Turn, T.Guarded, Consistent, Made;
    TurnInv(p, env);
    if Turn(p, env).state != p.state {
      TurnRanks(p, env);
      ReconcileInv(Turn(p, env), env);
    }
  }

  lemma ApplyInv(p: Prod, a: Action)
    requires Inv(p) && Enabled(p, a)
    ensures Inv(Apply(p, a))
  {
    hide Reconcile, OwnTurn, R.Consistent, R.Apply, T.Reconcile, T.Turn;
    match a
    case Rendered(now, setup) => OwnTurnInv(p, now, setup);
    case Reconciled(env) => ReconcileInv(p, env);
    case OnRx(b) =>
      R.ApplyConsistent(p.gadget.rx.value, b);
      R.RenderedKeepsBlocked(p.gadget.rx.value, b);
    case OnTx(b) =>
      T.ApplyExclusive(p.gadget.tx.value, b);
  }

  function After(p: Prod, actions: seq<Action>): Prod
    requires Inv(p) && IsRun(p, actions)
    decreases |actions|
  {
    if actions == [] then p else ApplyInv(p, actions[0]); After(Apply(p, actions[0]), actions[1..])
  }

  lemma {:induction false} RunInv(p: Prod, actions: seq<Action>)
    requires Inv(p) && IsRun(p, actions)
    ensures Inv(After(p, actions))
    decreases |actions|
  {
    hide Inv, Apply, Enabled;
    if actions != [] {
      ApplyInv(p, actions[0]);
      RunInv(Apply(p, actions[0]), actions[1..]);
    }
  }

  // Which transmitters were taken.

  /** The gadget's own part of a render would find a transmitter waiting. */
  predicate Finds(p: Prod) {
    p.state.Ok? && p.gadget.tx.Some? && p.gadget.tx.value.client.pendingTransmitter
  }

  /** Some render of a reconcile call finds one. */
  predicate FindsIn(p: Prod, env: Env)
    requires Consistent(p.gadget)
    decreases Rank(p, env)
  {
    || Finds(p.(gadget := Children(p.gadget, env)))
    || (Turn(p, env).state != p.state && (TurnRanks(p, env); TurnConsistent(p, env); FindsIn(Turn(p, env), env)))
  }

  /** Some render of a run finds one. */
  predicate EverFinds(p: Prod, actions: seq<Action>)
    requires Inv(p) && IsRun(p, actions)
    decreases |actions|
  {
    if actions == [] then false
    else if actions[0].Rendered? && Finds(p) then true
    else if actions[0].Reconciled? && FindsIn(p, actions[0].env) then true
    else ApplyInv(p, actions[0]); EverFinds(Apply(p, actions[0]), actions[1..])
  }

  lemma OwnTurnTakes(p: Prod, now: nat, setup: Option<nat>)
    ensures OwnTurn(p, now, setup).gadget.lastTx <==> p.gadget.lastTx || Finds(p)
  {
    hide Advance;
  }

  lemma {:induction false} ReconcileTakes(p: Prod, env: Env)
    requires Consistent(p.gadget)
    ensures Reconcile(p, env).gadget.lastTx <==> p.gadget.lastTx || FindsIn(p, env)
    decreases Rank(p, env)
  {
    hide OwnTurn, Turn, R.Reconcile, T.Reconcile, Consistent, Finds;
    TurnIsOwnTurn(p, env);
    TurnConsistent(p, env);
    OwnTurnTakes(p.(gadget := Children(p.gadget, env)), env.now, env.setup);
    if Turn(p, env).state != p.state {
      TurnRanks(p, env);
      ReconcileTakes(Turn(p, env), env);
    }
  }

  lemma {:induction false} RunTakes(p: Prod, actions: seq<Action>)
    requires Inv(p) && IsRun(p, actions)
    ensures After(p, actions).gadget.lastTx <==> p.gadget.lastTx || EverFinds(p, actions)
    decreases |actions|
  {
    hide Inv, Reconcile, OwnTurn, Finds, FindsIn, Enabled, T.Apply, R.Apply;
    if actions != [] {
      ApplyInv(p, actions[0]);
      match actions[0] {
        case Rendered(now, setup) => OwnTurnTakes(p, now, setup);
        case Reconciled(env) =>
          InvConsistent(p);
          ReconcileTakes(p, env);
        case OnRx(_) =>
        case OnTx(_) =>
      }
      RunTakes(Apply(p, actions[0]), actions[1..]);
    }
  }

  lemma InvConsistent(p: Prod)
    requires Inv(p)
    ensures Consistent(p.gadget) && Made(p)
  {
  }

  /** In every state of every run: the gadget remembers a car exactly if some render so far found a
      transmitter waiting, and its receiver, once there is one, is kept from inviting the phone exactly as
      long as none did; an error can only be that the client could not be made, and blocks invites. */
  lemma BlockedUntilTaken(now: nat, actions: seq<Action>)
    requires IsRun(NewProd(now), actions)
    ensures var p := After(NewProd(now), actions);
            var found := EverFinds(NewProd(now), actions);
            && (p.gadget.lastTx <==> found)
            && (p.gadget.rx.Some? ==> (p.gadget.rx.value.receiver.invitesBlocked <==> !found))
            && (p.state.Err? ==> p.gadget.tx == None && p.gadget.rx.Some? && p.gadget.rx.value.receiver.invitesBlocked)
            && (p.state.Ok? && p.state != Ok(Initial) ==> p.gadget.tx.Some? && p.gadget.rx.Some?)
  {
    hide After, IsRun, EverFinds;
    RunTakes(NewProd(now), actions);
    RunInv(NewProd(now), actions);
    InvConsistent(After(NewProd(now), actions));
  }

  // Where the loop rests.

  lemma {:induction false} RestsBySeen(p: Prod, env: Env)
    requires Consistent(p.gadget) && p.state.Ok? && p.gadget.tx.Some? && p.gadget.rx.Some?
    ensures Reconcile(p, env).state == Ok(
              if TxSeen(p.gadget, env) != Other then (if RxSeen(p.gadget, env) then Running else WaitingForIPhone)
              else if p.state == Ok(WaitingForIPhone) && !RxSeen(p.gadget, env) then WaitingForIPhone
              else WaitingForCar)
    decreases Rank(p, env)
  {
    hide Turn, TxSeen, RxSeen, Consistent;
    var q := Turn(p, env);
    TurnConsistent(p, env);
    StaysOk(p, env);
    NextSeen(p, env);
    StepSeen(p, env);
    if q.state != p.state {
      TurnRanks(p, env);
      RestsBySeen(q, env);
    }
  }

  lemma StaysOk(p: Prod, env: Env)
    requires p.state.Ok? && p.gadget.tx.Some?
    ensures Turn(p, env).state.Ok?
  {
    hide R.Reconcile, T.Reconcile;
  }

  /** One reconcile call of a gadget with both children comes to rest by what the children's own calls end
      in: Running with a car and a phone, WaitingForIPhone with a car only, and without a car in
      WaitingForCar, unless it waits for the phone already and none has come. */
  lemma RestsExactly(p: Prod, env: Env)
    requires Consistent(p.gadget) && p.state.Ok? && p.gadget.tx.Some? && p.gadget.rx.Some?
    ensures var car := T.Reconcile(p.gadget.tx.value, env.tx).state in {Ok(T.TransmitterReadyForPickup), Ok(T.Transmitting)};
            var phone := R.Reconcile(p.gadget.rx.value, env.rx).state == Ok(R.Receiving);
            Reconcile(p, env).state == Ok(
              if car && phone then Running
              else if car then WaitingForIPhone
              else if p.state == Ok(WaitingForIPhone) && !phone then WaitingForIPhone
              else WaitingForCar)
  {
    hide Reconcile, T.Reconcile, R.Reconcile, Consistent;
    RestsBySeen(p, env);
  }

  /** One that has no client yet makes it and waits for a car, or reports that it cannot; an error is
      waited out for a second. */
  lemma StartRests(p: Prod, env: Env)
    requires Consistent(p.gadget) && p.gadget.tx == None && (p.state.Err? || p.state == Ok(Initial))
    ensures var q := Reconcile(p, env);
            && q.state == (if p.state.Err? && env.now - p.update <= 1000 then p.state
                           else if env.setup.Some? then Err(FailedToSetupUsbClient(env.setup.value))
                           else Ok(WaitingForCar))
            && (q.state.Err? && (p.state.Ok? || env.now - p.update > 1000) ==> q.update == env.now)
  {
    hide R.Reconcile, T.Reconcile, PickUp, Consistent, Turn, Rank, RxSeen, TxSeen;
    TurnConsistent(p, env);
    TurnRanksIfChanged(p, env);
    StartTurn(p, env);
    var q := Turn(p, env);
    if p.state.Err? && env.now - p.update > 1000 {
      StartRestsFromInitial(q, env);
    } else if p.state.Ok? {
      StartRestsFromInitial(p, env);
    }
  }

  lemma TurnRanksIfChanged(p: Prod, env: Env)
    requires Consistent(p.gadget)
    ensures Turn(p, env).state != p.state ==> Rank(Turn(p, env), env) < Rank(p, env)
  {
    hide Turn, Rank, Consistent;
    if Turn(p, env).state != p.state { TurnRanks(p, env); }
  }

  lemma StartTurn(p: Prod, env: Env)
    requires p.gadget.tx == None && (p.state.Err? || p.state == Ok(Initial))
    ensures var q := Turn(p, env);
            if p.state.Err? then
              if env.now - p.update > 1000 then q.state == Ok(Initial) && q.gadget.tx == None else q.state == p.state
            else if env.setup.Some? then
              q.state == Err(FailedToSetupUsbClient(env.setup.value)) && q.update == env.now
            else
              q.state == Ok(WaitingForUdc) && q.gadget.rx.Some?
              && q.gadget.tx == Some(T.NewTx(env.now))
  {
    hide R.Reconcile, T.Reconcile;
    NewGuarded(env.now);
  }

  lemma StartRestsFromInitial(p: Prod, env: Env)
    requires Consistent(p.gadget) && p.gadget.tx == None && p.state == Ok(Initial)
    ensures var q := Reconcile(p, env);
            if env.setup.Some? then q.state == Err(FailedToSetupUsbClient(env.setup.value)) && q.update == env.now
            else q.state == Ok(WaitingForCar)
  {
    hide R.Reconcile, T.Reconcile, Consistent, Turn, Rank, RxSeen, TxSeen;
    TurnConsistent(p, env);
    TurnRanksIfChanged(p, env);
    StartTurn(p, env);
    var q := Turn(p, env);
    if env.setup.Some? {
      JustFailed(q, env);
    } else {
      RestsBySeen(q, env);
      NewSeen(q, env);
    }
  }

  lemma NewSeen(p: Prod, env: Env)
    requires p.gadget.tx == Some(T.NewTx(env.now))
    ensures TxSeen(p.gadget, env) == Other
  {
    hide T.Reconcile;
    T.FreshNeverReady(env.now, env.tx);
  }

  lemma JustFailed(p: Prod, env: Env)
    requires Consistent(p.gadget) && p.state.Err? && p.update == env.now
    ensures Reconcile(p, env).state == p.state && Reconcile(p, env).update == p.update
  {
    hide R.Reconcile, T.Reconcile, Consistent;
    assert Turn(p, env).state == p.state;
  }

  /** The transmitter has one owner, which is remembered while it lives; the receiver is not in the
      unexpected state, and its server, if there is one, has the remembered address. */
  predicate Sound(g: Gadget) {
    && (g.tx.Some? ==>
          && T.Owners(g.tx.value.client) <= 1
          && (g.tx.value.client.pendingTransmitter ==> g.tx.value.client.guards == 0)
          && (g.tx.value.client.guards > 0 ==> g.lastTx))
    && (g.rx.Some? ==>
          && g.rx.value.state != Err(R.UnexpectedState)
          && (g.rx.value.receiver.server.Some? ==> g.rx.value.receiver.server == g.rx.value.receiver.lastMac))
  }

  /** Every run of the composed gadget is sound. */
  lemma ComposedRuns(now: nat, actions: seq<Action>)
    requires IsRun(NewProd(now), actions)
    ensures Sound(After(NewProd(now), actions).gadget)
  {
    hide After, IsRun;
    RunInv(NewProd(now), actions);
  }
}
