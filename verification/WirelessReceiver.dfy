/** The wireless receiver: Bluetooth, interface, server, then inviting, receiving or passive. */
module WirelessReceiver {
  import opened Options

  type Mac = nat

  datatype Status =
    | Initial
    | WaitingForBluetooth
    | StartingBluetooth(bt: Mac)
    | StartingBluetoothPower(bt: Mac)
    | WaitingForInterface
    | WaitingForInterfaceRunning(mac: Mac)
    | WaitingForStableMulticast(mac: Mac)
    | StartingServer(mac: Mac)
    | StartingLastConnect(mac: Mac, peer: Mac)
    | Inviting
    | Receiving
    | Passive

  datatype Error =
    | AirPlayServer
    | Bonjour
    | Bluetooth
    | MacAddressChanged(prev: Mac, current: Mac)
    | InterfaceGone
    | UnexpectedState

  type State = Result<Status, Error>

  /** What one render sees: the clock, the answers of Bluetooth and of the interface, the outcome of
      binding and advertising, the session on the interface, and the peer cache file, if one is set,
      with the peer in it, if it can be read and parsed. */
  datatype Env = Env(
    now: nat, bluetooth: Option<Mac>, bluetoothStarts: bool, powersUp: bool,
    interface_: Option<Mac>, running: bool, multicastStable: bool, binds: bool, advertises: bool,
    session: bool, cacheFile: Option<Option<Mac>>)

  const RESTART_DELAY: nat := 1000

  /** The receiver's fields; a server is known by the address it was made with. */
  datatype Receiver = Receiver(
    server: Option<Mac>, bluetooth: bool, lastPeer: Option<Mac>, peerTask: bool,
    invitesBlocked: bool, lastMac: Option<Mac>, cacheLoaded: bool)

  datatype Rx = Rx(receiver: Receiver, state: State, update: nat)

  const NEW_RECEIVER := Receiver(None, false, None, false, false, None, false)

  function NewRx(now: nat): Rx {
    Rx(NEW_RECEIVER, Ok(Initial), now)
  }

  // One render.

  function LoadPeer(r: Receiver, env: Env): Receiver {
    if r.cacheLoaded || env.cacheFile == None then r
    else r.(cacheLoaded := true, lastPeer := if env.cacheFile.value.Some? then env.cacheFile.value else r.lastPeer)
  }

  /** The state between inviting and passive, by whether invites are blocked. */
  function Offer(blocked: bool): State {
    if blocked then Ok(Passive) else Ok(Inviting)
  }

  /** The interface is no longer the one that the server runs on. */
  function InterfaceError(r: Receiver, env: Env): Option<Error> {
    match (r.lastMac, env.interface_)
    case (None, _) => None
    case (Some(_), None) => Some(InterfaceGone)
    case (Some(last), Some(mac)) => if mac != last then Some(MacAddressChanged(last, mac)) else None
  }

  function Advance(r: Receiver, status: Status, env: Env): (Receiver, State) {
    match status
    case Initial => (r, Ok(WaitingForBluetooth))
    case WaitingForBluetooth =>
      (r, match env.bluetooth case None => Ok(WaitingForBluetooth) case Some(bt) => Ok(StartingBluetooth(bt)))
    case StartingBluetooth(bt) =>
      if env.bluetoothStarts then (r.(bluetooth := true), Ok(StartingBluetoothPower(bt))) else (r, Err(Bluetooth))
    case StartingBluetoothPower(bt) =>
      (r, if env.powersUp then Ok(WaitingForInterface) else Ok(StartingBluetoothPower(bt)))
    case WaitingForInterface =>
      (match env.interface_
       case Some(mac) => (r.(lastMac := Some(mac)), Ok(WaitingForInterfaceRunning(mac)))
       case None => (r, Ok(WaitingForInterface)))
    case WaitingForInterfaceRunning(mac) =>
      (r, if env.running then Ok(WaitingForStableMulticast(mac)) else Ok(WaitingForInterfaceRunning(mac)))
    case WaitingForStableMulticast(mac) =>
      (r, if env.multicastStable then Ok(StartingServer(mac)) else Ok(WaitingForStableMulticast(mac)))
    case StartingServer(mac) =>
      var r1 := r.(lastMac := Some(mac));
      if !env.binds then (r1, Err(AirPlayServer))
      else if !env.advertises then (r1, Err(Bonjour))
      else
        (r1.(server := Some(mac)),
         if r1.lastPeer.Some? then Ok(StartingLastConnect(mac, r1.lastPeer.value)) else Offer(r1.invitesBlocked))
    case StartingLastConnect(_, _) => (r.(peerTask := true), Offer(r.invitesBlocked))
    case Inviting =>
      if env.session then (r, Ok(Receiving))
      else if r.server == None then (r, Err(UnexpectedState))
      else (r, Offer(r.invitesBlocked))
    case Receiving =>
      if r.server == None then (r, Err(UnexpectedState))
      else (r.(peerTask := false), if env.session then Ok(Receiving) else Offer(r.invitesBlocked))
    case Passive =>
      if r.server == None then (r, Err(UnexpectedState))
      else (r, if env.session then Ok(Receiving) else Offer(r.invitesBlocked))
  }

  function Render(r: Receiver, prev: State, update: nat, env: Env): (Receiver, State) {
    match prev
    case Err(e) => (r, if env.now - update > RESTART_DELAY then Ok(Initial) else Err(e))
    case Ok(status) =>
      var r1 := LoadPeer(r, env);
      match InterfaceError(r1, env)
      case Some(e) => (r1, Err(e))
      case None => Advance(r1, status, env)
  }

  function OnUpdate(r: Receiver, new_: State): Receiver {
    if new_.Err? then r.(server := None, bluetooth := false, lastMac := None) else r
  }

  function Turn(x: Rx, env: Env): Rx {
    var (r, next) := Render(x.receiver, x.state, x.update, env);
    if next != x.state then Rx(OnUpdate(r, next), next, env.now) else x.(receiver := r)
  }

  // The loop ends.

  /** Where a receiver with a server ends up. */
  function Destination(r: Receiver, env: Env): State {
    if env.session then Ok(Receiving) else Offer(r.invitesBlocked)
  }

  function Rank(x: Rx, env: Env): (n: nat)
    ensures n <= 12
  {
    match x.state
    case Err(_) => if env.now - x.update > RESTART_DELAY then 12 else 0
    case Ok(Initial) => 11
    case Ok(WaitingForBluetooth) => 10
    case Ok(StartingBluetooth(_)) => 9
    case Ok(StartingBluetoothPower(_)) => 8
    case Ok(WaitingForInterface) => 7
    case Ok(WaitingForInterfaceRunning(_)) => 6
    case Ok(WaitingForStableMulticast(_)) => 5
    case Ok(StartingServer(_)) => 4
    case Ok(StartingLastConnect(_, _)) => 3
    case Ok(_) => if x.state == Destination(x.receiver, env) then 1 else 2
  }

  lemma AdvanceRanks(r: Receiver, status: Status, env: Env, update: nat)
    requires Advance(r, status, env).1 != Ok(status)
    ensures var (r', next) := Advance(r, status, env);
            Rank(Rx(OnUpdate(r', next), next, env.now), env) < Rank(Rx(r, Ok(status), update), env)
  {
  }

  lemma TurnRanks(x: Rx, env: Env)
    requires Turn(x, env).state != x.state
    ensures Rank(Turn(x, env), env) < Rank(x, env)
  {
    hide Advance, InterfaceError;
    if x.state.Ok? {
      var r1 := LoadPeer(x.receiver, env);
      assert Rank(Rx(r1, x.state, x.update), env) == Rank(x, env);
      if InterfaceError(r1, env) == None {
        AdvanceRanks(r1, x.state.value, env, x.update);
      }
    }
  }

  function Reconcile(x: Rx, env: Env): Rx
    decreases Rank(x, env)
  {
    var x' := Turn(x, env);
    if x'.state == x.state then x' else TurnRanks(x, env); Reconcile(x', env)
  }

  predicate Stable(x: Rx, env: Env) {
    Turn(x, env).state == x.state
  }

  /** A step that stays where it is stays there again. */
  lemma AdvanceAgain(r: Receiver, status: Status, env: Env)
    requires Advance(r, status, env).1 == Ok(status) && InterfaceError(r, env) == None
    ensures var r' := Advance(r, status, env).0;
            Advance(r', status, env).1 == Ok(status) && InterfaceError(r', env) == None
            && r'.cacheLoaded == r.cacheLoaded
  {
  }

  lemma StableStays(x: Rx, env: Env)
    requires Stable(x, env)
    ensures Stable(Turn(x, env), env)
  {
    hide Advance, InterfaceError;
    if x.state.Ok? {
      var r1 := LoadPeer(x.receiver, env);
      if InterfaceError(r1, env) == None {
        AdvanceAgain(r1, x.state.value, env);
      }
    }
  }

  lemma {:induction false} ReconcileStable(x: Rx, env: Env)
    ensures Stable(Reconcile(x, env), env)
    decreases Rank(x, env)
  {
    hide Turn;
    if Stable(x, env) {
      StableStays(x, env);
    } else {
      TurnRanks(x, env);
      ReconcileStable(Turn(x, env), env);
    }
  }

  // Whole runs.

  /** A render reads each part of its environment once; another file for the peer is loaded anew. */
  datatype Action =
    | Rendered(env: Env)
    /** A whole reconcile call during which the environment stands still. */
    | Reconciled(env: Env)
    | SetInvitesBlocked(blocked: bool)
    | SetCacheFile

  function Apply(x: Rx, a: Action): Rx {
    match a
    case Rendered(env) => Turn(x, env)
    case Reconciled(env) => Reconcile(x, env)
    case SetInvitesBlocked(blocked) => x.(receiver := x.receiver.(invitesBlocked := blocked))
    case SetCacheFile => x.(receiver := x.receiver.(cacheLoaded := false))
  }

  function After(x: Rx, actions: seq<Action>): Rx
    decreases |actions|
  {
    if actions == [] then x else After(Apply(x, actions[0]), actions[1..])
  }

  /** What each state says about address, server and Bluetooth. */
  predicate Consistent(x: Rx) {
    var r := x.receiver;
    match x.state
    case Err(e) => e != UnexpectedState && r.server == None && r.lastMac == None && !r.bluetooth
    case Ok(Initial) => r.server == None && r.lastMac == None && !r.bluetooth
    case Ok(WaitingForBluetooth) => r.server == None && r.lastMac == None && !r.bluetooth
    case Ok(StartingBluetooth(_)) => r.server == None && r.lastMac == None && !r.bluetooth
    case Ok(StartingBluetoothPower(_)) => r.server == None && r.lastMac == None && r.bluetooth
    case Ok(WaitingForInterface) => r.server == None && r.lastMac == None && r.bluetooth
    case Ok(WaitingForInterfaceRunning(mac)) => r.server == None && r.lastMac == Some(mac) && r.bluetooth
    case Ok(WaitingForStableMulticast(mac)) => r.server == None && r.lastMac == Some(mac) && r.bluetooth
    case Ok(StartingServer(mac)) => r.server == None && r.lastMac == Some(mac) && r.bluetooth
    case Ok(StartingLastConnect(mac, _)) => r.server == r.lastMac == Some(mac) && r.bluetooth
    case Ok(_) => r.server.Some? && r.server == r.lastMac && r.bluetooth
  }

  lemma AdvanceConsistent(r: Receiver, status: Status, env: Env, update: nat)
    requires Consistent(Rx(r, Ok(status), update))
    ensures var (r', next) := Advance(r, status, env);
            Consistent(Rx(OnUpdate(r', next), next, env.now))
  {
  }

  lemma TurnConsistent(x: Rx, env: Env)
    requires Consistent(x)
    ensures Consistent(Turn(x, env))
  {
    hide Advance, InterfaceError;
    if x.state.Ok? {
      var r1 := LoadPeer(x.receiver, env);
      AdvanceConsistent(r1, x.state.value, env, x.update);
      match InterfaceError(r1, env) {
        case Some(e) => KnownError(r1, env);
        case None =>
      }
    }
  }

  lemma KnownError(r: Receiver, env: Env)
    requires InterfaceError(r, env).Some?
    ensures InterfaceError(r, env).value != UnexpectedState
  {
  }

  lemma {:induction false} ReconcileConsistent(x: Rx, env: Env)
    requires Consistent(x)
    ensures Consistent(Reconcile(x, env))
    decreases Rank(x, env)
  {
    hide Turn, Consistent;
    TurnConsistent(x, env);
    if !Stable(x, env) {
      TurnRanks(x, env);
      ReconcileConsistent(Turn(x, env), env);
    }
  }

  lemma ApplyConsistent(x: Rx, a: Action)
    requires Consistent(x)
    ensures Consistent(Apply(x, a))
  {
    hide Reconcile, Turn;
    if a.Reconciled? { ReconcileConsistent(x, a.env); }
    if a.Rendered? { TurnConsistent(x, a.env); }
  }

  /** In every run the server, if there is one, was made with the remembered address, and the states
      tell when address and server are there. */
  lemma {:induction false} RunConsistent(x: Rx, actions: seq<Action>)
    requires Consistent(x)
    ensures Consistent(After(x, actions))
    decreases |actions|
  {
    hide Consistent, Apply;
    if actions != [] {
      ApplyConsistent(x, actions[0]);
      RunConsistent(Apply(x, actions[0]), actions[1..]);
    }
  }

  lemma NewConsistent(now: nat)
    ensures Consistent(NewRx(now))
  {
  }

  lemma ConsistentIsExpected(x: Rx)
    requires Consistent(x)
    ensures x.state != Err(UnexpectedState)
  {
  }

  /** The unexpected state is never entered, and a server present was made with the remembered address. */
  lemma ServerHasLastMac(now: nat, actions: seq<Action>)
    ensures var x := After(NewRx(now), actions);
            && x.state != Err(UnexpectedState)
            && (x.receiver.server.Some? ==> x.receiver.server == x.receiver.lastMac)
            && (x.receiver.server.Some? <==>
                  x.state.Ok? && (x.state.value.StartingLastConnect? || x.state.value in {Inviting, Receiving, Passive}))
  {
    hide After;
    RunConsistent(NewRx(now), actions);
  }

  /** A changed or missing interface takes the server away within one reconcile call, whatever else the
      environment says, and leaves the error that names the cause. */
  lemma InterfaceLossRemovesServer(x: Rx, env: Env)
    requires Consistent(x) && x.receiver.lastMac.Some? && env.interface_ != x.receiver.lastMac
    ensures var y := Reconcile(x, env);
            && y.receiver.server == None && y.receiver.lastMac == None && !y.receiver.bluetooth
            && y.state == Err(match env.interface_
                              case None => InterfaceGone
                              case Some(mac) => MacAddressChanged(x.receiver.lastMac.value, mac))
  {
    var y := Turn(x, env);
    assert y.state.Err? && y.update == env.now;
    assert Turn(y, env) == y;
    assert Reconcile(y, env) == y;
  }

  // Where the loop rests.

  /** How far the start-up has come; an error starts over. */
  function Stage(s: State): nat {
    match s
    case Err(_) => 0
    case Ok(Initial) => 0
    case Ok(WaitingForBluetooth) => 1
    case Ok(StartingBluetooth(_)) => 2
    case Ok(StartingBluetoothPower(_)) => 3
    case Ok(WaitingForInterface) => 4
    case Ok(WaitingForInterfaceRunning(_)) => 5
    case Ok(WaitingForStableMulticast(_)) => 6
    case Ok(StartingServer(_)) => 7
    case Ok(StartingLastConnect(_, _)) => 8
    case Ok(_) => 9
  }

  /** The start-up takes one stage per render and leaves none out, but for the last connect when no
      peer is known. */
  lemma OneStagePerRender(x: Rx, env: Env)
    requires x.state.Ok? && Turn(x, env).state.Ok? && Turn(x, env).state != x.state
    ensures Stage(Turn(x, env).state) ==
            if Stage(x.state) == 9 then 9
            else if Stage(x.state) == 7 && Turn(x, env).receiver.lastPeer == None then 9
            else Stage(x.state) + 1
  {
    hide InterfaceError;
  }

  /** The first thing that is not in order for a receiver, or what it does when nothing is left. */
  ghost function Obstacle(x: Rx, env: Env): State
    requires Consistent(x)
  {
    var s := Stage(x.state);
    if x.receiver.lastMac.Some? && env.interface_ == None then Err(InterfaceGone)
    else if x.receiver.lastMac.Some? && env.interface_ != x.receiver.lastMac then
      Err(MacAddressChanged(x.receiver.lastMac.value, env.interface_.value))
    else if s <= 1 && env.bluetooth == None then Ok(WaitingForBluetooth)
    else if s <= 2 && !env.bluetoothStarts then Err(Bluetooth)
    else if s <= 3 && !env.powersUp then
      Ok(StartingBluetoothPower(match x.state
                                case Ok(StartingBluetooth(bt)) => bt
                                case Ok(StartingBluetoothPower(bt)) => bt
                                case _ => env.bluetooth.value))
    else if s <= 4 && env.interface_ == None then Ok(WaitingForInterface)
    else if s <= 5 && !env.running then Ok(WaitingForInterfaceRunning(env.interface_.value))
    else if s <= 6 && !env.multicastStable then Ok(WaitingForStableMulticast(env.interface_.value))
    else if s <= 7 && !env.binds then Err(AirPlayServer)
    else if s <= 7 && !env.advertises then Err(Bonjour)
    else if env.session then Ok(Receiving)
    else if x.receiver.invitesBlocked then Ok(Passive)
    else Ok(Inviting)
  }

  lemma ObstacleOfTurn(x: Rx, env: Env)
    requires Consistent(x) && (x.state.Err? ==> env.now - x.update > 1000)
    ensures var y := Turn(x, env);
            && Consistent(y)
            && (y.state.Err? || y.state == x.state ==> y.state == Obstacle(x, env))
            && (y.state.Ok? && y.state != x.state ==> Obstacle(y, env) == Obstacle(x, env))
  {
    hide Advance, Obstacle;
    TurnConsistent(x, env);
    var r := LoadPeer(x.receiver, env);
    if x.state.Err? {
      ObstacleAfterError(x, env);
    } else {
      ObstacleIgnoresPeer(x, r, env);
      if InterfaceError(r, env) == None {
        ObstacleOfStep(r, x.state.value, x.update, env);
      } else {
        ObstacleOfInterface(x, env);
      }
    }
  }

  lemma ObstacleAfterError(x: Rx, env: Env)
    requires Consistent(x) && x.state.Err?
    ensures Consistent(Rx(x.receiver, Ok(Initial), env.now))
    ensures Obstacle(Rx(x.receiver, Ok(Initial), env.now), env) == Obstacle(x, env)
  {
  }

  lemma ObstacleIgnoresPeer(x: Rx, r: Receiver, env: Env)
    requires Consistent(x) && r == x.receiver.(cacheLoaded := r.cacheLoaded, lastPeer := r.lastPeer)
    ensures Consistent(x.(receiver := r)) && Obstacle(x.(receiver := r), env) == Obstacle(x, env)
  {
  }

  lemma ObstacleOfInterface(x: Rx, env: Env)
    requires Consistent(x) && InterfaceError(x.receiver, env).Some?
    ensures Obstacle(x, env) == Err(InterfaceError(x.receiver, env).value)
  {
  }

  lemma ObstacleOfStep(r: Receiver, status: Status, update: nat, env: Env)
    requires Consistent(Rx(r, Ok(status), update)) && InterfaceError(r, env) == None
    ensures var (r', next) := Advance(r, status, env);
            var obstacle := Obstacle(Rx(r, Ok(status), update), env);
            && (next.Err? || next == Ok(status) ==> next == obstacle)
            && (next.Ok? && next != Ok(status) ==>
                  Consistent(Rx(r', next, env.now)) && Obstacle(Rx(r', next, env.now), env) == obstacle)
  {
    AdvanceConsistent(r, status, env, update);
    match status
    case Initial =>
    case WaitingForBluetooth =>
    case StartingBluetooth(_) =>
    case StartingBluetoothPower(_) =>
    case WaitingForInterface =>
    case WaitingForInterfaceRunning(_) =>
    case WaitingForStableMulticast(_) =>
    case StartingServer(_) =>
    case StartingLastConnect(_, _) =>
    case Inviting =>
    case Receiving =>
    case Passive =>
  }

  lemma {:induction false} RestsAtObstacle(x: Rx, env: Env)
    requires Consistent(x) && (x.state.Err? ==> env.now - x.update > 1000)
    ensures Reconcile(x, env).state == Obstacle(x, env)
    decreases Rank(x, env)
  {
    hide Obstacle, Turn, Consistent;
    var y := Turn(x, env);
    ObstacleOfTurn(x, env);
    if y.state != x.state {
      TurnRanks(x, env);
      if y.state.Err? {
        TurnDated(x, env);
        ErrorRests(y, env);
      } else {
        RestsAtObstacle(y, env);
      }
    }
  }

  lemma TurnDated(x: Rx, env: Env)
    requires Turn(x, env).state != x.state
    ensures Turn(x, env).update == env.now
  {
    hide Advance;
  }

  /** One reconcile call of a receiver that does not wait out an error: it runs on to the first thing
      that is not in order, and says what that is; when nothing is left it receives if there is a
      session, is passive if invites are blocked, and invites otherwise. */
  lemma RestsAtFirstObstacle(x: Rx, env: Env)
    requires Consistent(x) && (x.state.Err? ==> env.now - x.update > 1000)
    ensures var s := Stage(x.state);
            Reconcile(x, env).state ==
            if x.receiver.lastMac.Some? && env.interface_ == None then Err(InterfaceGone)
            else if x.receiver.lastMac.Some? && env.interface_ != x.receiver.lastMac then
              Err(MacAddressChanged(x.receiver.lastMac.value, env.interface_.value))
            else if s <= 1 && env.bluetooth == None then Ok(WaitingForBluetooth)
            else if s <= 2 && !env.bluetoothStarts then Err(Bluetooth)
            else if s <= 3 && !env.powersUp then
              Ok(StartingBluetoothPower(match x.state
                                        case Ok(StartingBluetooth(bt)) => bt
                                        case Ok(StartingBluetoothPower(bt)) => bt
                                        case _ => env.bluetooth.value))
            else if s <= 4 && env.interface_ == None then Ok(WaitingForInterface)
            else if s <= 5 && !env.running then Ok(WaitingForInterfaceRunning(env.interface_.value))
            else if s <= 6 && !env.multicastStable then Ok(WaitingForStableMulticast(env.interface_.value))
            else if s <= 7 && !env.binds then Err(AirPlayServer)
            else if s <= 7 && !env.advertises then Err(Bonjour)
            else if env.session then Ok(Receiving)
            else if x.receiver.invitesBlocked then Ok(Passive)
            else Ok(Inviting)
  {
    hide Reconcile;
    RestsAtObstacle(x, env);
  }

  /** An error is waited out: for a second nothing changes at all. */
  lemma ErrorRests(x: Rx, env: Env)
    requires x.state.Err? && env.now - x.update <= 1000
    ensures Reconcile(x, env) == x
  {
    assert Turn(x, env) == x;
  }

  /** With a server in place only session and block flag decide. */
  lemma ServingFollowsSession(x: Rx, env: Env)
    requires Consistent(x) && x.receiver.server.Some? && env.interface_ == x.receiver.lastMac
    ensures Reconcile(x, env).state ==
            if env.session then Ok(Receiving) else if x.receiver.invitesBlocked then Ok(Passive) else Ok(Inviting)
  {
    RestsAtFirstObstacle(x, env);
  }

  lemma AdvanceKeeps(r: Receiver, status: Status, env: Env)
    ensures var q := Advance(r, status, env).0;
            q.invitesBlocked == r.invitesBlocked && q.cacheLoaded == r.cacheLoaded && q.lastPeer == r.lastPeer
  {
  }

  lemma TurnSettings(x: Rx, env: Env)
    ensures var r, q := x.receiver, Turn(x, env).receiver;
            && q.invitesBlocked == r.invitesBlocked
            && var loaded := if x.state.Ok? then LoadPeer(r, env) else r;
            q.cacheLoaded == loaded.cacheLoaded && q.lastPeer == loaded.lastPeer
  {
    hide Advance, InterfaceError, LoadPeer;
    if x.state.Ok? {
      AdvanceKeeps(LoadPeer(x.receiver, env), x.state.value, env);
      LoadKeeps(x.receiver, env);
    }
  }

  lemma LoadKeeps(r: Receiver, env: Env)
    ensures LoadPeer(r, env).invitesBlocked == r.invitesBlocked
  {
  }

  lemma {:induction false} RestSettings(x: Rx, env: Env)
    requires x.state.Err? ==> env.now - x.update > 1000
    ensures var r, y := x.receiver, Reconcile(x, env);
            var q, loaded := y.receiver, LoadPeer(r, env);
            && (y.state.Err? ==> y.update == env.now)
            && q.invitesBlocked == r.invitesBlocked && q.cacheLoaded == loaded.cacheLoaded && q.lastPeer == loaded.lastPeer
    decreases Rank(x, env)
  {
    hide Turn;
    var y := Turn(x, env);
    TurnSettings(x, env);
    if y.state != x.state {
      TurnRanks(x, env);
      TurnDated(x, env);
      if y.state.Err? {
        ErrorRests(y, env);
        ErrorFromOk(x, env);
      } else {
        RestSettings(y, env);
      }
    } else if x.state.Err? {
      ElapsedTurns(x, env);
    }
  }

  lemma ErrorFromOk(x: Rx, env: Env)
    requires Turn(x, env).state.Err? && Turn(x, env).state != x.state
    ensures x.state.Ok?
  {
    hide Advance;
  }

  lemma ElapsedTurns(x: Rx, env: Env)
    requires x.state.Err? && env.now - x.update > 1000
    ensures Turn(x, env).state == Ok(Initial)
  {
  }

  /** The task that calls the last peer after a call that comes to rest in `rest`. */
  ghost function TaskAfter(x: Rx, rest: State, peer: Option<Mac>): bool {
    if rest == Ok(Receiving) || (x.state == Ok(Receiving) && rest.Ok?) then false
    else if Stage(rest) == 9 && (Stage(x.state) == 8 || (Stage(x.state) <= 7 && peer.Some?)) then true
    else x.receiver.peerTask
  }

  lemma TaskOfStep(r: Receiver, status: Status, update: nat, env: Env)
    requires Consistent(Rx(r, Ok(status), update)) && InterfaceError(r, env) == None
    ensures var x, (r', next) := Rx(r, Ok(status), update), Advance(r, status, env);
            && (next.Err? || next == Ok(status) ==> r'.peerTask == TaskAfter(x, next, r.lastPeer))
            && (next.Ok? && next != Ok(status) ==>
                  var rest := Obstacle(x, env);
                  TaskAfter(Rx(r', next, env.now), rest, r.lastPeer) == TaskAfter(x, rest, r.lastPeer))
  {
  }

  lemma TaskOfTurn(x: Rx, env: Env)
    requires Consistent(x) && (x.state.Err? ==> env.now - x.update > 1000)
    ensures var y, peer, rest := Turn(x, env), LoadPeer(x.receiver, env).lastPeer, Obstacle(x, env);
            && (y.state.Err? || y.state == x.state ==> y.receiver.peerTask == TaskAfter(x, y.state, peer))
            && (y.state.Ok? && y.state != x.state ==> TaskAfter(y, rest, peer) == TaskAfter(x, rest, peer))
  {
    hide Advance, Obstacle;
    if x.state.Ok? {
      var r := LoadPeer(x.receiver, env);
      ObstacleIgnoresPeer(x, r, env);
      if InterfaceError(r, env) == None {
        TaskOfStep(r, x.state.value, x.update, env);
      }
    }
  }

  lemma {:induction false} RestTask(x: Rx, env: Env)
    requires Consistent(x) && (x.state.Err? ==> env.now - x.update > 1000)
    ensures var y := Reconcile(x, env);
            y.receiver.peerTask == TaskAfter(x, y.state, LoadPeer(x.receiver, env).lastPeer)
    decreases Rank(x, env)
  {
    hide Turn, Obstacle, Consistent, TaskAfter;
    var y := Turn(x, env);
    TaskOfTurn(x, env);
    ObstacleOfTurn(x, env);
    if y.state != x.state {
      TurnRanks(x, env);
      TurnDated(x, env);
      if y.state.Err? {
        ErrorRests(y, env);
      } else {
        RestTask(y, env);
        RestsAtObstacle(x, env);
        TurnSettings(x, env);
        LoadAgain(x, env);
      }
    }
  }

  lemma LoadAgain(x: Rx, env: Env)
    ensures LoadPeer(Turn(x, env).receiver, env).lastPeer == LoadPeer(x.receiver, env).lastPeer
  {
    hide Turn;
    TurnSettings(x, env);
  }

  lemma RestInterface(x: Rx, env: Env)
    requires Consistent(x) && Stable(x, env) && x.state.Ok? && Stage(x.state) >= 5
    ensures x.receiver.lastMac == env.interface_
    ensures Stage(x.state) >= 8 ==> x.receiver.server == env.interface_
  {
    hide Advance;
  }

  /** What else such a call leaves behind: an error clears the server, the address and Bluetooth and is
      dated, the peer is read from its file at most once, invites stay blocked or not, and the task that
      calls the last peer runs from the end of the start-up until a session was there. */
  lemma WhatARestLeaves(x: Rx, env: Env)
    requires Consistent(x) && (x.state.Err? ==> env.now - x.update > 1000)
    ensures var r, y := x.receiver, Reconcile(x, env);
            var q := y.receiver;
            && (y.state.Err? ==> y.update == env.now && q.server == None && q.lastMac == None && !q.bluetooth)
            && (y.state.Ok? && Stage(y.state) >= 5 ==> q.lastMac == env.interface_)
            && (y.state.Ok? && Stage(y.state) >= 8 ==> q.server == env.interface_)
            && q.invitesBlocked == r.invitesBlocked
            && q.cacheLoaded == (r.cacheLoaded || env.cacheFile.Some?)
            && q.lastPeer == (if !r.cacheLoaded && env.cacheFile.Some? && env.cacheFile.value.Some?
                              then env.cacheFile.value else r.lastPeer)
            && q.peerTask == (if y.state == Ok(Receiving) || (x.state == Ok(Receiving) && y.state.Ok?) then false
                              else if Stage(y.state) == 9 && (Stage(x.state) == 8 || (Stage(x.state) <= 7 && q.lastPeer.Some?))
                              then true else r.peerTask)
  {
    hide Reconcile, Stable;
    var y := Reconcile(x, env);
    ReconcileStable(x, env);
    ReconcileConsistent(x, env);
    RestSettings(x, env);
    RestTask(x, env);
    if y.state.Ok? && Stage(y.state) >= 5 {
      RestInterface(y, env);
    }
  }

  // What the composed gadget relies on.

  lemma {:induction false} ReconcileKeepsBlocked(x: Rx, env: Env)
    ensures Reconcile(x, env).receiver.invitesBlocked == x.receiver.invitesBlocked
    decreases Rank(x, env)
  {
    hide Turn;
    TurnSettings(x, env);
    if !Stable(x, env) {
      TurnRanks(x, env);
      ReconcileKeepsBlocked(Turn(x, env), env);
    }
  }

  lemma RenderedKeepsBlocked(x: Rx, a: Action)
    requires a.Rendered?
    ensures Apply(x, a).receiver.invitesBlocked == x.receiver.invitesBlocked
  {
    hide Turn, Reconcile;
    TurnSettings(x, a.env);
  }

  predicate IsReceiving(s: State) {
    s == Ok(Receiving)
  }

  /** Blocking or unblocking invites between two reconcile calls does not change whether it receives. */
  lemma ReceivingAfterBlocking(x: Rx, env: Env, blocked: bool)
    requires Consistent(x)
    ensures var y := Reconcile(x, env);
            IsReceiving(Reconcile(y.(receiver := y.receiver.(invitesBlocked := blocked)), env).state)
            <==> IsReceiving(y.state)
  {
    var y := Reconcile(x, env);
    ReconcileStable(x, env);
    ReconcileConsistent(x, env);
    BlockingStable(y, env, blocked);
  }

  lemma BlockingStable(y: Rx, env: Env, blocked: bool)
    requires Stable(y, env) && Consistent(y)
    ensures IsReceiving(Reconcile(y.(receiver := y.receiver.(invitesBlocked := blocked)), env).state)
            <==> IsReceiving(y.state)
  {
    var z := y.(receiver := y.receiver.(invitesBlocked := blocked));
    var w := Turn(z, env);
    if w.state == z.state {
      assert Reconcile(z, env) == w;
    } else {
      assert w.state == Offer(blocked);
      assert Turn(w, env).state == w.state;
      assert Reconcile(w, env) == Turn(w, env);
    }
  }
}
