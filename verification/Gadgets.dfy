/** The gadgets as objects: their fields change in place, render by render, as the loops of their
    reconcilers run. Whole runs of the objects are carried out at the end. */
module Gadgets {
  import opened Options
  import T = TxClient
  import R = WirelessReceiver
  import P = ProdGadget

  /** The USB transmitter client. */
  class UsbClient {
    var lastSession: Option<nat>
    var ctrlServer: Option<seq<T.Invite>>
    var pendingConnect: Option<T.Attempt>
    var pendingError: Option<nat>
    var pendingTransmitter: bool
    var transmitting: bool
    ghost var guards: nat

    ghost function View(): T.Client
      reads this
    {
      T.Client(lastSession, ctrlServer, pendingConnect, pendingError, pendingTransmitter, transmitting, guards)
    }

    constructor ()
      ensures View() == T.NEW_CLIENT
    {
      lastSession, ctrlServer, pendingConnect, pendingError := None, None, None, None;
      pendingTransmitter, transmitting, guards := false, false, 0;
    }

    method ConnectBonjour(invite: T.Invite) returns (ok: bool)
      modifies this`pendingConnect
      ensures ok == invite.hasAddress
      ensures pendingConnect == if ok then Some(T.InFlight) else old(pendingConnect)
    {
      if !invite.hasAddress { return false; }
      pendingConnect := Some(T.InFlight);
      return true;
    }

    /** Hands the transmitter over; `found` tells whether the flag was already up. */
    method PopTransmitter() returns (popped: bool, found: bool)
      modifies this
      ensures popped == old(pendingTransmitter) && found == (popped && old(transmitting))
      ensures forall state, update :: T.Tx(View(), state, update) == T.Pop(T.Tx(old(View()), state, update))
    {
      if !pendingTransmitter { return false, false; }
      pendingTransmitter := false;
      found := transmitting;
      transmitting := true;
      guards := guards + 1;
      popped := true;
    }

    /** The closure of a teardown guard, run once when the guard is dropped. */
    method DropGuard()
      requires guards > 0
      modifies this
      ensures View() == old(View()).(guards := old(guards) - 1, transmitting := false)
    {
      transmitting := false;
      guards := guards - 1;
    }

    method ForceUnlock()
      modifies this
      ensures View() == old(View()).(transmitting := false)
    {
      transmitting := false;
    }

    method OnUpdate(next: T.State)
      modifies this
      ensures View() == T.OnUpdate(old(View()), next)
    {
      if next.Err? {
        ctrlServer := None;
        pendingConnect := None;
        lastSession := None;
      }
    }

    /** The state follows from what is pending. */
    method Settle() returns (s: T.Status)
      ensures s == T.Settled(View())
    {
      if pendingTransmitter { return T.TransmitterReadyForPickup; }
      if pendingConnect.Some? { return T.Connecting; }
      if transmitting { return T.Transmitting; }
      return T.WaitingForInvite;
    }

    method Render(prev: T.State, update: nat, env: T.Env) returns (next: T.State)
      modifies this
      ensures (View(), next) == T.Render(old(View()), prev, update, env)
    {
      if prev.Err? {
        return if env.now - update > T.RESTART_DELAY then Ok(T.Initial) else prev;
      }
      if env.usb.UsbFailed? {
        return Err(T.UsbGadgetError(env.usb.code));
      }
      if pendingConnect.Some? && pendingConnect.value.Resolved? {
        var outcome := pendingConnect.value.outcome;
        pendingConnect := None;
        match outcome {
          case Ok(_) => pendingTransmitter := true;
          case Err(code) => pendingError := Some(code);
        }
      }
      assert View() == T.PickUp(old(View()));
      if pendingError.Some? {
        var code := pendingError.value;
        pendingError := None;
        return Err(T.Connect(code));
      }
      if env.usb.NoSession? {
        ctrlServer := None;
        return Ok(T.WaitingForUsbAccessory);
      }
      if lastSession != Some(env.usb.id) {
        ctrlServer := None;
        lastSession := Some(env.usb.id);
      }
      assert View() == T.ForSession(T.PickUp(old(View())), env.usb.id);
      next := RenderSession(prev.value, env);
    }

    /** The rest of `render`, with a session. */
    method RenderSession(status: T.Status, env: T.Env) returns (next: T.State)
      modifies this
      ensures (View(), next) == T.InSession(old(View()), status, env)
    {
      if ctrlServer == None {
        match env.ctrl {
          case Err(code) => return Err(T.CtrlServer(code));
          case Ok(invites) => ctrlServer := Some(invites);
        }
      }
      var invites := ctrlServer.value;
      if invites != [] {
        ctrlServer := Some(invites[1..]);
        if status == T.WaitingForInvite {
          return Ok(T.Invited(invites[0]));
        }
      }
      if status.Invited? {
        var connecting := ConnectBonjour(status.invite);
        return if connecting then Ok(T.Connecting) else Err(T.UnexpectedState);
      }
      var settled := Settle();
      return Ok(settled);
    }
  }

  class UsbClientReconciler {
    const child: UsbClient
    var state: T.State
    var update: nat

    ghost function View(): T.Tx
      reads this, child
    {
      T.Tx(child.View(), state, update)
    }

    constructor (now: nat)
      ensures fresh(child) && View() == T.NewTx(now)
    {
      child := new UsbClient();
      state := Ok(T.Initial);
      update := now;
    }

    /** One pass of the loop; `dirty` tells whether the state changed. */
    method Turn(env: T.Env) returns (dirty: bool)
      modifies this, child
      ensures View() == T.Turn(old(View()), env)
      ensures dirty <==> state != old(state)
    {
      hide T.Render, T.OnUpdate;
      var prev := state;
      var next := child.Render(prev, update, env);
      dirty := next != prev;
      if dirty {
        child.OnUpdate(next);
        state := next;
        update := env.now;
      }
    }

    /** Renders until the state does not change; `renders` counts. */
    method Reconcile(env: T.Env) returns (renders: nat)
      modifies this, child
      ensures View() == T.Reconcile(old(View()), env)
      ensures renders == T.Renders(old(View()), env) <= 7
    {
      hide T.Turn, T.Rank;
      var dirty := true;
      renders := 0;
      while dirty
        invariant !dirty ==> View() == T.Reconcile(old(View()), env) && renders == T.Renders(old(View()), env)
        invariant dirty ==>
                    && T.Reconcile(View(), env) == T.Reconcile(old(View()), env)
                    && renders + T.Renders(View(), env) == T.Renders(old(View()), env)
        decreases dirty, T.Rank(View(), env)
      {
        ghost var before := View();
        dirty := Turn(env);
        renders := renders + 1;
        if dirty { T.TurnRanks(before, env); }
      }
    }

    /** Whatever can happen to the client; `found` tells of a pick-up that found the flag up already. */
    method Perform(a: T.Action) returns (found: bool)
      requires T.Enabled(View(), a)
      modifies this, child
      ensures View() == T.Apply(old(View()), a)
      ensures found == (a.PopTransmitter? && old(child.pendingTransmitter) && old(child.transmitting))
    {
      hide T.Turn, T.Reconcile, T.Renders;
      found := false;
      match a {
        case Rendered(env) =>
          var _ := Turn(env);
        case Reconciled(env) =>
          var _ := Reconcile(env);
        case PopTransmitter =>
          ghost var before := View();
          var _, already := child.PopTransmitter();
          assert View() == T.Pop(before);
          found := already;
        case DropGuard => child.DropGuard();
        case Resolve(outcome) => child.pendingConnect := Some(T.Resolved(outcome));
        case InviteArrives(invite) => child.ctrlServer := Some(child.ctrlServer.value + [invite]);
        case ForceUnlock => child.ForceUnlock();
      }
    }
  }

  /** The wireless receiver. */
  class WirelessReceiver {
    var server: Option<R.Mac>
    var bluetooth: bool
    var lastPeer: Option<R.Mac>
    var peerTask: bool
    var invitesBlocked: bool
    var lastMac: Option<R.Mac>
    var cacheLoaded: bool

    ghost function View(): R.Receiver
      reads this
    {
      R.Receiver(server, bluetooth, lastPeer, peerTask, invitesBlocked, lastMac, cacheLoaded)
    }

    constructor ()
      ensures View() == R.NEW_RECEIVER
    {
      server, bluetooth, lastPeer, peerTask := None, false, None, false;
      invitesBlocked, lastMac, cacheLoaded := false, None, false;
    }

    method SetInvitesBlocked(blocked: bool)
      modifies this
      ensures View() == old(View()).(invitesBlocked := blocked)
    {
      invitesBlocked := blocked;
    }

    method OnUpdate(next: R.State)
      modifies this
      ensures View() == R.OnUpdate(old(View()), next)
    {
      if next.Err? {
        server := None;
        bluetooth := false;
        lastMac := None;
      }
    }

    method LoadPeer(env: R.Env)
      modifies this
      ensures View() == R.LoadPeer(old(View()), env)
    {
      if cacheLoaded || env.cacheFile == None { return; }
      cacheLoaded := true;
      if env.cacheFile.value.Some? {
        lastPeer := env.cacheFile.value;
      }
    }

    method SetCacheFile()
      modifies this
      ensures View() == old(View()).(cacheLoaded := false)
    {
      cacheLoaded := false;
    }

    method Render(prev: R.State, update: nat, env: R.Env) returns (next: R.State)
      modifies this
      ensures (View(), next) == R.Render(old(View()), prev, update, env)
    {
      if prev.Err? {
        return if env.now - update > R.RESTART_DELAY then Ok(R.Initial) else prev;
      }
      LoadPeer(env);
      if lastMac.Some? {
        match env.interface_ {
          case None => return Err(R.InterfaceGone);
          case Some(mac) =>
            if mac != lastMac.value {
              return Err(R.MacAddressChanged(lastMac.value, mac));
            }
        }
      }
      next := RenderStatus(prev.value, env);
    }

    /** One step of the start-up, or of the serving states. */
    method RenderStatus(status: R.Status, env: R.Env) returns (next: R.State)
      modifies this
      ensures (View(), next) == R.Advance(old(View()), status, env)
    {
      match status {
        case Initial => return Ok(R.WaitingForBluetooth);
        case WaitingForBluetooth =>
          match env.bluetooth {
            case None => return Ok(R.WaitingForBluetooth);
            case Some(bt) => return Ok(R.StartingBluetooth(bt));
          }
        case StartingBluetooth(bt) =>
          if !env.bluetoothStarts { return Err(R.Bluetooth); }
          bluetooth := true;
          return Ok(R.StartingBluetoothPower(bt));
        case StartingBluetoothPower(bt) =>
          return if env.powersUp then Ok(R.WaitingForInterface) else Ok(R.StartingBluetoothPower(bt));
        case WaitingForInterface =>
          if env.interface_ == None { return Ok(R.WaitingForInterface); }
          lastMac := env.interface_;
          return Ok(R.WaitingForInterfaceRunning(env.interface_.value));
        case WaitingForInterfaceRunning(mac) =>
          return if env.running then Ok(R.WaitingForStableMulticast(mac)) else Ok(R.WaitingForInterfaceRunning(mac));
        case WaitingForStableMulticast(mac) =>
          return if env.multicastStable then Ok(R.StartingServer(mac)) else Ok(R.WaitingForStableMulticast(mac));
        case StartingServer(mac) =>
          lastMac := Some(mac);
          if !env.binds { return Err(R.AirPlayServer); }
          if !env.advertises { return Err(R.Bonjour); }
          server := Some(mac);
          if lastPeer.Some? { return Ok(R.StartingLastConnect(mac, lastPeer.value)); }
          return R.Offer(invitesBlocked);
        case StartingLastConnect(_, _) =>
          peerTask := true;
          return R.Offer(invitesBlocked);
        case Inviting =>
          if env.session { return Ok(R.Receiving); }
          if server == None { return Err(R.UnexpectedState); }
          return R.Offer(invitesBlocked);
        case Receiving =>
          if server == None { return Err(R.UnexpectedState); }
          peerTask := false;
          return if env.session then Ok(R.Receiving) else R.Offer(invitesBlocked);
        case Passive =>
          if server == None { return Err(R.UnexpectedState); }
          return if env.session then Ok(R.Receiving) else R.Offer(invitesBlocked);
      }
    }
  }

  class ReceiverReconciler {
    const child: WirelessReceiver
    var state: R.State
    var update: nat

    ghost function View(): R.Rx
      reads this, child
    {
      R.Rx(child.View(), state, update)
    }

    constructor (now: nat)
      ensures fresh(child) && View() == R.NewRx(now)
    {
      child := new WirelessReceiver();
      state := Ok(R.Initial);
      update := now;
    }

    /** One pass of the loop; `dirty` tells whether the state changed. */
    method Turn(env: R.Env) returns (dirty: bool)
      modifies this, child
      ensures View() == R.Turn(old(View()), env)
      ensures dirty <==> state != old(state)
    {
      hide R.Render, R.OnUpdate;
      var prev := state;
      var next := child.Render(prev, update, env);
      dirty := next != prev;
      if dirty {
        child.OnUpdate(next);
        state := next;
        update := env.now;
      }
    }

    /** Renders until the state does not change. */
    method Reconcile(env: R.Env)
      modifies this, child
      ensures View() == R.Reconcile(old(View()), env)
    {
      hide R.Turn, R.Rank;
      var dirty := true;
      while dirty
        invariant !dirty ==> View() == R.Reconcile(old(View()), env)
        invariant dirty ==> R.Reconcile(View(), env) == R.Reconcile(old(View()), env)
        decreases dirty, R.Rank(View(), env)
      {
        ghost var before := View();
        dirty := Turn(env);
        if dirty { R.TurnRanks(before, env); }
      }
    }

    /** Whatever can happen to the receiver. */
    method Perform(a: R.Action)
      modifies this, child
      ensures View() == R.Apply(old(View()), a)
    {
      hide R.Turn, R.Reconcile;
      match a {
        case Rendered(env) =>
          var _ := Turn(env);
        case Reconciled(env) => Reconcile(env);
        case SetInvitesBlocked(blocked) => child.SetInvitesBlocked(blocked);
        case SetCacheFile => child.SetCacheFile();
      }
    }
  }

  /** The composed gadget; its children are made by its first render. */
  class ComposedGadget {
    var rx: ReceiverReconciler?
    var tx: UsbClientReconciler?
    var lastTx: bool
    ghost var repr: set<object>

    ghost predicate Valid()
      reads this, repr
    {
      && this !in repr
      && (rx != null ==> rx in repr && rx.child in repr)
      && (tx != null ==> tx in repr && tx.child in repr)
    }

    ghost function View(): P.Gadget
      requires Valid()
      reads this, repr
    {
      P.Gadget(if rx == null then None else Some(rx.View()), if tx == null then None else Some(tx.View()), lastTx)
    }

    constructor ()
      ensures Valid() && repr == {} && View() == P.Gadget(None, None, false)
    {
      rx, tx, lastTx, repr := null, null, false, {};
    }

    method ReconcileChildren(env: P.Env)
      requires Valid()
      modifies repr
      ensures Valid() && unchanged(this)
      ensures View() == P.Children(old(View()), env)
    {
      hide R.Reconcile, T.Reconcile, T.Renders;
      if rx != null {
        rx.Reconcile(env.rx);
      }
      if tx != null {
        var _ := tx.Reconcile(env.tx);
      }
    }

    method OnUpdate(next: P.State)
      requires Valid()
      modifies repr
      ensures Valid() && unchanged(this)
      ensures View() == P.OnUpdate(old(View()), next)
    {
      if next.Err? && rx != null {
        rx.child.SetInvitesBlocked(true);
      }
    }

    method Render(prev: P.State, update: nat, env: P.Env) returns (next: P.State, found: bool)
      requires Valid() && P.Consistent(View())
      modifies this, repr
      ensures Valid() && fresh(repr - old(repr))
      ensures (View(), next) == P.Render(old(View()), prev, update, env)
      ensures !found
    {
      hide P.RenderOwn, P.Children, P.Consistent;
      P.ChildrenConsistent(View(), env);
      ReconcileChildren(env);
      next, found := RenderOwn(prev, update, env.now, env.setup);
    }

    /** The render after the children's own loops; `found` tells of a pick-up that found the client's
        flag up already. */
    method RenderOwn(prev: P.State, update: nat, now: nat, setup: Option<nat>) returns (next: P.State, found: bool)
      requires Valid() && P.Consistent(View())
      modifies this, repr
      ensures Valid() && fresh(repr - old(repr))
      ensures (View(), next) == P.RenderOwn(old(View()), prev, update, now, setup)
      ensures !found
    {
      hide P.PickUp, P.Advance, T.Pop, P.Block, R.Consistent;
      found := false;
      if prev.Err? {
        return if now - update > P.RESTART_DELAY then Ok(P.Initial) else prev, found;
      }
      if rx == null {
        rx := new ReceiverReconciler(now);
        repr := repr + {rx, rx.child};
      }
      if tx == null {
        if setup.Some? {
          return Err(P.FailedToSetupUsbClient(setup.value)), found;
        }
        tx := new UsbClientReconciler(now);
        repr := repr + {tx, tx.child};
      }
      found := PickUp();
      next := Ok(P.Advance(prev.value, tx.state, rx.state));
    }

    /** Takes a transmitter that waits, and unblocks invites once there has been one. */
    method PickUp() returns (found: bool)
      requires Valid() && rx != null && tx != null
      modifies this`lastTx, rx.child, tx.child
      ensures Valid() && View() == P.PickUp(old(View()))
      ensures tx.state == old(tx.state) && rx.state == old(rx.state)
      ensures found == (old(tx.child.pendingTransmitter) && old(tx.child.transmitting))
    {
      ghost var before := tx.View();
      var popped, already := tx.child.PopTransmitter();
      assert tx.View() == T.Pop(before);
      if popped {
        lastTx := true;
      }
      rx.child.SetInvitesBlocked(!lastTx);
      found := already;
    }
  }

  class ComposedReconciler {
    const child: ComposedGadget
    var state: P.State
    var update: nat

    ghost predicate Valid()
      reads this, child, child.repr
    {
      child.Valid() && this !in child.repr
    }

    ghost function View(): P.Prod
      requires Valid()
      reads this, child, child.repr
    {
      P.Prod(child.View(), state, update)
    }

    constructor (now: nat)
      ensures Valid() && fresh(child) && fresh(child.repr) && View() == P.NewProd(now)
    {
      child := new ComposedGadget();
      state := Ok(P.Initial);
      update := now;
    }

    /** One pass of the loop. */
    method Turn(env: P.Env) returns (dirty: bool, found: bool)
      requires Valid() && P.Consistent(View().gadget)
      modifies this, child, child.repr
      ensures Valid() && fresh(child.repr - old(child.repr))
      ensures View() == P.Turn(old(View()), env)
      ensures (dirty <==> state != old(state)) && !found
    {
      hide P.Render, P.OnUpdate, P.Consistent;
      var prev := state;
      var next, already := child.Render(prev, update, env);
      dirty, found := next != prev, already;
      if dirty {
        child.OnUpdate(next);
        state := next;
        update := env.now;
      }
    }

    /** The part of a pass after the children's own loops. */
    method OwnTurn(now: nat, setup: Option<nat>) returns (found: bool)
      requires Valid() && P.Consistent(View().gadget)
      modifies this, child, child.repr
      ensures Valid() && fresh(child.repr - old(child.repr))
      ensures View() == P.OwnTurn(old(View()), now, setup)
      ensures !found
    {
      hide P.RenderOwn, P.OnUpdate, P.Consistent;
      var prev := state;
      var next, already := child.RenderOwn(prev, update, now, setup);
      found := already;
      if next != prev {
        child.OnUpdate(next);
        state := next;
        update := now;
      }
    }

    /** Renders until the state does not change: at most ten times. */
    method Reconcile(env: P.Env) returns (renders: nat, found: bool)
      requires Valid() && P.Consistent(View().gadget)
      modifies this, child, child.repr
      ensures Valid() && fresh(child.repr - old(child.repr))
      ensures P.Consistent(View().gadget)
      ensures View() == P.Reconcile(old(View()), env)
      ensures renders == P.Renders(old(View()), env) <= 10
      ensures !found
    {
      hide P.Turn, P.Rank, P.Consistent;
      var dirty := true;
      renders, found := 0, false;
      while dirty
        invariant Valid() && fresh(child.repr - old(child.repr))
        invariant P.Consistent(View().gadget) && !found
        invariant !dirty ==> View() == P.Reconcile(old(View()), env) && renders == P.Renders(old(View()), env)
        invariant dirty ==>
                    && P.Reconcile(View(), env) == P.Reconcile(old(View()), env)
                    && renders + P.Renders(View(), env) == P.Renders(old(View()), env)
        decreases dirty, P.Rank(View(), env)
      {
        ghost var before := View();
        P.TurnConsistent(before, env);
        var already;
        dirty, already := Turn(env);
        found := found || already;
        renders := renders + 1;
        if dirty { P.TurnRanks(before, env); }
      }
    }

    /** Whatever can happen to the gadget and, between its renders, to its children. */
    method Perform(a: P.Action) returns (found: bool)
      requires Valid() && P.Inv(View()) && P.Enabled(View(), a)
      modifies this, child, child.repr
      ensures Valid() && fresh(child.repr - old(child.repr))
      ensures View() == P.Apply(old(View()), a)
      ensures !found
    {
      hide P.OwnTurn, P.Reconcile, P.Renders, P.Consistent, T.Apply, R.Apply, T.Guarded;
      match a {
        case Rendered(now, setup) => found := OwnTurn(now, setup);
        case Reconciled(env) =>
          var _, already := Reconcile(env);
          found := already;
        case OnRx(b) =>
          child.rx.Perform(b);
          found := false;
        case OnTx(b) => found := child.tx.Perform(b);
      }
    }
  }

  // Whole runs of the objects.

  /** Carries any run out on a new client: the object ends where the model ends, and no pick-up on the
      way found a transmitter out already. */
  method RunOnClient(now: nat, actions: seq<T.Action>) returns (client: UsbClientReconciler, found: bool)
    requires T.IsRun(T.NewTx(now), actions)
    ensures fresh(client) && client.View() == T.After(T.NewTx(now), actions)
    ensures !found
  {
    hide T.Apply, T.Enabled, T.Exclusive;
    client := new UsbClientReconciler(now);
    found := false;
    T.NewExclusive(now);
    assert actions[0..] == actions;
    for i := 0 to |actions|
      invariant fresh(client) && fresh(client.child)
      invariant T.Exclusive(client.View()) && !found
      invariant T.IsRun(client.View(), actions[i..])
      invariant T.After(client.View(), actions[i..]) == T.After(T.NewTx(now), actions)
    {
      ghost var t := client.View();
      assert actions[i..][0] == actions[i] && actions[i..][1..] == actions[i + 1..];
      T.ApplyExclusive(t, actions[i]);
      T.ReadyMeansFlagDown(t);
      var already := client.Perform(actions[i]);
      found := found || already;
    }
  }

  /** The same for a new receiver: it is never found in the unexpected state. */
  method RunOnReceiver(now: nat, actions: seq<R.Action>) returns (receiver: ReceiverReconciler, unexpected: bool)
    ensures fresh(receiver) && receiver.View() == R.After(R.NewRx(now), actions)
    ensures !unexpected
  {
    hide R.Apply, R.Consistent;
    receiver := new ReceiverReconciler(now);
    unexpected := false;
    R.NewConsistent(now);
    assert actions[0..] == actions;
    for i := 0 to |actions|
      invariant fresh(receiver) && fresh(receiver.child)
      invariant R.Consistent(receiver.View()) && !unexpected
      invariant R.After(receiver.View(), actions[i..]) == R.After(R.NewRx(now), actions)
    {
      assert actions[i..][0] == actions[i] && actions[i..][1..] == actions[i + 1..];
      R.ApplyConsistent(receiver.View(), actions[i]);
      receiver.Perform(actions[i]);
      R.ConsistentIsExpected(receiver.View());
      unexpected := unexpected || receiver.state == Err(R.UnexpectedState);
    }
  }

  /** The same for the composed gadget, with both children made and driven by it. */
  method RunOnComposed(now: nat, actions: seq<P.Action>) returns (gadget: ComposedReconciler, found: bool)
    requires P.IsRun(P.NewProd(now), actions)
    ensures gadget.Valid() && gadget.View() == P.After(P.NewProd(now), actions)
    ensures P.Sound(gadget.View().gadget)
    ensures !found
  {
    hide P.Apply, P.Enabled, P.Inv, P.Sound;
    gadget := new ComposedReconciler(now);
    found := false;
    P.NewInv(now);
    assert actions[0..] == actions;
    for i := 0 to |actions|
      invariant fresh(gadget) && fresh(gadget.child) && fresh(gadget.child.repr)
      invariant gadget.Valid() && P.Inv(gadget.View()) && !found
      invariant P.IsRun(gadget.View(), actions[i..])
      invariant P.After(gadget.View(), actions[i..]) == P.After(P.NewProd(now), actions)
    {
      assert actions[i..][0] == actions[i] && actions[i..][1..] == actions[i + 1..];
      P.ApplyInv(gadget.View(), actions[i]);
      var already := gadget.Perform(actions[i]);
      found := found || already;
    }
    P.ComposedRuns(now, actions);
  }
}
