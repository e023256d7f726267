/** Who owns the simulator's socket: acceptLoop, the write-failure path of sendAcyclicFrame and shutdown
    (bc.cpp) hand client descriptors to each other through the atomic m_clientFd.

    Any number of threads may run any of the three at once; the kernel may give a closed descriptor's
    number to the next connection it accepts. Connections are numbered in the order of acceptance. */
module Connection {
  /** Where a thread stands. A descriptor in a state is a local variable of the thread; `loaded` records
      which connection that number stood for when it was loaded, and no step depends on it. */
  datatype Pc =
    | Idle
    | Accepting            // in accept()
    | Accepted(fd: nat)    // accept() has returned; the flag is not yet looked at
    | Publishing(fd: nat)  // about to exchange the new socket into m_clientFd
    | Refusing(fd: nat)    // about to close the new socket because of a shutdown
    | Replacing(fd: nat)   // about to close the old client that the exchange returned
    | Writing(fd: nat, loaded: nat)     // has loaded m_clientFd and calls write()
    | WriteFailed(fd: nat, loaded: nat) // about to exchange -1 into m_clientFd
    | Discarding(fd: nat, loaded: nat)  // about to close the number whose write failed
    | Stopping             // shutdown() has cleared the flag; about to exchange -1 into m_clientFd
    | HangingUp(fd: nat)   // about to shut down the client that the exchange returned
    | Closing(fd: nat)     // about to close it

  /** `open` is the kernel's table of open client descriptors. `closes` lists the connections closed, in
      order; `strayCloses` counts closes of a number that was not open; `dropped` are the connections
      taken out of m_clientFd by a sender that then forgot them. */
  datatype State = State(
    initialized: bool, clientFd: int, open: map<nat, nat>, accepted: nat, pcs: map<nat, Pc>,
    closes: seq<nat>, strayCloses: nat, dropped: set<nat>)

  const INITIAL := State(false, -1, map[], 0, map[], [], 0, {})

  datatype Action =
    | Initialize
    | EnterAccept(t: nat)
    | AcceptReturns(t: nat, fd: nat)
    | AcceptFails(t: nat)
    | CheckFlag(t: nat)
    | Publish(t: nat)
    | LoadClient(t: nat)
    | WriteReturns(t: nat, ok: bool)
    | TakeBack(t: nat)
    | BeginShutdown(t: nat)
    | TakeClient(t: nat)
    | HangUp(t: nat)
    | Close(t: nat)

  function PcOf(s: State, t: nat): Pc {
    if t in s.pcs then s.pcs[t] else Idle
  }

  function At(s: State, t: nat, pc: Pc): State {
    s.(pcs := s.pcs[t := pc])
  }

  /** close(fd): frees the number, whatever connection it stands for at that moment. */
  function CloseFd(s: State, fd: nat): State {
    if fd in s.open then s.(closes := s.closes + [s.open[fd]], open := s.open - {fd})
    else s.(strayCloses := s.strayCloses + 1)
  }

  /** One atomic step of one thread; a step the thread is not ready for changes nothing. */
  function Next(s: State, a: Action): State {
    match a
    case Initialize => s.(initialized := true)
    case EnterAccept(t) => if PcOf(s, t) == Idle && s.initialized then At(s, t, Accepting) else s
    case AcceptReturns(t, fd) =>
      if PcOf(s, t) == Accepting && fd !in s.open
      then At(s.(open := s.open[fd := s.accepted], accepted := s.accepted + 1), t, Accepted(fd)) else s
    case AcceptFails(t) => if PcOf(s, t) == Accepting then At(s, t, Idle) else s
    case CheckFlag(t) =>
      if PcOf(s, t).Accepted?
      then At(s, t, if s.initialized then Publishing(PcOf(s, t).fd) else Refusing(PcOf(s, t).fd)) else s
    case Publish(t) =>
      if PcOf(s, t).Publishing?
      then At(s.(clientFd := PcOf(s, t).fd), t, if s.clientFd >= 0 then Replacing(s.clientFd) else Idle) else s
    case LoadClient(t) =>
      if PcOf(s, t) == Idle && s.clientFd >= 0
      then At(s, t, Writing(s.clientFd, if s.clientFd in s.open then s.open[s.clientFd] else s.accepted)) else s
    case WriteReturns(t, ok) =>
      if PcOf(s, t).Writing? then At(s, t, if ok then Idle else WriteFailed(PcOf(s, t).fd, PcOf(s, t).loaded)) else s
    case TakeBack(t) =>
      if PcOf(s, t).WriteFailed? then
        var taken := s.(clientFd := -1);
        if s.clientFd == PcOf(s, t).fd then At(taken, t, Discarding(PcOf(s, t).fd, PcOf(s, t).loaded))
        else if s.clientFd >= 0 && s.clientFd in s.open
        then At(taken.(dropped := s.dropped + {s.open[s.clientFd]}), t, Idle)
        else At(taken, t, Idle)
      else s
    case BeginShutdown(t) => if PcOf(s, t) == Idle then At(s.(initialized := false), t, Stopping) else s
    case TakeClient(t) =>
      if PcOf(s, t) == Stopping
      then At(s.(clientFd := -1), t, if s.clientFd >= 0 then HangingUp(s.clientFd) else Idle) else s
    case HangUp(t) => if PcOf(s, t).HangingUp? then At(s, t, Closing(PcOf(s, t).fd)) else s
    case Close(t) =>
      var pc := PcOf(s, t);
      if pc.Refusing? || pc.Replacing? || pc.Discarding? || pc.Closing? then At(CloseFd(s, pc.fd), t, Idle) else s
  }

  /** The state after a run: any sequence of actions, that is, any interleaving of any threads. */
  function Exec(actions: seq<Action>): State {
    if actions == [] then INITIAL else Next(Exec(actions[..|actions| - 1]), actions[|actions| - 1])
  }

  // ---- Ownership ----

  /** The thread holds a new socket that it has not handed on. */
  predicate Holding(pc: Pc) {
    pc.Accepted? || pc.Publishing? || pc.Refusing?
  }

  /** The thread has taken a client out of m_clientFd and must close it. */
  predicate Taking(pc: Pc) {
    pc.Replacing? || pc.Discarding? || pc.HangingUp? || pc.Closing?
  }

  /** A sender's copy of the descriptor (Writing, WriteFailed) is not ownership: it may be stale. */
  predicate Owns(s: State, t: nat, fd: nat) {
    (Holding(PcOf(s, t)) || Taking(PcOf(s, t))) && PcOf(s, t).fd == fd
  }

  /** Descriptor fd stands for connection c. */
  predicate Carries(s: State, fd: nat, c: nat) {
    fd in s.open && s.open[fd] == c
  }

  ghost predicate OwnersOk(s: State) {
    && (forall t, fd :: Owns(s, t, fd) ==> fd in s.open && fd != s.clientFd && s.open[fd] !in s.dropped)
    && (forall t, u, fd :: Owns(s, t, fd) && Owns(s, u, fd) ==> t == u)
    && (s.clientFd >= 0 ==> s.clientFd in s.open && s.open[s.clientFd] !in s.dropped)
  }

  ghost predicate EveryDescriptorOwned(s: State) {
    forall fd :: fd in s.open ==> fd == s.clientFd || s.open[fd] in s.dropped || exists t :: Owns(s, t, fd)
  }

  ghost predicate KernelOk(s: State) {
    && (forall f, g, c: nat :: Carries(s, f, c) && Carries(s, g, c) ==> f == g)
    && (forall f, c: nat :: Carries(s, f, c) ==> c < s.accepted && c !in s.closes)
    && (forall c: nat :: c < s.accepted && c !in s.closes ==> exists f :: Carries(s, f, c))
    && (forall c :: c in s.closes || c in s.dropped ==> c < s.accepted)
    && (forall c :: c in s.dropped ==> c !in s.closes)
    && (forall i, j :: 0 <= i < j < |s.closes| ==> s.closes[i] != s.closes[j])
    && s.strayCloses == 0
  }

  ghost predicate Inv(s: State) {
    OwnersOk(s) && EveryDescriptorOwned(s) && KernelOk(s)
  }

  /** The step changes neither the kernel's table nor its history. */
  ghost predicate SameKernel(s: State, n: State) {
    n.open == s.open && n.closes == s.closes && n.accepted == s.accepted && n.strayCloses == s.strayCloses
  }

  ghost predicate OthersStay(s: State, n: State, t: nat) {
    forall u :: u != t ==> PcOf(n, u) == PcOf(s, u)
  }

  lemma KernelUntouched(s: State, n: State)
    requires KernelOk(s) && SameKernel(s, n) && n.dropped == s.dropped
    ensures KernelOk(n)
  {
    assert forall f, c :: Carries(n, f, c) <==> Carries(s, f, c);
  }

  /** A step inside one thread that hands no descriptor over. */
  lemma LocalStep(s: State, n: State, t: nat)
    requires Inv(s) && SameKernel(s, n) && n.dropped == s.dropped && n.clientFd == s.clientFd && OthersStay(s, n, t)
    requires forall fd :: Owns(n, t, fd) <==> Owns(s, t, fd)
    ensures Inv(n)
  {
    KernelUntouched(s, n);
    assert forall u, fd :: Owns(n, u, fd) <==> Owns(s, u, fd);
  }

  /** The atomic exchange: thread t puts `put` (a descriptor of its own, or nothing) into m_clientFd and
      walks away with what was there. */
  lemma ExchangeStep(s: State, n: State, t: nat)
    requires Inv(s) && SameKernel(s, n) && n.dropped == s.dropped && OthersStay(s, n, t)
    requires n.clientFd >= 0 ==> Owns(s, t, n.clientFd)
    requires forall fd :: Owns(s, t, fd) ==> fd == n.clientFd
    requires forall fd: nat :: Owns(n, t, fd) <==> fd == s.clientFd
    ensures Inv(n)
  {
    KernelUntouched(s, n);
    assert forall u, fd :: u != t ==> (Owns(n, u, fd) <==> Owns(s, u, fd));
    forall fd | fd in n.open && fd != n.clientFd && n.open[fd] !in n.dropped
      ensures exists u :: Owns(n, u, fd)
    {
      if fd == s.clientFd {
        assert Owns(n, t, fd);
      } else {
        var u :| Owns(s, u, fd);
        assert Owns(n, u, fd);
      }
    }
  }

  /** The mismatch case: a sender takes a client out of m_clientFd and forgets it. */
  lemma DropStep(s: State, n: State, t: nat)
    requires Inv(s) && SameKernel(s, n) && OthersStay(s, n, t)
    requires s.clientFd >= 0 && n.clientFd == -1 && n.dropped == s.dropped + {s.open[s.clientFd]}
    requires forall fd :: !Owns(s, t, fd) && !Owns(n, t, fd)
    ensures Inv(n)
  {
    assert forall u, fd :: Owns(n, u, fd) <==> Owns(s, u, fd);
    assert forall f, c :: Carries(n, f, c) <==> Carries(s, f, c);
    assert Carries(s, s.clientFd, s.open[s.clientFd]);
    assert KernelOk(n);
    forall u, fd | Owns(n, u, fd)
      ensures n.open[fd] !in n.dropped
    {
      assert Carries(s, fd, s.open[fd]);
    }
    assert OwnersOk(n);
    forall fd | fd in n.open && n.open[fd] !in n.dropped
      ensures exists u :: Owns(n, u, fd)
    {
      var u :| Owns(s, u, fd);
      assert Owns(n, u, fd);
    }
  }

  lemma AcceptStep(s: State, n: State, t: nat, fd: nat)
    requires Inv(s) && OthersStay(s, n, t) && fd !in s.open
    requires n == s.(open := s.open[fd := s.accepted], accepted := s.accepted + 1, pcs := n.pcs)
    requires forall f :: !Owns(s, t, f) && (Owns(n, t, f) <==> f == fd)
    ensures Inv(n)
  {
    assert forall u, f :: u != t ==> (Owns(n, u, f) <==> Owns(s, u, f));
    assert forall f, c :: Carries(n, f, c) <==> if f == fd then c == s.accepted else Carries(s, f, c);
    forall c: nat | c < n.accepted && c !in n.closes
      ensures exists f :: Carries(n, f, c)
    {
      if c == s.accepted {
        assert Carries(n, fd, c);
      } else {
        var f :| Carries(s, f, c);
        assert Carries(n, f, c);
      }
    }
    assert KernelOk(n);
    assert OwnersOk(n);
    forall f | f in n.open && f != n.clientFd && n.open[f] !in n.dropped
      ensures exists u :: Owns(n, u, f)
    {
      if f == fd {
        assert Owns(n, t, f);
      } else {
        var u :| Owns(s, u, f);
        assert Owns(n, u, f);
      }
    }
  }

  /** Closing: always an open descriptor of the thread's own. */
  lemma CloseStep(s: State, n: State, t: nat, fd: nat)
    requires Inv(s) && OthersStay(s, n, t) && Owns(s, t, fd)
    requires n == CloseFd(s, fd).(pcs := n.pcs)
    requires forall f :: !Owns(n, t, f)
    ensures Inv(n)
  {
    var gone := s.open[fd];
    assert forall u, f :: u != t ==> (Owns(n, u, f) <==> Owns(s, u, f));
    assert Carries(s, fd, gone);
    assert forall f, c :: Carries(n, f, c) <==> f != fd && Carries(s, f, c);
    forall c: nat | c < n.accepted && c !in n.closes
      ensures exists f :: Carries(n, f, c)
    {
      assert gone in n.closes by {
        assert n.closes[|s.closes|] == gone;
      }
      assert forall d :: d in s.closes ==> d in n.closes;
      var f :| Carries(s, f, c);
      assert Carries(n, f, c);
    }
    assert KernelOk(n);
    assert OwnersOk(n);
    forall f | f in n.open && f != n.clientFd && n.open[f] !in n.dropped
      ensures exists u :: Owns(n, u, f)
    {
      var u :| Owns(s, u, f);
      assert Owns(n, u, f);
    }
  }

  /** Actions that only move a thread along. */
  predicate IsLocal(a: Action) {
    || a.EnterAccept? || a.AcceptFails? || a.CheckFlag? || a.LoadClient? || a.WriteReturns?
    || a.BeginShutdown? || a.HangUp?
  }

  lemma LocalActionKeepsInv(s: State, a: Action)
    requires Inv(s) && IsLocal(a)
    ensures Inv(Next(s, a))
  {
    hide Inv;
    var n := Next(s, a);
    if n != s {
      LocalStep(s, n, a.t);
    }
  }

  lemma TakeBackKeepsInv(s: State, t: nat)
    requires Inv(s)
    ensures Inv(Next(s, TakeBack(t)))
  {
    var n := Next(s, TakeBack(t));
    ClientIsOpen(s);
    hide Inv;
    if PcOf(s, t).WriteFailed? {
      if s.clientFd >= 0 && s.clientFd != PcOf(s, t).fd {
        DropStep(s, n, t);
      } else {
        ExchangeStep(s, n, t);
      }
    }
  }

  lemma ExchangeActionKeepsInv(s: State, a: Action)
    requires Inv(s) && (a.Publish? || a.TakeClient?)
    ensures Inv(Next(s, a))
  {
    hide Inv;
    var n := Next(s, a);
    if n != s {
      ExchangeStep(s, n, a.t);
    }
  }

  lemma KernelActionKeepsInv(s: State, a: Action)
    requires Inv(s) && (a.AcceptReturns? || a.Close?)
    ensures Inv(Next(s, a))
  {
    hide Inv;
    var n := Next(s, a);
    if n != s {
      if a.AcceptReturns? {
        AcceptStep(s, n, a.t, a.fd);
      } else {
        CloseStep(s, n, a.t, PcOf(s, a.t).fd);
      }
    }
  }

  lemma StepKeepsInv(s: State, a: Action)
    requires Inv(s)
    ensures Inv(Next(s, a))
  {
    if a.Initialize? {
      LocalStep(s, Next(s, a), 0);
    } else {
      hide Inv, Next;
      if IsLocal(a) {
        LocalActionKeepsInv(s, a);
      } else if a.TakeBack? {
        TakeBackKeepsInv(s, a.t);
      } else if a.Publish? || a.TakeClient? {
        ExchangeActionKeepsInv(s, a);
      } else {
        KernelActionKeepsInv(s, a);
      }
    }
  }

  lemma ClientIsOpen(s: State)
    requires Inv(s)
    ensures s.clientFd >= 0 ==> s.clientFd in s.open && s.open[s.clientFd] !in s.closes
  {
    if s.clientFd >= 0 {
      assert Carries(s, s.clientFd, s.open[s.clientFd]);
    }
  }

  lemma {:induction false} InvHolds(actions: seq<Action>)
    ensures Inv(Exec(actions))
  {
    if actions == [] {
      assert Inv(INITIAL);
    } else {
      InvHolds(actions[..|actions| - 1]);
      StepKeepsInv(Exec(actions[..|actions| - 1]), actions[|actions| - 1]);
    }
  }

  // ---- What every run keeps ----

  datatype Status = Unpublished(thread: nat) | Held | Taken(thread: nat) | Closed | Dropped

  /** Connection c has status st. */
  ghost predicate Has(s: State, c: nat, st: Status) {
    match st
    case Unpublished(t) => Holding(PcOf(s, t)) && Carries(s, PcOf(s, t).fd, c)
    case Held => s.clientFd >= 0 && Carries(s, s.clientFd, c)
    case Taken(t) => Taking(PcOf(s, t)) && Carries(s, PcOf(s, t).fd, c)
    case Closed => c in s.closes
    case Dropped => c in s.dropped
  }

  /** In every state of every interleaving, with descriptor numbers reused at the kernel's pleasure, each
      accepted connection has exactly one status, and only one thread is ever responsible for it. */
  lemma ExactlyOneStatus(actions: seq<Action>, c: nat)
    requires c < Exec(actions).accepted
    ensures exists st :: Has(Exec(actions), c, st)
    ensures forall st1, st2 :: Has(Exec(actions), c, st1) && Has(Exec(actions), c, st2) ==> st1 == st2
  {
    hide Exec;
    var s := Exec(actions);
    InvHolds(actions);
    StatusExists(s, c);
    forall st1, st2 | Has(s, c, st1) && Has(s, c, st2)
      ensures st1 == st2
    {
      StatusIsUnique(s, c, st1, st2);
    }
  }

  lemma StatusExists(s: State, c: nat)
    requires Inv(s) && c < s.accepted
    ensures exists st :: Has(s, c, st)
  {
    if c in s.closes {
      assert Has(s, c, Closed);
    } else if c in s.dropped {
      assert Has(s, c, Dropped);
    } else {
      var fd :| Carries(s, fd, c);
      if fd == s.clientFd {
        assert Has(s, c, Held);
      } else {
        var t :| Owns(s, t, fd);
        if Holding(PcOf(s, t)) {
          assert Has(s, c, Unpublished(t));
        } else {
          assert Has(s, c, Taken(t));
        }
      }
    }
  }

  lemma StatusIsUnique(s: State, c: nat, st1: Status, st2: Status)
    requires Inv(s) && Has(s, c, st1) && Has(s, c, st2)
    ensures st1 == st2
  {
    if st1.Unpublished? || st1.Taken? {
      assert Owns(s, st1.thread, PcOf(s, st1.thread).fd);
    }
    if st2.Unpublished? || st2.Taken? {
      assert Owns(s, st2.thread, PcOf(s, st2.thread).fd);
    }
  }

  /** In every run no connection is closed twice, no close() hits a number that is not open, and
      m_clientFd never names a closed connection. */
  lemma ClosedAtMostOnce(actions: seq<Action>)
    ensures var s := Exec(actions);
      && (forall i, j :: 0 <= i < j < |s.closes| ==> s.closes[i] != s.closes[j])
      && s.strayCloses == 0
      && (s.clientFd >= 0 ==> s.clientFd in s.open && s.open[s.clientFd] !in s.closes)
  {
    InvHolds(actions);
    ClientIsOpen(Exec(actions));
  }

  /** Each thread closes, or shuts down, only a connection that is its own at that moment. */
  lemma ClosesOnlyItsOwn(actions: seq<Action>, t: nat)
    ensures var s := Exec(actions);
      var pc := PcOf(s, t);
      Taking(pc) || pc.Refusing? ==>
        && pc.fd in s.open && pc.fd != s.clientFd
        && forall u :: u != t ==> !Owns(s, u, pc.fd)
  {
    hide Exec;
    var s := Exec(actions);
    InvHolds(actions);
    if Taking(PcOf(s, t)) || PcOf(s, t).Refusing? {
      assert Owns(s, t, PcOf(s, t).fd);
    }
  }

  // ---- Stale numbers ----

  /** A sender's number still stands for the connection it stood for when loaded, or that one is closed. */
  ghost predicate LoadsOk(s: State) {
    forall t :: Sending(PcOf(s, t)) ==> Carries(s, PcOf(s, t).fd, PcOf(s, t).loaded) || PcOf(s, t).loaded in s.closes
  }

  predicate Sending(pc: Pc) {
    pc.Writing? || pc.WriteFailed? || pc.Discarding?
  }

  lemma ClosesGrow(s: State, a: Action)
    ensures forall c :: c in s.closes ==> c in Next(s, a).closes
  {
  }

  /** A step leaves a number's connection as it is or closes it. */
  lemma CarriedOrClosed(s: State, a: Action, fd: nat, c: nat)
    requires Carries(s, fd, c)
    ensures Carries(Next(s, a), fd, c) || c in Next(s, a).closes
  {
    if a.Close? && !Carries(Next(s, a), fd, c) {
      assert Next(s, a).closes[|s.closes|] == c;
    }
  }

  lemma SendingStep(s: State, a: Action, t: nat)
    requires Inv(s) && Sending(PcOf(Next(s, a), t))
    ensures var pc, was := PcOf(Next(s, a), t), PcOf(s, t);
      || Carries(s, pc.fd, pc.loaded)
      || (Sending(was) && pc.fd == was.fd && pc.loaded == was.loaded)
  {
    ClientIsOpen(s);
  }

  lemma StepKeepsLoads(s: State, a: Action)
    requires Inv(s) && LoadsOk(s)
    ensures LoadsOk(Next(s, a))
  {
    hide Next, Inv;
    var n := Next(s, a);
    forall t | Sending(PcOf(n, t))
      ensures Carries(n, PcOf(n, t).fd, PcOf(n, t).loaded) || PcOf(n, t).loaded in n.closes
    {
      SendingStep(s, a, t);
      ClosesGrow(s, a);
      if Carries(s, PcOf(n, t).fd, PcOf(n, t).loaded) {
        CarriedOrClosed(s, a, PcOf(n, t).fd, PcOf(n, t).loaded);
      }
    }
  }

  lemma {:induction false} LoadsHold(actions: seq<Action>)
    ensures LoadsOk(Exec(actions))
  {
    if actions != [] {
      InvHolds(actions[..|actions| - 1]);
      LoadsHold(actions[..|actions| - 1]);
      StepKeepsLoads(Exec(actions[..|actions| - 1]), actions[|actions| - 1]);
    }
  }

  /** A sender that closes its number closes the connection it wrote to exactly when that one is not closed
      yet; otherwise it closes a later connection that was given the same number. */
  lemma ClosesWhatItLoaded(actions: seq<Action>, t: nat)
    requires PcOf(Exec(actions), t).Discarding?
    ensures var s, pc := Exec(actions), PcOf(Exec(actions), t);
      && pc.fd in s.open
      && Next(s, Close(t)).closes == s.closes + [s.open[pc.fd]]
      && (s.open[pc.fd] == pc.loaded <==> pc.loaded !in s.closes)
  {
    hide Exec;
    var s := Exec(actions);
    InvHolds(actions);
    LoadsHold(actions);
    assert Owns(s, t, PcOf(s, t).fd);
    assert Carries(s, PcOf(s, t).fd, s.open[PcOf(s, t).fd]);
  }

  // ---- The mismatch case leaks ----

  /** A sender's exchange returns a client other than the one it failed to write to. */
  predicate Mismatch(s: State, a: Action) {
    a.TakeBack? && PcOf(s, a.t).WriteFailed? && s.clientFd >= 0 && s.clientFd != PcOf(s, a.t).fd
  }

  /** In every run a step drops a connection exactly when it is such an exchange. */
  lemma DropsExactlyOnMismatch(actions: seq<Action>, a: Action)
    ensures var s := Exec(actions);
      Next(s, a).dropped != s.dropped <==> Mismatch(s, a)
  {
    hide Exec;
    var s := Exec(actions);
    InvHolds(actions);
    if s.clientFd >= 0 {
      assert s.open[s.clientFd] !in s.dropped;
    }
  }

  ghost predicate NeverMismatched(actions: seq<Action>) {
    forall k :: 0 <= k < |actions| ==> !Mismatch(Exec(actions[..k]), actions[k])
  }

  lemma NeverMismatchedSnoc(actions: seq<Action>)
    requires actions != []
    ensures var m := |actions| - 1;
      NeverMismatched(actions) <==> NeverMismatched(actions[..m]) && !Mismatch(Exec(actions[..m]), actions[m])
  {
    hide Exec, Mismatch;
    var before := actions[..|actions| - 1];
    assert forall k :: 0 <= k < |before| ==> before[..k] == actions[..k] && before[k] == actions[k];
  }

  lemma {:induction false} NothingDroppedIffNeverMismatched(actions: seq<Action>)
    ensures Exec(actions).dropped == {} <==> NeverMismatched(actions)
  {
    if actions != [] {
      hide Next, Mismatch, NeverMismatched;
      var m := |actions| - 1;
      NothingDroppedIffNeverMismatched(actions[..m]);
      NeverMismatchedSnoc(actions);
      DropsExactlyOnMismatch(actions[..m], actions[m]);
      DroppedGrows(Exec(actions[..m]), actions[m]);
    }
  }

  /** When every thread is idle and m_clientFd is empty, every accepted connection has been closed exactly
      when no sender's exchange ever returned a client other than its own. */
  lemma AllClosedIffNeverMismatched(actions: seq<Action>)
    requires Exec(actions).clientFd < 0 && forall t :: PcOf(Exec(actions), t) == Idle
    ensures var s := Exec(actions);
      && ((forall c: nat :: c < s.accepted ==> c in s.closes) <==> s.dropped == {})
      && (s.dropped == {} <==> NeverMismatched(actions))
  {
    hide Exec, NeverMismatched;
    var s := Exec(actions);
    InvHolds(actions);
    NothingDroppedIffNeverMismatched(actions);
    if s.dropped == {} {
      forall c: nat | c < s.accepted
        ensures c in s.closes
      {
        StatusExists(s, c);
      }
    } else {
      var c :| c in s.dropped;
      assert c < s.accepted && c !in s.closes;
    }
  }

  lemma ExecSnoc(actions: seq<Action>, a: Action)
    ensures Exec(actions + [a]) == Next(Exec(actions), a)
  {
    assert (actions + [a])[..|actions|] == actions;
  }

  lemma DroppedGrows(s: State, a: Action)
    ensures s.dropped <= Next(s, a).dropped
  {
  }

  lemma DroppedNotClosed(s: State, c: nat)
    requires Inv(s) && c in s.dropped
    ensures c !in s.closes
  {
  }

  /** A connection that a sender drops is never closed afterwards, whatever happens. */
  lemma {:induction false} DroppedForever(actions: seq<Action>, more: seq<Action>, c: nat)
    requires c in Exec(actions).dropped
    ensures c in Exec(actions + more).dropped && c !in Exec(actions + more).closes
    decreases |more|
  {
    hide Exec, Next, Inv;
    if more == [] {
      assert actions + more == actions;
    } else {
      var k := |more| - 1;
      DroppedForever(actions, more[..k], c);
      assert actions + more == (actions + more[..k]) + [more[k]];
      ExecSnoc(actions + more[..k], more[k]);
      DroppedGrows(Exec(actions + more[..k]), more[k]);
    }
    InvHolds(actions + more);
    DroppedNotClosed(Exec(actions + more), c);
  }

  // ---- Closing stays possible ----

  lemma CloseNow(actions: seq<Action>, t: nat, c: nat) returns (longer: seq<Action>)
    requires var pc := PcOf(Exec(actions), t);
      (pc.Refusing? || pc.Replacing? || pc.Discarding? || pc.Closing?) && Carries(Exec(actions), pc.fd, c)
    ensures actions <= longer && c in Exec(longer).closes
  {
    longer := actions + [Close(t)];
    ExecSnoc(actions, Close(t));
    hide Exec;
    var s := Exec(actions);
    assert Next(s, Close(t)).closes == s.closes + [c];
  }

  lemma CloseTaken(actions: seq<Action>, t: nat, c: nat) returns (longer: seq<Action>)
    requires Has(Exec(actions), c, Taken(t))
    ensures actions <= longer && c in Exec(longer).closes
  {
    if PcOf(Exec(actions), t).HangingUp? {
      ExecSnoc(actions, HangUp(t));
      longer := CloseNow(actions + [HangUp(t)], t, c);
    } else {
      longer := CloseNow(actions, t, c);
    }
  }

  /** A thread that is not in the middle of anything. */
  lemma {:induction false} FreshThread(busy: set<nat>) returns (t: nat)
    ensures t !in busy && forall u :: u in busy ==> u < t
    decreases |busy|
  {
    if busy == {} {
      t := 0;
    } else {
      var u :| u in busy;
      var rest := FreshThread(busy - {u});
      assert forall v :: v in busy ==> v == u || v in busy - {u};
      t := if rest > u then rest else u + 1;
    }
  }

  lemma CloseHeld(actions: seq<Action>, c: nat) returns (longer: seq<Action>)
    requires Has(Exec(actions), c, Held)
    ensures actions <= longer && c in Exec(longer).closes
  {
    var t := FreshThread(Exec(actions).pcs.Keys);
    ExecSnoc(actions, BeginShutdown(t));
    var stopping := actions + [BeginShutdown(t)];
    ExecSnoc(stopping, TakeClient(t));
    hide Exec;
    longer := CloseTaken(stopping + [TakeClient(t)], t, c);
  }

  lemma ClosePublishing(actions: seq<Action>, t: nat, c: nat) returns (longer: seq<Action>)
    requires PcOf(Exec(actions), t).Publishing? && Carries(Exec(actions), PcOf(Exec(actions), t).fd, c)
    ensures actions <= longer && c in Exec(longer).closes
  {
    ExecSnoc(actions, Publish(t));
    hide Exec;
    longer := CloseHeld(actions + [Publish(t)], c);
  }

  lemma CloseUnpublished(actions: seq<Action>, t: nat, c: nat) returns (longer: seq<Action>)
    requires Has(Exec(actions), c, Unpublished(t))
    ensures actions <= longer && c in Exec(longer).closes
  {
    hide Exec;
    var s := Exec(actions);
    match PcOf(s, t)
    case Accepted(_) =>
      ExecSnoc(actions, CheckFlag(t));
      if s.initialized {
        longer := ClosePublishing(actions + [CheckFlag(t)], t, c);
      } else {
        longer := CloseNow(actions + [CheckFlag(t)], t, c);
      }
    case Publishing(_) => longer := ClosePublishing(actions, t, c);
    case Refusing(_) => longer := CloseNow(actions, t, c);
  }

  /** At every moment, an accepted connection can still come to be closed if and only if it has not been
      dropped. */
  lemma CanBeClosedIffNotDropped(actions: seq<Action>, c: nat)
    requires c < Exec(actions).accepted
    ensures (exists longer :: actions <= longer && c in Exec(longer).closes) <==> c !in Exec(actions).dropped
  {
    hide Exec;
    var s := Exec(actions);
    if c in s.dropped {
      forall longer | actions <= longer
        ensures c !in Exec(longer).closes
      {
        DroppedForever(actions, longer[|actions|..], c);
        assert actions + longer[|actions|..] == longer;
      }
    } else {
      InvHolds(actions);
      StatusExists(s, c);
      var st :| Has(s, c, st);
      var longer := actions;
      match st
      case Unpublished(t) => longer := CloseUnpublished(actions, t, c);
      case Held => longer := CloseHeld(actions, c);
      case Taken(t) => longer := CloseTaken(actions, t, c);
      case Closed =>
      case Dropped =>
    }
  }

  // ---- After a shutdown has begun ----

  /** Thread t is about to publish connection c, or to close it after it was published. */
  predicate Committed(s: State, t: nat, c: nat) {
    (PcOf(s, t).Publishing? || Taking(PcOf(s, t))) && Carries(s, PcOf(s, t).fd, c)
  }

  /** Since the flag was cleared, in state z: nobody has entered accept(), and no connection accepted since
      has got as far as publication. */
  ghost predicate Refuses(z: State, s: State) {
    && !s.initialized
    && (forall t :: PcOf(s, t).Accepting? ==> PcOf(z, t).Accepting?)
    && (forall t, c: nat :: Committed(s, t, c) ==> c < z.accepted)
    && (forall c: nat :: Has(s, c, Held) ==> c < z.accepted)
    && (forall c: nat :: c in s.dropped ==> c < z.accepted)
  }

  lemma RefusesFromTheStart(before: seq<Action>, t: nat)
    requires PcOf(Exec(before), t) == Idle
    ensures var z := Exec(before + [BeginShutdown(t)]); Refuses(z, z)
  {
    InvHolds(before + [BeginShutdown(t)]);
    ExecSnoc(before, BeginShutdown(t));
  }

  lemma StepKeepsRefusing(z: State, s: State, a: Action)
    requires Inv(s) && Refuses(z, s) && z.accepted <= s.accepted && !a.Initialize?
    ensures Refuses(z, Next(s, a)) && z.accepted <= Next(s, a).accepted
  {
    hide Inv, Has, Committed;
    var n := Next(s, a);
    forall t, c: nat | Committed(n, t, c)
      ensures c < z.accepted
    {
      OwnersOnlyTake(s, a, t, c);
    }
    forall c: nat | Has(n, c, Held)
      ensures c < z.accepted
    {
      HeldWasCommitted(s, a, c);
    }
    forall c: nat | c in n.dropped
      ensures c < z.accepted
    {
      DroppedWasHeld(s, a, c);
    }
  }

  /** What a thread publishes or takes it has had before, or has just taken out of m_clientFd. */
  lemma OwnersOnlyTake(s: State, a: Action, t: nat, c: nat)
    requires Inv(s) && !s.initialized && Committed(Next(s, a), t, c)
    ensures Has(s, c, Held) || Committed(s, t, c)
  {
    ClientIsOpen(s);
    var n := Next(s, a);
    if PcOf(n, t) == PcOf(s, t) {
      assert Owns(s, t, PcOf(s, t).fd);
    }
  }

  lemma HeldWasCommitted(s: State, a: Action, c: nat)
    requires Inv(s) && Has(Next(s, a), c, Held)
    ensures Has(s, c, Held) || (a.Publish? && Committed(s, a.t, c))
  {
    ClientIsOpen(s);
    if a.Publish? && PcOf(s, a.t).Publishing? {
      assert Owns(s, a.t, PcOf(s, a.t).fd);
    }
  }

  lemma DroppedWasHeld(s: State, a: Action, c: nat)
    requires Inv(s) && c in Next(s, a).dropped
    ensures c in s.dropped || Has(s, c, Held)
  {
    ClientIsOpen(s);
  }

  lemma {:induction false} RefusingGoesOn(before: seq<Action>, t: nat, more: seq<Action>)
    requires PcOf(Exec(before), t) == Idle && forall i :: 0 <= i < |more| ==> !more[i].Initialize?
    ensures var z, s := Exec(before + [BeginShutdown(t)]), Exec(before + [BeginShutdown(t)] + more);
      Refuses(z, s) && z.accepted <= s.accepted
    decreases |more|
  {
    hide Exec, Next, Inv, Refuses;
    var start := before + [BeginShutdown(t)];
    if more == [] {
      assert start + more == start;
      RefusesFromTheStart(before, t);
    } else {
      var k := |more| - 1;
      RefusingGoesOn(before, t, more[..k]);
      InvHolds(start + more[..k]);
      assert start + more == (start + more[..k]) + [more[k]];
      ExecSnoc(start + more[..k], more[k]);
      StepKeepsRefusing(Exec(start), Exec(start + more[..k]), more[k]);
    }
  }

  /** Once a shutdown has cleared the flag, and until the next initialize(), no thread enters accept(), and a
      connection that is still accepted is never published: it is in the hands of the thread that accepted it,
      which is not going to publish it, or it is closed. */
  lemma LateConnectionsAreRefused(before: seq<Action>, t: nat, more: seq<Action>, c: nat)
    requires PcOf(Exec(before), t) == Idle && forall i :: 0 <= i < |more| ==> !more[i].Initialize?
    requires var z := Exec(before + [BeginShutdown(t)]);
      z.accepted <= c < Exec(before + [BeginShutdown(t)] + more).accepted
    ensures var z, s := Exec(before + [BeginShutdown(t)]), Exec(before + [BeginShutdown(t)] + more);
      && (forall u :: PcOf(s, u).Accepting? ==> PcOf(z, u).Accepting?)
      && (c in s.closes || exists u :: Has(s, c, Unpublished(u)) && !PcOf(s, u).Publishing?)
  {
    hide Exec;
    RefusingGoesOn(before, t, more);
    InvHolds(before + [BeginShutdown(t)] + more);
    hide Inv, Has;
    LateStatus(Exec(before + [BeginShutdown(t)]), Exec(before + [BeginShutdown(t)] + more), c);
  }

  lemma LateStatus(z: State, s: State, c: nat)
    requires Inv(s) && Refuses(z, s) && z.accepted <= c < s.accepted
    ensures c in s.closes || exists u :: Has(s, c, Unpublished(u)) && !PcOf(s, u).Publishing?
  {
    forall st | Has(s, c, st)
      ensures st.Unpublished? || st.Closed?
      ensures st.Unpublished? ==> !PcOf(s, st.thread).Publishing?
    {
      assert st.Unpublished? || st.Taken? ==> !Committed(s, st.thread, c);
    }
    StatusExists(s, c);
    hide Inv, Refuses;
    var st :| Has(s, c, st);
    assert st.Unpublished? ==> Has(s, c, Unpublished(st.thread));
  }

  // ---- Witnesses ----

  /** `actions` lead to s. */
  ghost predicate Leads(actions: seq<Action>, s: State) {
    Exec(actions) == s
  }

  lemma Extend(actions: seq<Action>, s: State, a: Action) returns (longer: seq<Action>)
    requires Leads(actions, s)
    ensures Leads(longer, Next(s, a))
  {
    longer := actions + [a];
    ExecSnoc(actions, a);
  }

  /** Thread 0 accepts the next connection under number fd and publishes it. */
  lemma ConnectOnce(actions: seq<Action>, s: State, fd: nat) returns (longer: seq<Action>)
    requires Leads(actions, s) && s.initialized && PcOf(s, 0) == Idle && fd !in s.open
    ensures var pc := if s.clientFd >= 0 then Replacing(s.clientFd) else Idle;
      Leads(longer, State(true, fd, s.open[fd := s.accepted], s.accepted + 1, s.pcs[0 := pc],
                          s.closes, s.strayCloses, s.dropped))
  {
    hide Leads;
    longer := Extend(actions, s, EnterAccept(0));
    var s1 := At(s, 0, Accepting);
    longer := Extend(longer, s1, AcceptReturns(0, fd));
    var s2 := At(s1.(open := s.open[fd := s.accepted], accepted := s.accepted + 1), 0, Accepted(fd));
    longer := Extend(longer, s2, CheckFlag(0));
    var s3 := At(s2, 0, Publishing(fd));
    longer := Extend(longer, s3, Publish(0));
    assert s3.pcs[0 := Idle] == s.pcs[0 := Idle];
    assert s.clientFd >= 0 ==> s3.pcs[0 := Replacing(s.clientFd)] == s.pcs[0 := Replacing(s.clientFd)];
  }

  const RECONNECTED := State(true, 6, map[5 := 0, 6 := 1], 2, map[0 := Replacing(5), 1 := WriteFailed(5, 0)], [], 0, {})

  /** The simulator reconnects between a failed write and the sender's exchange. */
  lemma ReconnectDuringFailedWrite() returns (r: seq<Action>)
    ensures Leads(r, RECONNECTED)
  {
    assert Leads([], INITIAL);
    hide Leads;
    r := Extend([], INITIAL, Initialize);
    r := ConnectOnce(r, INITIAL.(initialized := true), 5);
    var s1 := State(true, 5, map[5 := 0], 1, map[0 := Idle], [], 0, {});
    r := Extend(r, s1, LoadClient(1));
    var s2 := At(s1, 1, Writing(5, 0));
    r := Extend(r, s2, WriteReturns(1, false));
    var s3 := At(s2, 1, WriteFailed(5, 0));
    r := ConnectOnce(r, s3, 6);
    assert s3.open[6 := 1] == RECONNECTED.open && s3.pcs[0 := Replacing(5)] == RECONNECTED.pcs;
  }

  /** Then the exchange drops the new connection. */
  lemma ReconnectDuringFailedWriteLeaks()
    ensures exists actions, s :: Leads(actions, s) && 1 in s.dropped
  {
    var r := ReconnectDuringFailedWrite();
    hide Leads;
    r := Extend(r, RECONNECTED, TakeBack(1));
    assert 1 in Next(RECONNECTED, TakeBack(1)).dropped;
  }

  const OLD_CLOSED := State(true, 6, map[6 := 1], 2, map[0 := Idle, 1 := WriteFailed(5, 0)], [0], 0, {})

  lemma OldClientClosed()
    ensures Next(RECONNECTED, Close(0)) == OLD_CLOSED
  {
    var s := RECONNECTED;
    assert s.open - {5} == OLD_CLOSED.open && s.pcs[0 := Idle] == OLD_CLOSED.pcs;
    assert CloseFd(s, 5) == s.(closes := [0], open := OLD_CLOSED.open) by {
      assert s.closes + [s.open[5]] == [0];
    }
  }

  /** After a second reconnection the sender's number may stand for a third, healthy client, and the sender
      closes that one. */
  lemma StaleNumberClosesHealthyClient()
    ensures exists actions, s :: Leads(actions, s) && PcOf(s, 1) == Discarding(5, 0) && Carries(s, 5, 2)
  {
    var r := ReconnectDuringFailedWrite();
    hide Leads;
    OldClientClosed();
    r := Extend(r, RECONNECTED, Close(0));
    var s1 := OLD_CLOSED;
    r := ConnectOnce(r, s1, 5);
    var s2 := State(true, 5, s1.open[5 := 2], 3, s1.pcs[0 := Replacing(6)], [0], 0, {});
    r := Extend(r, s2, TakeBack(1));
    var s3 := Next(s2, TakeBack(1));
    assert PcOf(s3, 1) == Discarding(5, 0) && Carries(s3, 5, 2);
  }
}
