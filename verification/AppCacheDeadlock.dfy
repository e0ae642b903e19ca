/**
 The two lock orders of AppDAO: getAvailableAppDetails takes the details lock and then the
 apps lock, resetApps the apps lock and then the details lock.
 */
module AppCacheDeadlock {
  import opened Wrappers
  import opened AppRuntimes
  import opened AppCache
  import opened AppCacheInvariants

  /** Some choice gives the call a next step. */
  ghost predicate CanMove(s: State, t: CallId)
    requires t in s.calls
  {
    exists c :: Move(s, t, c).Some?
  }

  predicate Unfinished(s: State, t: CallId) {
    t in s.calls && !s.calls[t].pc.Done?
  }

  /** Some call has not returned, and no call can take a step. */
  ghost predicate Stuck(s: State) {
    && (exists t :: Unfinished(s, t))
    && (forall t :: t in s.calls ==> !CanMove(s, t))
  }

  /** `reader` has the details lock and waits for apps; `resetter` has the apps lock and waits for details. */
  predicate CircularWait(s: State, reader: CallId, resetter: CallId) {
    && reader in s.calls && resetter in s.calls
    && s.calls[reader].op.GetDetails? && s.calls[reader].pc == InRuntimes(RuntimesLock)
    && s.detailsLock == Some(reader)
    && s.calls[resetter].pc == InReset(ResetLockDetails)
    && s.appsLock == Some(resetter)
  }

  /** The four places where a call may have to wait. */
  predicate AtLock(pc: Pc) {
    || pc == InDetails(DetailsLock) || pc == InRuntimes(RuntimesLock)
    || pc == InReset(ResetLockApps) || pc == InReset(ResetLockDetails)
  }

  /** A call waits for nothing but a lock that is taken. */
  predicate Waits(s: State, pc: Pc) {
    || ((pc == InDetails(DetailsLock) || pc == InReset(ResetLockDetails)) && s.detailsLock.Some?)
    || ((pc == InRuntimes(RuntimesLock) || pc == InReset(ResetLockApps)) && s.appsLock.Some?)
  }

  lemma {:induction false} ReaderMoves(s: State, t: CallId)
    requires t in s.calls && (s.calls[t].pc.InDetails? || s.calls[t].pc.InRuntimes? || s.calls[t].pc.InReset?)
    ensures Move(s, t, Go).Some? <==> !Waits(s, s.calls[t].pc)
    ensures CanMove(s, t) <==> Move(s, t, Go).Some?
  {
  }

  lemma {:induction false} InitMoves(s: State, t: CallId)
    requires t in s.calls && s.calls[t].pc.InInit? && CallOk(s, t)
    ensures CanMove(s, t)
  {
    var pc := s.calls[t].pc.init;
    match pc {
      case ListDirs =>
        var order := ListingExists(s.repo.Keys);
        assert Move(s, t, Order(order)).Some?;
      case Merge(dirs, loaded) =>
        var order := ListingExists(ByName(loaded).Keys);
        assert Move(s, t, Order(order)).Some?;
      case _ => assert Move(s, t, Go).Some?;
    }
  }

  lemma {:induction false} TaskMoves(s: State, t: CallId)
    requires t in s.calls && s.calls[t].pc.InTask? && CallOk(s, t)
    ensures CanMove(s, t)
  {
    assert Move(s, t, Go).Some?;
  }

  /** A call that has not returned can step unless it waits for a taken lock. */
  lemma {:induction false} MovesUnlessWaiting(s: State, t: CallId)
    requires t in s.calls && CallOk(s, t)
    ensures CanMove(s, t) <==> !s.calls[t].pc.Done? && !Waits(s, s.calls[t].pc)
  {
    match s.calls[t].pc
    case InInit(_) => InitMoves(s, t);
    case InTask(_) => TaskMoves(s, t);
    case Done(_) =>
    case _ => ReaderMoves(s, t);
  }

  /** If every call waits or has returned, the two lock holders wait for each other. */
  lemma {:induction false} WaitersFormCircle(s: State, t: CallId)
    requires Inv(s) && Unfinished(s, t)
    requires forall x :: Unfinished(s, x) ==> Waits(s, s.calls[x].pc)
    ensures s.appsLock.Some? && s.detailsLock.Some?
    ensures CircularWait(s, s.detailsLock.value, s.appsLock.value)
  {
    assert CallOk(s, t);
    if s.detailsLock.Some? {
      var r := s.detailsLock.value;
      assert CallOk(s, r) && Unfinished(s, r);
    }
    if s.appsLock.Some? {
      var z := s.appsLock.value;
      assert CallOk(s, z) && Unfinished(s, z);
    }
  }

  /**
   A reachable state with an unfinished call is stuck exactly when one getAvailableAppDetails
   and one resetApps wait for each other and every other unfinished call waits for a lock.
   */
  lemma {:induction false} StuckExactlyInCircularWait(s: State)
    requires Reachable(s)
    ensures Stuck(s) <==>
      (exists r, z :: CircularWait(s, r, z)) && (forall t :: Unfinished(s, t) ==> AtLock(s.calls[t].pc))
  {
    InvReachable(s);
    forall t | t in s.calls ensures CanMove(s, t) <==> !s.calls[t].pc.Done? && !Waits(s, s.calls[t].pc) {
      assert CallOk(s, t);
      MovesUnlessWaiting(s, t);
    }
    if Stuck(s) {
      var t :| Unfinished(s, t);
      WaitersFormCircle(s, t);
    }
    if exists r, z :: CircularWait(s, r, z) && forall t :: Unfinished(s, t) ==> AtLock(s.calls[t].pc) {
      var r, z :| CircularWait(s, r, z);
      assert Unfinished(s, r);
    }
  }

  /** There is one such pair at most. */
  lemma {:induction false} CircularWaitIsUnique(s: State, r: CallId, z: CallId, r': CallId, z': CallId)
    requires CircularWait(s, r, z) && CircularWait(s, r', z')
    ensures r == r' && z == z' && r != z
  {
  }

  /** Once there, it stays for ever, whatever the other calls do. */
  lemma {:induction false} CircularWaitIsPermanent(s: State, e: Event, r: CallId, z: CallId)
    requires Inv(s) && CircularWait(s, r, z) && Next(s, e).Some?
    ensures CircularWait(Next(s, e).value, r, z)
  {
    match e
    case Begin(_, _) =>
    case Step(t, c) =>
      var s' := Next(s, e).value;
      assert CallOk(s, t) && CallOk(s, r) && CallOk(s, z);
      assert t != r && t != z;
      match s.calls[t].pc {
        case InDetails(pc) => DetailsKeeps(s, t, pc);
        case InRuntimes(pc) => RuntimesKeeps(s, t, pc);
        case InInit(pc) => InitKeeps(s, t, pc, c);
        case InTask(pc) => TaskKeeps(s, t, pc, c);
        case InReset(pc) => ResetKeeps(s, t, pc);
      }
      assert Touches(s, s', t);
  }

  /** A state where nobody waits inside resetApps for the details lock is not stuck. */
  lemma {:induction false} MovesWithoutResetWaiting(s: State, t: CallId)
    requires Reachable(s) && Unfinished(s, t)
    requires forall z :: z in s.calls ==> s.calls[z].pc != InReset(ResetLockDetails)
    ensures exists x :: Unfinished(s, x) && CanMove(s, x)
  {
    StuckExactlyInCircularWait(s);
    var x :| x in s.calls && CanMove(s, x);
    assert Unfinished(s, x);
  }
}
