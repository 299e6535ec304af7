/** The MP3 player as a protocol between API callers, the play thread and the auto-stop thread.
    One action is what one of them does between two points where it may have to wait for a lock, for
    the condition variable or for a thread to end; a run is any interleaving of such actions. */
module Player {
  import opened Wrappers

  type ThreadId = nat

  datatype PlayMode = Once | InLoop | Invalid

  // MAX_INFINITE_LOOPS
  const MAX_LOOPS: nat := 100

  datatype State = Stopped | Paused(file: string, mode: PlayMode) | Playing(file: string, mode: PlayMode)

  /** A play thread: reading, past its last pass but not yet signalled, or ended. */
  datatype Thread =
    | Reading(mode: PlayMode, played: nat)
    | AtEnd
    | Ended(byItself: bool)

  datatype Status = Success | Failed | FileNotFound | WrongPlayMode

  /** What the holder of the state lock does once the play thread is joined. */
  datatype Then = ThenStop(status: Status) | ThenPause(file: string, mode: PlayMode) | ThenReplay(file: string, mode: PlayMode, opens: bool)

  datatype Owner = Caller | AutoStop

  /** The state lock: free, or held by someone who waits for the play thread to end. */
  datatype Lock = Free | Joining(owner: Owner, next: Then)

  /** The auto-stop thread: waiting for a signal, holding the signal mutex on its way to the state
      lock or while it stops the player, or gone. */
  datatype Auto = Waiting | Signalled | Gone

  datatype Vars = Vars(
    state: State, volume: nat,
    stopThread: bool, running: bool, playThread: Option<ThreadId>,
    cvReady: bool, toStop: Option<ThreadId>, shutdown: bool,
    lock: Lock, auto: Auto,
    threads: seq<Thread>,
    answer: Option<Status>)    // what the last API call returned; none while it waits

  datatype Call =
    | Play(file: string, mode: PlayMode, opens: bool)
    | Pause
    | Resume(exists_: bool)
    | Stop
    | SetVolume(volume: nat)

  datatype Action =
    | Api(call: Call)            // an API call gets the state lock
    | Joined                     // the thread the lock holder waits for has ended
    | ReadChunk                  // the play thread plays a chunk and looks at the stop flag
    | EndOfFile(reopens: bool)   // the play thread reaches the end of the file
    | Signal                     // the play thread announces that it finished by itself
    | AutoWake                   // the auto-stop thread takes the signal
    | AutoLock                   // the auto-stop thread gets the state lock
    | AutoLeave                  // the auto-stop thread sees that it has to end
    | Shutdown                   // the destructor asks the auto-stop thread to end

  // ---------- the code under the state lock ----------

  function Passes(mode: PlayMode): nat {
    match mode case Once => 1 case InLoop => MAX_LOOPS case Invalid => 0
  }

  /** DoPlay up to its loop: an invalid mode ends the thread at once. */
  function NewThread(mode: PlayMode): Thread {
    if mode.Invalid? then Ended(false) else Reading(mode, 0)
  }

  /** RunPlayThread; the new thread gets a fresh id. */
  function RunPlayThread(v: Vars, mode: PlayMode): Vars {
    if v.running then v
    else v.(stopThread := false, playThread := Some(|v.threads|), running := true, threads := v.threads + [NewThread(mode)])
  }

  /** What follows StopPlayThread in each of its callers. */
  function Continue(v: Vars, next: Then): Vars {
    match next
    case ThenStop(_) => v.(state := Stopped)
    case ThenPause(file, mode) => v.(state := Paused(file, mode))
    case ThenReplay(file, mode, opens) =>
      if opens then RunPlayThread(v.(state := Playing(file, mode)), mode) else v.(state := Stopped)
  }

  /** What a call returns that ends so. */
  function StatusOf(next: Then): Status {
    match next
    case ThenStop(status) => status
    case ThenPause(_, _) => Success
    case ThenReplay(_, _, opens) => if opens then Success else FileNotFound
  }

  function Answered(v: Vars, status: Status): Vars { v.(answer := Some(status)) }

  /** The end of a turn with the state lock. */
  function Release(v: Vars, owner: Owner, status: Status): Vars {
    if owner.Caller? then Answered(v.(lock := Free), status)
    else v.(lock := Free, toStop := None, auto := if v.shutdown then Gone else Waiting)
  }

  /** StopPlayThread, then `next`: waits if there is a thread to join. */
  function StopPlayThread(v: Vars, owner: Owner, next: Then): Vars {
    if v.running && v.playThread.Some? then
      v.(stopThread := true, lock := Joining(owner, next), answer := if owner.Caller? then None else v.answer)
    else if v.running then Release(Continue(v.(stopThread := true), next), owner, StatusOf(next))
    else Release(Continue(v, next), owner, StatusOf(next))
  }

  function SetVolumeTo(v: Vars, volume: nat): Vars {
    if volume <= 100 then Answered(v.(volume := volume), Success) else Answered(v, Failed)
  }

  /** An API call, in each of the three state objects. */
  function ApiCall(v: Vars, call: Call): Vars {
    match v.state
    case Stopped =>
      (match call
       case Play(file, mode, opens) =>
         if mode.Invalid? then Answered(v, WrongPlayMode)
         else if !opens then Answered(v, FileNotFound)
         else Answered(RunPlayThread(v, mode).(state := Playing(file, mode)), Success)
       case SetVolume(n) => SetVolumeTo(v, n)
       case _ => Answered(v, Success))
    case Playing(file0, mode0) =>
      (match call
       case Play(file, mode, opens) =>
         if mode.Invalid? then StopPlayThread(v.(state := Playing(file0, mode)), Caller, ThenStop(WrongPlayMode))
         else StopPlayThread(v.(state := Playing(file, mode)), Caller, ThenReplay(file, mode, opens))
       case Pause => StopPlayThread(v, Caller, ThenPause(file0, mode0))
       case Resume(_) => Answered(v, Success)
       case Stop => StopPlayThread(v, Caller, ThenStop(Success))
       case SetVolume(n) => SetVolumeTo(v, n))
    case Paused(file0, mode0) =>
      (match call
       case Play(_, _, _) => StopPlayThread(v, Caller, ThenStop(FileNotFound))
       case Pause => Answered(v, Success)
       case Resume(exists_) =>
         if exists_ then Answered(RunPlayThread(v, mode0).(state := Playing(file0, mode0)), Success)
         else StopPlayThread(v, Caller, ThenStop(FileNotFound))
       case Stop => StopPlayThread(v, Caller, ThenStop(Success))
       case SetVolume(n) => SetVolumeTo(v, n))
  }

  /** Stop on the current state object, as the auto-stop thread calls it. */
  function AutoStopNow(v: Vars): Vars {
    if v.state.Stopped? then Release(v, AutoStop, Success) else StopPlayThread(v, AutoStop, ThenStop(Success))
  }

  // ---------- the actions ----------

  /** The thread that is not joined yet, if any. */
  predicate Live(v: Vars) {
    v.playThread.Some? && v.playThread.value < |v.threads|
  }

  function Current(v: Vars): Thread
    requires Live(v)
  {
    v.threads[v.playThread.value]
  }

  function SetCurrent(v: Vars, t: Thread): Vars
    requires Live(v)
  {
    v.(threads := v.threads[v.playThread.value := t])
  }

  predicate Enabled(v: Vars, a: Action) {
    match a
    case Api(_) => v.lock.Free? && !v.shutdown
    case Joined => v.lock.Joining? && Live(v) && Current(v).Ended?
    case ReadChunk => Live(v) && Current(v).Reading?
    case EndOfFile(_) => Live(v) && Current(v).Reading?
    case Signal => Live(v) && Current(v).AtEnd? && v.auto != Signalled
    case AutoWake => v.auto.Waiting? && v.cvReady
    case AutoLock => v.auto.Signalled? && v.lock.Free?
    case AutoLeave => v.auto.Waiting? && v.shutdown
    case Shutdown => v.auto != Signalled && v.lock.Free? && v.state.Stopped? && !v.shutdown
  }

  function Apply(v: Vars, a: Action): Vars
    requires Enabled(v, a)
  {
    match a
    case Api(call) => ApiCall(v, call)
    case Joined => Release(Continue(v.(playThread := None, running := false), v.lock.next), v.lock.owner, StatusOf(v.lock.next))
    case ReadChunk => if v.stopThread then SetCurrent(v, Ended(false)) else v
    case EndOfFile(reopens) =>
      var t := Current(v);
      if t.played + 1 < Passes(t.mode) then
        SetCurrent(v, if reopens then Reading(t.mode, t.played + 1) else Ended(false))
      else SetCurrent(v, AtEnd)
    case Signal => SetCurrent(v, Ended(true)).(toStop := v.playThread, cvReady := true)
    case AutoWake => v.(cvReady := false, auto := Signalled)
    case AutoLock =>
      if v.toStop.Some? && v.toStop == v.playThread then AutoStopNow(v)
      else v.(auto := if v.shutdown then Gone else Waiting)
    case AutoLeave => v.(auto := Gone)
    case Shutdown => v.(toStop := None, cvReady := true, shutdown := true)
  }

  function Init(): Vars {
    Vars(Stopped, 100, false, false, None, false, None, false, Free, Waiting, [], None)
  }

  /** The actions happen one after the other, each when it can. */
  ghost predicate IsRun(v: Vars, run: seq<Action>, v': Vars)
    decreases |run|
  {
    if run == [] then v' == v
    else Enabled(v, run[0]) && IsRun(Apply(v, run[0]), run[1..], v')
  }

  // ---------- what every action keeps ----------

  predicate ThreadsAccounted(v: Vars) {
    && (v.running <==> v.playThread.Some?)
    && (v.playThread.Some? ==> v.playThread.value == |v.threads| - 1)
    && (forall t :: 0 <= t < |v.threads| && v.playThread != Some(t) ==> v.threads[t].Ended?)
  }

  predicate NextKeepsMode(next: Then) {
    match next
    case ThenStop(_) => true
    case ThenPause(_, mode) => !mode.Invalid?
    case ThenReplay(_, mode, _) => !mode.Invalid?
  }

  predicate LockAccounted(v: Vars) {
    match v.lock
    case Free =>
      && (v.state.Playing? <==> v.running)
      && (v.running ==> !v.stopThread)
      && (!v.state.Stopped? ==> !v.state.mode.Invalid?)
    case Joining(owner, next) =>
      && v.running && v.stopThread && v.state.Playing? && !v.shutdown && NextKeepsMode(next)
      && (owner.AutoStop? ==> v.auto.Signalled? && next.ThenStop? && v.toStop == v.playThread)
  }

  predicate NoticesAccounted(v: Vars) {
    && (v.toStop.Some? ==> v.toStop.value < |v.threads| && v.threads[v.toStop.value] == Ended(true))
    && (Live(v) && Current(v) == Ended(true) ==> v.toStop == v.playThread && (v.cvReady || v.auto.Signalled?))
    && (v.shutdown ==> v.lock.Free? && v.state.Stopped?)
    && (v.auto.Gone? ==> v.shutdown)
  }

  predicate Inv(v: Vars) {
    ThreadsAccounted(v) && LockAccounted(v) && NoticesAccounted(v) && v.volume <= 100
  }

  lemma ContinueKeeps(v: Vars, next: Then, owner: Owner, status: Status)
    requires v.lock.Free? || v.lock == Joining(owner, next)
    requires ThreadsAccounted(v) && !v.running && NextKeepsMode(next) && !v.shutdown && v.volume <= 100
    requires owner.Caller? ==> NoticesAccounted(v)
    requires owner.AutoStop? ==> next.ThenStop?
    requires v.toStop.Some? ==> v.toStop.value < |v.threads| && v.threads[v.toStop.value] == Ended(true)
    ensures Inv(Release(Continue(v, next), owner, status))
  {
  }

  lemma StopKeeps(v: Vars, next: Then)
    requires Inv(v) && v.lock.Free? && !v.shutdown && NextKeepsMode(next) && !v.state.Stopped?
    ensures Inv(StopPlayThread(v, Caller, next))
  {
    if !v.running {
      ContinueKeeps(v, next, Caller, StatusOf(next));
    }
  }

  lemma PlayingKeeps(v: Vars, call: Call)
    requires Inv(v) && v.lock.Free? && !v.shutdown && v.state.Playing?
    ensures Inv(ApiCall(v, call))
  {
  }

  lemma PausedKeeps(v: Vars, call: Call)
    requires Inv(v) && v.lock.Free? && !v.shutdown && v.state.Paused?
    ensures Inv(ApiCall(v, call))
  {
    if call.Play? || call.Resume? {
      StopKeeps(v, ThenStop(FileNotFound));
    } else if call.Stop? {
      StopKeeps(v, ThenStop(Success));
    }
  }

  lemma ApiKeeps(v: Vars, call: Call)
    requires Inv(v) && v.lock.Free? && !v.shutdown
    ensures Inv(ApiCall(v, call))
  {
    if v.state.Playing? {
      PlayingKeeps(v, call);
    } else if v.state.Paused? {
      PausedKeeps(v, call);
    }
  }

  lemma JoinedKeeps(v: Vars)
    requires Inv(v) && Enabled(v, Joined)
    ensures Inv(Apply(v, Joined))
  {
    ContinueKeeps(v.(playThread := None, running := false), v.lock.next, v.lock.owner, StatusOf(v.lock.next));
  }

  lemma StepKeeps(v: Vars, a: Action)
    requires Inv(v) && Enabled(v, a)
    ensures Inv(Apply(v, a))
  {
    match a
    case Api(call) => ApiKeeps(v, call);
    case Joined => JoinedKeeps(v);
    case _ =>
  }

  /** The state, the threads and the notices stay accounted for in every interleaving. */
  lemma {:induction false} RunKeeps(v: Vars, run: seq<Action>, v': Vars)
    requires Inv(v) && IsRun(v, run, v')
    ensures Inv(v')
    decreases |run|
  {
    if run != [] {
      StepKeeps(v, run[0]);
      RunKeeps(Apply(v, run[0]), run[1..], v');
    }
  }

  ghost predicate Reachable(v: Vars) {
    exists run :: IsRun(Init(), run, v)
  }

  lemma ReachableInv(v: Vars)
    requires Reachable(v)
    ensures Inv(v)
  {
    var run :| IsRun(Init(), run, v);
    RunKeeps(Init(), run, v);
  }

  // ---------- the properties ----------

  /** Whenever the state lock is free, Stop and Pause have no play thread left to join, and Play has
      exactly one on record, with the stop flag down; every other thread ever started has ended. */
  lemma FreeLockMeans(v: Vars)
    requires Reachable(v) && v.lock.Free?
    ensures !v.state.Playing? ==> !v.running && v.playThread.None? && forall t :: 0 <= t < |v.threads| ==> v.threads[t].Ended?
    ensures v.state.Playing? ==> v.running && Live(v) && !v.stopThread
    ensures forall t :: 0 <= t < |v.threads| && v.playThread != Some(t) ==> v.threads[t].Ended?
  {
    ReachableInv(v);
  }

  /** The recorded play thread, if there is one. */
  function Recorded(v: Vars): Option<Thread> {
    if Live(v) then Some(Current(v)) else None
  }

  /** The player, as a caller sees it. */
  predicate SamePlayer(v: Vars, w: Vars) {
    v.state == w.state && v.running == w.running && v.playThread == w.playThread && v.stopThread == w.stopThread &&
    v.threads == w.threads && v.volume == w.volume
  }

  /** A notice stops the player exactly when the recorded thread is the one that sent it, and that
      thread has come to its end by itself: the notice of a replaced thread stops nothing. */
  lemma NoticeStopsOnlyItsThread(v: Vars)
    requires Reachable(v) && Enabled(v, AutoLock)
    ensures SamePlayer(v, Apply(v, AutoLock)) <==> !(v.state.Playing? && Live(v) && Current(v) == Ended(true))
    ensures v.toStop.Some? && v.toStop != v.playThread ==> SamePlayer(v, Apply(v, AutoLock))
  {
    ReachableInv(v);
  }

  /** The auto-stop thread's own part after a thread has ended by itself. */
  function Delivery(v: Vars): seq<Action> {
    if v.auto.Signalled? then [AutoLock, Joined] else [AutoWake, AutoLock, Joined]
  }

  /** No notice is lost: once the recorded thread has ended by itself and the lock is free, the
      auto-stop thread alone takes the player to Stop, and leaves no notice behind. */
  lemma NoticeIsDelivered(v: Vars) returns (v': Vars)
    requires Reachable(v) && v.lock.Free? && v.state.Playing? && Recorded(v) == Some(Ended(true))
    ensures IsRun(v, Delivery(v), v')
    ensures v'.state.Stopped? && v'.lock.Free? && v'.playThread.None? && v'.toStop.None?
  {
    ReachableInv(v);
    var v1 := if v.auto.Signalled? then v else Apply(v, AutoWake);
    var v2 := Apply(v1, AutoLock);
    v' := Apply(v2, Joined);
    assert IsRun(v', [], v');
    assert [Joined][1..] == [];
    assert IsRun(v2, [Joined], v');
    assert [AutoLock, Joined][1..] == [Joined];
    assert IsRun(v1, [AutoLock, Joined], v');
    assert [AutoWake, AutoLock, Joined][1..] == [AutoLock, Joined];
  }

  /** Nobody can move. */
  ghost predicate Stuck(v: Vars) {
    forall a :: !Enabled(v, a)
  }

  /** While someone waits for the play thread, somebody can move, unless the play thread waits for
      the signal mutex, which the auto-stop thread holds while it waits for the state lock. */
  lemma StuckExactly(v: Vars)
    requires Reachable(v) && v.lock.Joining?
    ensures Stuck(v) <==> Recorded(v) == Some(AtEnd) && v.auto.Signalled?
  {
    ReachableInv(v);
    if Recorded(v) == Some(AtEnd) && v.auto.Signalled? {
      forall a ensures !Enabled(v, a) {}
    } else if Current(v).Ended? {
      assert Enabled(v, Joined);
    } else if Current(v).Reading? {
      assert Enabled(v, ReadChunk);
    } else {
      assert Enabled(v, Signal);
    }
  }

  /** The auto-stop thread never waits for a play thread that is still at work. */
  lemma AutoStopNeverWaits(v: Vars)
    requires Reachable(v) && v.lock.Joining? && v.lock.owner.AutoStop?
    ensures Enabled(v, Joined)
  {
    ReachableInv(v);
  }

  lemma {:induction false} IsRunExtends(v: Vars, run: seq<Action>, v': Vars, a: Action)
    requires IsRun(v, run, v') && Enabled(v', a)
    ensures IsRun(v, run + [a], Apply(v', a))
    decreases |run|
  {
    if run == [] {
      assert (run + [a])[1..] == [];
      assert IsRun(Apply(v', a), [], Apply(v', a));
    } else {
      assert (run + [a])[1..] == run[1..] + [a];
      IsRunExtends(Apply(v, run[0]), run[1..], v', a);
    }
  }

  lemma ReachableStep(v: Vars, a: Action)
    requires Reachable(v) && Enabled(v, a)
    ensures Reachable(Apply(v, a))
  {
    var run :| IsRun(Init(), run, v);
    IsRunExtends(Init(), run, v, a);
  }

  /** Such a stand-still can come about: the auto-stop thread takes the signal of a first thread, a
      caller replaces that thread, and another stops the second one as it reaches its end. */
  lemma StuckIsReachable() returns (v: Vars)
    ensures Reachable(v) && Stuck(v)
  {
    assert IsRun(Init(), [], Init());
    v := Init();
    var play := Api(Play("a.mp3", Once, true));
    ReachableStep(v, play); v := Apply(v, play);
    ReachableStep(v, EndOfFile(true)); v := Apply(v, EndOfFile(true));
    ReachableStep(v, Signal); v := Apply(v, Signal);
    ReachableStep(v, AutoWake); v := Apply(v, AutoWake);
    ReachableStep(v, play); v := Apply(v, play);
    ReachableStep(v, Joined); v := Apply(v, Joined);
    ReachableStep(v, EndOfFile(true)); v := Apply(v, EndOfFile(true));
    ReachableStep(v, Api(Stop)); v := Apply(v, Api(Stop));
    StuckExactly(v);
  }

  // ---------- what a call comes to ----------

  /** The state each call leads to. Play while paused always ends in Stop, as the code has it. */
  function Expected(state: State, call: Call): State {
    match call
    case SetVolume(_) => state
    case Stop => Stopped
    case Pause => if state.Playing? then Paused(state.file, state.mode) else state
    case Resume(exists_) =>
      if !state.Paused? then state else if exists_ then Playing(state.file, state.mode) else Stopped
    case Play(file, mode, opens) =>
      if state.Paused? || mode.Invalid? || !opens then Stopped else Playing(file, mode)
  }

  /** What each call returns. */
  function Answer(state: State, call: Call): Status {
    match call
    case SetVolume(n) => if n <= 100 then Success else Failed
    case Resume(exists_) => if state.Paused? && !exists_ then FileNotFound else Success
    case Play(_, mode, opens) =>
      if state.Paused? then FileNotFound else if mode.Invalid? then WrongPlayMode else if opens then Success else FileNotFound
    case _ => Success
  }

  /** Success is returned exactly when the call does what its name says; any other answer to Play or
      Resume comes with Stop. */
  lemma AnswerMeans(state: State, call: Call)
    ensures call.Play? ==> (Answer(state, call) == Success <==> Expected(state, call) == Playing(call.file, call.mode) && !call.mode.Invalid?)
    ensures Answer(state, call) != Success && !call.SetVolume? ==> Expected(state, call).Stopped?
  {
  }

  /** While the lock is held by someone who waits, nobody else touches the player's state. */
  predicate Held(v: Vars, w: Vars) {
    w.lock == v.lock && w.state == v.state && w.volume == v.volume && w.playThread == v.playThread && |w.threads| == |v.threads|
  }

  lemma HeldStep(v: Vars, a: Action)
    requires v.lock.Joining? && Enabled(v, a) && a != Joined
    ensures Held(v, Apply(v, a))
  {
  }

  lemma {:induction false} HeldLock(v: Vars, run: seq<Action>, v': Vars)
    requires v.lock.Joining? && IsRun(v, run, v') && Joined !in run
    ensures Held(v, v')
    decreases |run|
  {
    if run != [] {
      assert run[0] in run && forall a <- run[1..] :: a in run;
      HeldStep(v, run[0]);
      HeldLock(Apply(v, run[0]), run[1..], v');
    }
  }

  /** The thread that plays after a call which starts playing. */
  predicate PlaysAfresh(v: Vars, w: Vars) {
    w.state.Playing? && w.playThread == Some(|v.threads|) && |w.threads| == |v.threads| + 1 && Recorded(w) == Some(Reading(w.state.mode, 0))
  }

  function NextState(next: Then): State {
    match next
    case ThenStop(_) => Stopped
    case ThenPause(file, mode) => Paused(file, mode)
    case ThenReplay(file, mode, opens) => if opens then Playing(file, mode) else Stopped
  }

  /** `w` is what a call comes to at first: it has ended, or it waits and knows where it is going. */
  predicate Starts(v: Vars, call: Call, w: Vars) {
    && w.volume == (if call.SetVolume? && call.volume <= 100 then call.volume else v.volume)
    && if w.lock.Joining? then
         w.lock.owner.Caller? && NextState(w.lock.next) == Expected(v.state, call) && StatusOf(w.lock.next) == Answer(v.state, call)
         && NextKeepsMode(w.lock.next) && |w.threads| == |v.threads|
       else
         w.state == Expected(v.state, call) && w.answer == Some(Answer(v.state, call))
         && (w.state.Playing? && !(v.state.Playing? && !call.Play?) ==> PlaysAfresh(v, w))
  }

  lemma CallStarts(v: Vars, call: Call)
    requires Inv(v) && Enabled(v, Api(call))
    ensures Starts(v, call, Apply(v, Api(call)))
  {
    match v.state
    case Stopped => StoppedStarts(v, call);
    case Playing(_, _) => PlayingStarts(v, call);
    case Paused(_, _) => PausedStarts(v, call);
  }

  lemma StoppedStarts(v: Vars, call: Call)
    requires Inv(v) && v.lock.Free? && !v.shutdown && v.state.Stopped?
    ensures Starts(v, call, ApiCall(v, call))
  {
  }

  lemma PlayingStarts(v: Vars, call: Call)
    requires Inv(v) && v.lock.Free? && !v.shutdown && v.state.Playing?
    ensures Starts(v, call, ApiCall(v, call))
  {
  }

  lemma PausedStarts(v: Vars, call: Call)
    requires Inv(v) && v.lock.Free? && !v.shutdown && v.state.Paused?
    ensures Starts(v, call, ApiCall(v, call))
  {
  }

  /** A thread that has just been started. */
  lemma FreshThread(v: Vars, state: State)
    requires state.Playing? && !state.mode.Invalid? && !v.running
    ensures PlaysAfresh(v, RunPlayThread(v.(state := state), state.mode))
  {
  }

  lemma JoinedEnds(x: Vars)
    requires x.lock.Joining? && Enabled(x, Joined) && NextKeepsMode(x.lock.next)
    ensures var y := Apply(x, Joined);
      y.lock.Free? && y.state == NextState(x.lock.next) && (x.lock.owner.Caller? ==> y.answer == Some(StatusOf(x.lock.next)))
      && y.volume == x.volume && (y.state.Playing? ==> PlaysAfresh(x, y))
  {
    var v, next := x.(playThread := None, running := false), x.lock.next;
    if next.ThenReplay? && next.opens {
      FreshThread(v, Playing(next.file, next.mode));
    }
  }

  /** Whatever the threads do while a call waits for the play thread, the call ends in the state it is
      expected to; and if it starts playing, a thread never seen before plays the file from its start. */
  lemma CallEnds(v: Vars, call: Call, run: seq<Action>, x: Vars)
    requires Inv(v) && Enabled(v, Api(call))
    requires var w := Apply(v, Api(call));
      w.lock.Joining? ==> IsRun(w, run, x) && Joined !in run && Enabled(x, Joined)
    ensures var w := Apply(v, Api(call));
      var y := if w.lock.Joining? then Apply(x, Joined) else w;
      && y.lock.Free? && y.state == Expected(v.state, call) && y.answer == Some(Answer(v.state, call))
      && (y.state.Playing? && !(v.state.Playing? && !call.Play?) ==> PlaysAfresh(v, y))
      && y.volume == if call.SetVolume? && call.volume <= 100 then call.volume else v.volume
  {
    var w := Apply(v, Api(call));
    CallStarts(v, call);
    if w.lock.Joining? {
      HeldLock(w, run, x);
      JoinedEnds(x);
    }
  }

  // ---------- how often a file is played ----------

  /** Nobody asks the play thread to stop, and the file can be opened again. */
  ghost predicate Undisturbed(v: Vars, run: seq<Action>)
    decreases |run|
  {
    && !v.stopThread
    && (run != [] ==>
      Enabled(v, run[0]) && (run[0].EndOfFile? ==> run[0].reopens) && Undisturbed(Apply(v, run[0]), run[1..]))
  }

  /** How often the file has come to its end. */
  function EndsReached(run: seq<Action>): nat {
    if run == [] then 0 else (if run[0].EndOfFile? then 1 else 0) + EndsReached(run[1..])
  }

  /** The play thread after `n` passes of the file: played once in the one mode, a hundred times in the other. */
  predicate Played(v: Vars, mode: PlayMode, n: nat) {
    var all := if mode == InLoop then 100 else 1;
    && n <= all
    && if n < all then Recorded(v) == Some(Reading(mode, n)) else Recorded(v) == Some(AtEnd) || Recorded(v) == Some(Ended(true))
  }

  lemma PlayedStep(v: Vars, a: Action, mode: PlayMode, n: nat)
    requires Inv(v) && Enabled(v, a) && !v.stopThread && !Apply(v, a).stopThread && (a.EndOfFile? ==> a.reopens)
    requires !mode.Invalid? && Played(v, mode, n)
    ensures Apply(v, a).playThread == v.playThread
    ensures Played(Apply(v, a), mode, if a.EndOfFile? then n + 1 else n)
  {
    match a
    case Api(call) => ApiLeavesThread(v, call);
    case _ =>
  }

  /** A call that does not ask the play thread to stop leaves it alone. */
  lemma ApiLeavesThread(v: Vars, call: Call)
    requires Inv(v) && Enabled(v, Api(call)) && v.running && !ApiCall(v, call).stopThread
    ensures ApiCall(v, call).playThread == v.playThread && ApiCall(v, call).threads == v.threads
  {
  }

  /** A thread that is at pass `n` of its file plays it on, pass by pass, and announces its end after
      exactly one pass in the mode that plays once, and after exactly a hundred in the mode that loops. */
  lemma {:induction false} PlaysExactly(v: Vars, run: seq<Action>, v': Vars, mode: PlayMode, n: nat)
    requires Inv(v) && IsRun(v, run, v') && Undisturbed(v, run) && !mode.Invalid? && Played(v, mode, n)
    ensures v'.playThread == v.playThread && Played(v', mode, n + EndsReached(run))
    decreases |run|
  {
    if run != [] {
      var a, w := run[0], Apply(v, run[0]);
      assert !w.stopThread;
      PlayedStep(v, a, mode, n);
      StepKeeps(v, a);
      PlaysExactly(w, run[1..], v', mode, if a.EndOfFile? then n + 1 else n);
    }
  }

  /** From the call that starts it: the thread is still reading before its last pass, and done after it. */
  lemma CallPlays(v: Vars, w: Vars, run: seq<Action>, w': Vars)
    requires Inv(w) && PlaysAfresh(v, w) && !w.state.mode.Invalid? && IsRun(w, run, w') && Undisturbed(w, run)
    ensures EndsReached(run) <= if w.state.mode == InLoop then 100 else 1
    ensures w'.playThread == w.playThread && Played(w', w.state.mode, EndsReached(run))
  {
    PlaysExactly(w, run, w', w.state.mode, 0);
  }

  /** Every number of passes up to the last is reached, so the bound is met. */
  lemma {:induction false} LastPassReached(v: Vars, mode: PlayMode, n: nat) returns (run: seq<Action>, v': Vars)
    requires Inv(v) && !v.stopThread && !mode.Invalid? && Played(v, mode, n) && Recorded(v) == Some(Reading(mode, n))
    ensures IsRun(v, run, v') && Undisturbed(v, run) && Recorded(v') == Some(AtEnd)
    ensures n + EndsReached(run) == if mode == InLoop then 100 else 1
    decreases 100 - n
  {
    var a := EndOfFile(true);
    var w := Apply(v, a);
    PlayedStep(v, a, mode, n);
    StepKeeps(v, a);
    if Recorded(w) == Some(AtEnd) {
      run, v' := [a], w;
    } else {
      var rest;
      rest, v' := LastPassReached(w, mode, n + 1);
      run := [a] + rest;
      assert run[1..] == rest;
    }
  }

  /** Once it is asked to stop, the thread ends with the next chunk it plays, and before that it plays on. */
  lemma StopEnds(v: Vars)
    requires Enabled(v, ReadChunk)
    ensures v.stopThread ==> Recorded(Apply(v, ReadChunk)) == Some(Ended(false))
    ensures !v.stopThread ==> Apply(v, ReadChunk) == v
  {
  }

  /** Whoever waits for the play thread has asked it to stop. */
  lemma WaitingAsks(v: Vars)
    requires Reachable(v) && v.lock.Joining?
    ensures v.stopThread && (Enabled(v, ReadChunk) ==> Enabled(Apply(v, ReadChunk), Joined))
  {
    ReachableInv(v);
  }

  // ---------- the end of the auto-stop thread ----------

  /** After a shutdown the auto-stop thread ends, by steps of its own, and leaves the player as it is. */
  lemma ShutdownEnds(v: Vars) returns (run: seq<Action>, v': Vars)
    requires Reachable(v) && v.shutdown && !v.auto.Gone?
    ensures IsRun(v, run, v') && (forall a <- run :: a == AutoLock || a == AutoLeave)
    ensures v'.auto.Gone? && v'.lock.Free? && SamePlayer(v, v')
  {
    ReachableInv(v);
    var a := if v.auto.Signalled? then AutoLock else AutoLeave;
    run, v' := [a], Apply(v, a);
    assert [a][1..] == [] && IsRun(v', [], v');
  }

  /** A shutdown is possible whenever nobody waits and nothing plays, and after it no call is served. */
  lemma ShutdownCloses(v: Vars, call: Call)
    requires Reachable(v)
    ensures v.shutdown ==> !Enabled(v, Api(call)) && !Enabled(v, Shutdown)
    ensures v.lock.Free? && v.state.Stopped? && !v.shutdown && !v.auto.Signalled? ==>
      Enabled(v, Shutdown) && Apply(v, Shutdown).shutdown && SamePlayer(v, Apply(v, Shutdown))
  {
  }
}
