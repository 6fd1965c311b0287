/** Giving the browser back after a sign-in (`runLoginCommand` in src/cli/login-command.ts). The
    command, its interrupt handler and the world take turns between awaits; what runs between two
    awaits is one step. */
module Login {
  import opened Wrappers

  datatype Signal = SIGINT | SIGTERM

  function SignalExitCode(signal: Signal): nat {
    match signal
    case SIGINT => 130
    case SIGTERM => 143
  }

  const EXIT_INTERRUPT_INCOMPLETE := 70

  /** How the command itself ends: an exit code, or an error thrown to its caller. */
  datatype Completion = Returned(code: nat) | Threw(error: string)

  /** Where the command is waiting. `Ending` holds the error the `finally` block is passing on. */
  datatype Progress =
    | Beginning
    | Opening
    | WaitingForClose
    | Ending(thrown: Option<string>)
    | Finished(completion: Completion)

  datatype Caller = Handler | FinallyBlock

  /** One call of `end_sign_in`, and whether the browser was signing in when it was made. */
  datatype EndCall = EndCall(caller: Caller, signingIn: bool)

  datatype State = State(
    progress: Progress,
    installed: bool,
    interrupted: Option<Signal>,
    handlerWaiting: Option<Signal>,
    exited: Option<nat>,
    signingIn: bool,
    calls: seq<EndCall>)

  const START := State(Beginning, false, None, None, None, false, [])

  /** What can happen next, chosen by the world. */
  datatype Event =
    | BeginAccepted
    | BeginRefused(error: string)
    | WindowOpened
    | WindowRefused(error: string)
    | WindowClosed
    | WatchFailed(error: string)
    | EndAnswered(caller: Caller, accepted: bool)
    | SignalArrives(signal: Signal)

  // ----- The running command

  class LoginRun {
    var progress: Progress
    var installed: bool
    var interrupted: Option<Signal>
    var handlerWaiting: Option<Signal>
    var exited: Option<nat>
    // Whether the service has the browser in `signing-in`, and the calls made to end that.
    var signingIn: bool
    var calls: seq<EndCall>

    function Now(): State
      reads this
    {
      State(progress, installed, interrupted, handlerWaiting, exited, signingIn, calls)
    }

    constructor ()
      ensures Now() == START
    {
      progress, installed, interrupted, handlerWaiting, exited := Beginning, false, None, None, None;
      signingIn, calls := false, [];
    }

    /** `begin_sign_in` settles: install the handler at once, or leave with the refusal. */
    method Began(refusal: Option<string>)
      modifies this
      ensures Now() == Step(old(Now()), if refusal.None? then BeginAccepted else BeginRefused(refusal.value))
    {
      if progress != Beginning {
        return;
      }
      if refusal.Some? {
        progress := Finished(Threw(refusal.value));
        return;
      }
      signingIn := true;
      installed := true;
      progress := Opening;
    }

    method Opened(refusal: Option<string>)
      modifies this
      ensures Now() == Step(old(Now()), if refusal.None? then WindowOpened else WindowRefused(refusal.value))
    {
      if progress != Opening {
        return;
      }
      if refusal.None? {
        progress := WaitingForClose;
      } else {
        Finally(refusal);
      }
    }

    method Closed(failure: Option<string>)
      modifies this
      ensures Now() == Step(old(Now()), if failure.None? then WindowClosed else WatchFailed(failure.value))
    {
      if progress != WaitingForClose {
        return;
      }
      Finally(failure);
    }

    /** The `finally` block: remove the handler, and give the browser back unless the handler has. */
    method Finally(thrown: Option<string>)
      modifies this
      ensures Now() == Unwound(old(Now()), thrown)
    {
      installed := false;
      if interrupted.None? {
        EndSignIn(FinallyBlock);
        progress := Ending(thrown);
      } else {
        progress := Finished(Completed(thrown));
      }
    }

    /** A call of `end_sign_in`; its answer arrives later. */
    method EndSignIn(caller: Caller)
      modifies this`calls
      ensures calls == old(calls) + [EndCall(caller, signingIn)]
    {
      calls := calls + [EndCall(caller, signingIn)];
    }

    /** The interrupt handler: latched, so only the first signal does anything. */
    method OnInterrupt(signal: Signal)
      modifies this
      ensures Now() == Step(old(Now()), SignalArrives(signal))
    {
      if !installed || interrupted.Some? {
        return;
      }
      interrupted := Some(signal);
      handlerWaiting := Some(signal);
      EndSignIn(Handler);
    }

    method EndSettled(caller: Caller, accepted: bool)
      modifies this
      ensures Now() == Step(old(Now()), EndAnswered(caller, accepted))
    {
      if caller == FinallyBlock && progress.Ending? {
        signingIn := signingIn && !accepted;
        progress := Finished(Completed(progress.thrown));
      } else if caller == Handler && handlerWaiting.Some? {
        var code := if accepted then SignalExitCode(handlerWaiting.value) else EXIT_INTERRUPT_INCOMPLETE;
        signingIn := signingIn && !accepted;
        handlerWaiting := None;
        exited := Some(code);
      }
    }
  }

  // ----- Steps

  function Completed(thrown: Option<string>): Completion {
    if thrown.Some? then Threw(thrown.value) else Returned(0)
  }

  function Unwound(s: State, thrown: Option<string>): State {
    if s.interrupted.None? then
      s.(installed := false, calls := s.calls + [EndCall(FinallyBlock, s.signingIn)], progress := Ending(thrown))
    else s.(installed := false, progress := Finished(Completed(thrown)))
  }

  /** One step. Events that cannot happen in a state leave it alone, so every sequence of events is a run. */
  function Step(s: State, event: Event): State {
    match event
    case BeginAccepted =>
      if s.progress == Beginning then s.(signingIn := true, installed := true, progress := Opening) else s
    case BeginRefused(error) =>
      if s.progress == Beginning then s.(progress := Finished(Threw(error))) else s
    case WindowOpened =>
      if s.progress == Opening then s.(progress := WaitingForClose) else s
    case WindowRefused(error) =>
      if s.progress == Opening then Unwound(s, Some(error)) else s
    case WindowClosed =>
      if s.progress == WaitingForClose then Unwound(s, None) else s
    case WatchFailed(error) =>
      if s.progress == WaitingForClose then Unwound(s, Some(error)) else s
    case EndAnswered(caller, accepted) =>
      if caller == FinallyBlock && s.progress.Ending? then
        s.(signingIn := s.signingIn && !accepted, progress := Finished(Completed(s.progress.thrown)))
      else if caller == Handler && s.handlerWaiting.Some? then
        s.(signingIn := s.signingIn && !accepted, handlerWaiting := None,
           exited := Some(if accepted then SignalExitCode(s.handlerWaiting.value) else EXIT_INTERRUPT_INCOMPLETE))
      else s
    case SignalArrives(signal) =>
      if s.installed && s.interrupted.None? then
        s.(interrupted := Some(signal), handlerWaiting := Some(signal), calls := s.calls + [EndCall(Handler, s.signingIn)])
      else s
  }

  function After(events: seq<Event>, n: nat): State
    requires n <= |events|
  {
    if n == 0 then START else Step(After(events, n - 1), events[n - 1])
  }

  // ----- What every run keeps

  /** The sign-in was begun. */
  predicate Begun(s: State) {
    s.installed || s.calls != []
  }

  /** Still inside the `try` block. */
  predicate InTry(s: State) {
    s.progress == Opening || s.progress == WaitingForClose
  }

  ghost predicate Inv(s: State) {
    // The handler is installed exactly while there is a claim and no unwinding.
    && (s.installed <==> InTry(s))
    // The one call was made by the handler if a signal got in first, and by the block otherwise.
    && (s.calls == [] <==> s.progress == Beginning || (InTry(s) && s.interrupted.None?) || (s.progress.Finished? && !Begun(s)))
    && (s.calls != [] ==> s.calls == [EndCall(if s.interrupted.Some? then Handler else FinallyBlock, true)])
    && (s.interrupted.Some? ==> s.calls != [])
    && (s.progress.Ending? ==> s.interrupted.None? && s.calls != [] && s.signingIn)
    // The handler's call is either waiting or has ended the process.
    && (s.interrupted.Some? <==> s.handlerWaiting.Some? || s.exited.Some?)
    && !(s.handlerWaiting.Some? && s.exited.Some?)
    && (s.handlerWaiting.Some? ==> s.signingIn && s.handlerWaiting == s.interrupted)
    && (InTry(s) && s.interrupted.None? ==> s.signingIn)
    && (s.exited.Some? ==> s.exited.value == if s.signingIn then EXIT_INTERRUPT_INCOMPLETE else SignalExitCode(s.interrupted.value))
    && (s.progress == Beginning ==> !s.signingIn && s.interrupted.None?)
    && (!Begun(s) ==> !s.signingIn)
  }

  lemma StepKeepsInv(s: State, event: Event)
    requires Inv(s)
    ensures Inv(Step(s, event))
  {
  }

  lemma {:induction false} EveryStateIsSound(events: seq<Event>, n: nat)
    requires n <= |events|
    ensures Inv(After(events, n))
  {
    if n > 0 {
      EveryStateIsSound(events, n - 1);
      StepKeepsInv(After(events, n - 1), events[n - 1]);
    }
  }

  /** `begin_sign_in` was accepted in the first `n` events. */
  ghost predicate WasBegun(events: seq<Event>, n: nat)
    requires n <= |events|
  {
    exists i :: 0 <= i < n && events[i].BeginAccepted? && After(events, i).progress == Beginning
  }

  lemma {:induction false} BegunMeansBegun(events: seq<Event>, n: nat)
    requires n <= |events|
    ensures Begun(After(events, n)) <==> WasBegun(events, n)
    ensures After(events, n).progress == Beginning ==> !WasBegun(events, n)
  {
    if n > 0 {
      BegunMeansBegun(events, n - 1);
      EveryStateIsSound(events, n - 1);
      var before := After(events, n - 1);
      StepKeepsInv(before, events[n - 1]);
      assert WasBegun(events, n) <==>
             WasBegun(events, n - 1) || (events[n - 1].BeginAccepted? && before.progress == Beginning);
    }
  }

  /** Under every interleaving of the command's awaits with any signals: a sign-in that was begun is
      given back by exactly one call once the command has finished or the process was ended, by the
      handler when a signal reached it and by the `finally` block when none did. One that was never
      begun is given back by nobody. No call is ever made for a browser that is not signing in. */
  lemma GivenBackExactlyOnce(events: seq<Event>, n: nat)
    requires n <= |events|
    ensures var s := After(events, n);
            && |s.calls| <= 1
            && (forall c | c in s.calls :: c.signingIn && (c.caller == Handler <==> s.interrupted.Some?))
            && ((s.progress.Finished? || s.exited.Some?) && WasBegun(events, n) ==> |s.calls| == 1)
            && (!WasBegun(events, n) ==> s.calls == [])
  {
    EveryStateIsSound(events, n);
    BegunMeansBegun(events, n);
  }

  /** When the command is done and its call has settled, the browser still refuses callers exactly when
      that call was not accepted; and the process's exit code says which it was: the shell's code for the
      signal that came first, 128 and its number, or 70. */
  lemma ExitCodeTellsTheTruth(events: seq<Event>, n: nat)
    requires n <= |events| && After(events, n).exited.Some?
    ensures var s := After(events, n);
            && s.interrupted.Some? && s.calls == [EndCall(Handler, true)]
            && (s.signingIn <==> s.exited == Some(70))
            && (!s.signingIn && s.interrupted == Some(SIGINT) <==> s.exited == Some(128 + 2))
            && (!s.signingIn && s.interrupted == Some(SIGTERM) <==> s.exited == Some(128 + 15))
  {
    EveryStateIsSound(events, n);
  }

  /** What an answer to `end_sign_in` does: an accepted one ends the sign-in, a refused one leaves it; the
      waiting handler then ends the process with the code that says so, and the waiting block completes. */
  lemma AnswerDecides(s: State, caller: Caller, accepted: bool)
    ensures var next := Step(s, EndAnswered(caller, accepted));
            && (caller == Handler && s.handlerWaiting.Some? ==>
                  && next.signingIn == (s.signingIn && !accepted) && next.handlerWaiting == None
                  && (accepted && s.handlerWaiting == Some(SIGINT) ==> next.exited == Some(130))
                  && (accepted && s.handlerWaiting == Some(SIGTERM) ==> next.exited == Some(143))
                  && (!accepted ==> next.exited == Some(70))
                  && next.progress == s.progress && next.calls == s.calls)
            && (caller == FinallyBlock && s.progress.Ending? ==>
                  && next.signingIn == (s.signingIn && !accepted)
                  && next.progress == Finished(if s.progress.thrown.Some? then Threw(s.progress.thrown.value) else Returned(0))
                  && next.exited == s.exited && next.calls == s.calls)
  {
  }

  /** The latch remembers the first signal: later ones change neither it nor the calls. */
  lemma FirstSignalWins(events: seq<Event>, n: nat)
    requires n < |events| && After(events, n).interrupted.Some? && events[n].SignalArrives?
    ensures After(events, n + 1) == After(events, n)
  {
  }

  /** The window ends the `try` block in state `s`, leaving `thrown`: it refused to open, failed while
      open, or was closed by the person. */
  ghost predicate WindowEnds(s: State, event: Event, thrown: Option<string>) {
    match event
    case WindowRefused(error) => s.progress == Opening && thrown == Some(error)
    case WatchFailed(error) => s.progress == WaitingForClose && thrown == Some(error)
    case WindowClosed => s.progress == WaitingForClose && thrown == None
    case _ => false
  }

  /** The window ended that way at some point of the run. */
  ghost predicate EndedWith(events: seq<Event>, n: nat, thrown: Option<string>)
    requires n <= |events|
  {
    exists i :: 0 <= i < n && WindowEnds(After(events, i), events[i], thrown)
  }

  /** What the block is passing on, or has passed on, is how the window ended. */
  ghost predicate PassesOn(events: seq<Event>, n: nat)
    requires n <= |events|
  {
    match After(events, n).progress
    case Ending(thrown) => EndedWith(events, n, thrown)
    case Finished(Returned(code)) => code == 0 && EndedWith(events, n, None)
    case Finished(Threw(error)) => EndedWith(events, n, Some(error)) || Refused(events, n, error)
    case _ => true
  }

  /** `begin_sign_in` was refused with this error. */
  ghost predicate Refused(events: seq<Event>, n: nat, error: string)
    requires n <= |events|
  {
    exists i :: 0 <= i < n && events[i] == BeginRefused(error) && After(events, i).progress == Beginning
  }

  /** Where an error being passed on comes from, one step back. */
  lemma StepPassesOn(s: State, event: Event)
    ensures var next := Step(s, event);
            match next.progress
            case Ending(thrown) => s.progress == next.progress || WindowEnds(s, event, thrown)
            case Finished(completion) =>
              || s.progress == next.progress
              || (s.progress.Ending? && completion == Completed(s.progress.thrown))
              || (completion.Threw? && event == BeginRefused(completion.error) && s.progress == Beginning)
              || (completion == Returned(0) && WindowEnds(s, event, None))
              || (completion.Threw? && WindowEnds(s, event, Some(completion.error)))
            case _ => true
  {
  }

  lemma EndedGrows(events: seq<Event>, n: nat)
    requires 0 < n <= |events|
    ensures forall thrown | EndedWith(events, n - 1, thrown) :: EndedWith(events, n, thrown)
    ensures forall error | Refused(events, n - 1, error) :: Refused(events, n, error)
  {
  }

  /** The window's own failure, or the refusal to begin, is what the caller sees, and nothing else ever
      is: giving the browser back, whether or not it works, never replaces it and never adds to it. No
      listener is left behind. */
  lemma {:induction false} FailureIsPassedOn(events: seq<Event>, n: nat)
    requires n <= |events|
    ensures PassesOn(events, n)
    ensures After(events, n).progress.Finished? ==> !After(events, n).installed
  {
    hide Step, WindowEnds;
    EveryStateIsSound(events, n);
    if n > 0 {
      FailureIsPassedOn(events, n - 1);
      EndedGrows(events, n);
      hide EndedWith, Refused, Inv;
      StepPassesOn(After(events, n - 1), events[n - 1]);
      LastStep(events, n);
    }
  }

  lemma LastStep(events: seq<Event>, n: nat)
    requires 0 < n <= |events|
    ensures forall thrown | WindowEnds(After(events, n - 1), events[n - 1], thrown) :: EndedWith(events, n, thrown)
    ensures forall error | events[n - 1] == BeginRefused(error) && After(events, n - 1).progress == Beginning ::
              Refused(events, n, error)
  {
    hide Step, WindowEnds;
  }
}
