/** The shared archive session (archive_saf.go): any number of callers start transitions, confirm the
    receipt and complete the session; one of them completes it, once, after the transitions under way
    have drained. Every region that holds the mutex is one step; a schedule interleaves the steps. */
module ArchiveSession {
  import opened Common

  // What the core's Finish or Abort answers; conclusive unless its class is unknown or its archive pending.
  datatype Answer = Answer(value: nat, conclusive: bool)

  // What the completion presents.
  datatype Snapshot = Shown(value: nat) | Failure

  function Present(answer: Answer): Snapshot
  {
    if answer.conclusive then Shown(answer.value) else Failure
  }

  type Channel = nat

  const MAX_RECEIPT_BYTES := 4096

  // The fields that waiting calls depend on.
  datatype Waited = Waited(pendingCalls: nat, pendingSettled: Option<Channel>, settled: Option<Channel>, shut: set<Channel>,
                           terminal: Option<Snapshot>)

  /** pcv3ArchiveSAFSessionState. Channels are numbered; shut are the closed ones. */
  class Session {
    const activeReceipt: string
    // Whether the session still has its core.
    var core: bool
    var confirmed: bool
    var completing: bool
    var sealed: bool
    var pendingCalls: nat
    var pendingSettled: Option<Channel>
    var settled: Option<Channel>
    var terminal: Option<Snapshot>
    var made: nat
    var shut: set<Channel>

    constructor (activeReceipt: string)
      ensures Valid() && core && !confirmed && !completing && !sealed && pendingCalls == 0 && terminal.None?
      ensures this.activeReceipt == activeReceipt && settled.None? && shut == {} && made == 0
    {
      this.activeReceipt := activeReceipt;
      core, confirmed, completing, sealed, pendingCalls := true, false, false, false, 0;
      pendingSettled, settled, terminal, made, shut := None, None, None, 0, {};
    }

    ghost predicate Open(c: Option<Channel>)
      reads this
    {
      c.Some? && c.value < made && c.value !in shut
    }

    ghost predicate Valid()
      reads this
    {
      && (forall c <- shut :: c < made)
      && (pendingCalls > 0 <==> pendingSettled.Some?) && (pendingCalls > 0 ==> Open(pendingSettled))
      && (sealed <==> completing || terminal.Some?) && !(completing && terminal.Some?)
      && (sealed <==> settled.Some?) && (completing ==> Open(settled)) && (terminal.Some? ==> settled.value in shut)
      && (core <==> terminal.None?)
      && (terminal.Some? ==> pendingCalls == 0)
      && (pendingCalls > 0 && settled.Some? ==> pendingSettled != settled)
    }

    ghost function View(): Waited
      reads this
    {
      Waited(pendingCalls, pendingSettled, settled, shut, terminal)
    }

    // make(chan struct{})
    method Make() returns (c: Channel)
      modifies this`made
      ensures c == old(made) && made == old(made) + 1
    {
      c := made;
      made := made + 1;
    }

    // close; closing a closed channel would panic.
    method Shut(c: Channel)
      requires c < made && c !in shut
      modifies this`shut
      ensures shut == old(shut) + {c}
    {
      shut := shut + {c};
    }

    // startPendingCallLocked
    method StartPendingCall()
      requires Valid() && !sealed
      modifies this`pendingCalls, this`pendingSettled, this`made
      ensures Valid() && pendingCalls == old(pendingCalls) + 1
      ensures old(pendingCalls) > 0 ==> pendingSettled == old(pendingSettled)
    {
      if pendingCalls == 0 {
        var c := Make();
        pendingSettled := Some(c);
      }
      pendingCalls := pendingCalls + 1;
    }

    // finishPendingCall
    method FinishPendingCall()
      requires Valid()
      modifies this`pendingCalls, this`pendingSettled, this`shut
      ensures Valid() && pendingCalls == if old(pendingCalls) > 0 then old(pendingCalls) - 1 else 0
      ensures pendingCalls > 0 ==> shut == old(shut) && pendingSettled == old(pendingSettled)
      ensures old(pendingCalls) == 1 ==> shut == old(shut) + {old(pendingSettled).value}
      ensures old(pendingCalls) == 0 ==> shut == old(shut)
    {
      if pendingCalls > 0 {
        pendingCalls := pendingCalls - 1;
        if pendingCalls == 0 {
          Shut(pendingSettled.value);
          pendingSettled := None;
        }
      }
    }

    // beginCoreCall: refused once sealed.
    method BeginCoreCall() returns (admitted: bool)
      requires Valid()
      modifies this`pendingCalls, this`pendingSettled, this`made
      ensures Valid() && admitted == !sealed
      ensures pendingCalls == old(pendingCalls) + if admitted then 1 else 0
      ensures old(pendingCalls) > 0 ==> pendingSettled == old(pendingSettled)
    {
      if terminal.Some? || sealed || !core {
        return false;
      }
      StartPendingCall();
      admitted := true;
    }

    // The first region of ConfirmCrashReceiptPersisted: at most one confirmation, of the exact receipt.
    method ConfirmReceipt(receipt: string) returns (admitted: bool)
      requires Valid()
      modifies this`confirmed, this`pendingCalls, this`pendingSettled, this`made
      ensures Valid()
      ensures admitted == (!sealed && !old(confirmed) && 0 < |receipt| <= 4096 && receipt == activeReceipt)
      ensures confirmed == (old(confirmed) || admitted)
      ensures pendingCalls == old(pendingCalls) + if admitted then 1 else 0
      ensures old(pendingCalls) > 0 ==> pendingSettled == old(pendingSettled)
    {
      if terminal.Some? || sealed || !core || confirmed || receipt == "" || |receipt| > MAX_RECEIPT_BYTES || receipt != activeReceipt {
        return false;
      }
      confirmed := true;
      StartPendingCall();
      admitted := true;
    }

    // The first completer seals the session: nothing is admitted any more.
    method Seal()
      requires Valid() && !sealed
      modifies this`completing, this`sealed, this`settled, this`made
      ensures Valid() && completing && sealed && settled == Some(old(made))
    {
      completing, sealed := true, true;
      var c := Make();
      settled := Some(c);
    }

    // The last region of complete.
    method Settle(result: Snapshot)
      requires Valid() && completing && pendingCalls == 0
      modifies this`terminal, this`core, this`completing, this`shut
      ensures Valid() && terminal == Some(result) && !completing && !core && shut == old(shut) + {settled.value}
    {
      terminal, core, completing := Some(result), false, false;
      Shut(settled.value);
    }
  }

  // ----- what was observed -----

  // Began and Ended bound a transition admitted by a session; Called enters the core's Finish or Abort,
  // which answers or panics.
  datatype Event =
    | Began(t: nat)
    | Ended(t: nat)
    | Sealed(t: nat)
    | Called(t: nat, abort: bool)
    | Answered(t: nat, answer: Answer)
    | Panicked(t: nat)

  datatype CoreCall = CoreCall(abort: bool, panicked: bool)

  function RunningAfter(before: set<nat>, e: Event): set<nat>
  {
    match e
    case Began(t) => before + {t}
    case Ended(t) => before - {t}
    case _ => before
  }

  function Running(log: seq<Event>): set<nat>
  {
    if log == [] then {} else RunningAfter(Running(log[..|log| - 1]), log[|log| - 1])
  }

  function CallsAfter(before: seq<CoreCall>, e: Event): seq<CoreCall>
  {
    match e
    case Called(_, abort) => before + [CoreCall(abort, false)]
    case Panicked(_) => if before == [] then [] else before[|before| - 1 := CoreCall(before[|before| - 1].abort, true)]
    case _ => before
  }

  function Calls(log: seq<Event>): seq<CoreCall>
  {
    if log == [] then [] else CallsAfter(Calls(log[..|log| - 1]), log[|log| - 1])
  }

  predicate Panics(log: seq<Event>)
  {
    exists e <- log :: e.Panicked?
  }

  // What the calls into the core amount to: the answer, but a failure as soon as one of them panicked.
  function Outcome(log: seq<Event>): Option<Snapshot>
  {
    if log == [] then None else
      var before := log[..|log| - 1];
      match log[|log| - 1]
      case Panicked(_) => Some(Failure)
      case Answered(_, answer) => Some(if Panics(before) then Failure else Present(answer))
      case _ => Outcome(before)
  }

  lemma OutcomeNext(log: seq<Event>, e: Event)
    ensures Panics(log + [e]) == (Panics(log) || e.Panicked?)
    ensures Outcome(log + [e]) == if e.Panicked? then Some(Failure)
                                  else if e.Answered? then Some(if Panics(log) then Failure else Present(e.answer)) else Outcome(log)
  {
    assert (log + [e])[..|log|] == log;
    assert e in log + [e];
  }

  lemma {:induction false} NoCallNoOutcome(log: seq<Event>)
    requires Orderly(log) && Calls(log) == []
    ensures Outcome(log).None? && !Panics(log)
  {
    if log != [] {
      var before := log[..|log| - 1];
      assert log == before + [log[|log| - 1]];
      NoCallNoOutcome(before);
      OutcomeNext(before, log[|log| - 1]);
    }
  }

  predicate HasSeal(log: seq<Event>)
  {
    exists e <- log :: e.Sealed?
  }

  // No transition begins after the seal; the core is completed when none is running, once, and
  // aborted a second time only after a Finish that panicked.
  predicate Allowed(before: seq<Event>, e: Event)
  {
    match e
    case Began(t) => !HasSeal(before) && t !in Running(before)
    case Ended(t) => t in Running(before)
    case Sealed(_) => !HasSeal(before)
    case Called(_, abort) =>
      HasSeal(before) && Running(before) == {} && (Calls(before) == [] || (abort && Calls(before) == [CoreCall(false, true)]))
    case Panicked(_) => Calls(before) != [] && !Calls(before)[|Calls(before)| - 1].panicked
    case Answered(_, _) => Calls(before) != [] && !Calls(before)[|Calls(before)| - 1].panicked
  }

  predicate Orderly(log: seq<Event>)
  {
    log == [] || (Orderly(log[..|log| - 1]) && Allowed(log[..|log| - 1], log[|log| - 1]))
  }

  // In words of positions: after a seal nothing begins and nothing is sealed again.
  lemma {:induction false} NothingBeginsAfterSeal(log: seq<Event>, i: nat, j: nat)
    requires Orderly(log) && i < j < |log| && log[i].Sealed?
    ensures !log[j].Began? && !log[j].Sealed?
  {
    if j < |log| - 1 {
      NothingBeginsAfterSeal(log[..|log| - 1], i, j);
    } else {
      assert log[i] in log[..j];
    }
  }

  // Every transition that began before a completing call has ended before it.
  lemma {:induction false} NoOverlap(log: seq<Event>, i: nat, j: nat)
    requires Orderly(log) && i < j < |log| && log[i].Began? && log[j].Called?
    ensures exists k :: i < k < j && log[k] == Ended(log[i].t)
  {
    if j < |log| - 1 {
      NoOverlap(log[..|log| - 1], i, j);
      var k :| i < k < j && log[..|log| - 1][k] == Ended(log[i].t);
      assert log[k] == Ended(log[i].t);
    } else {
      StillRunning(log[..j], i);
    }
  }

  lemma {:induction false} StillRunning(log: seq<Event>, i: nat)
    requires i < |log| && log[i].Began? && log[i].t !in Running(log)
    ensures exists k :: i < k < |log| && log[k] == Ended(log[i].t)
  {
    if i < |log| - 1 {
      if log[|log| - 1] == Ended(log[i].t) {
      } else {
        StillRunning(log[..|log| - 1], i);
        var k :| i < k < |log| - 1 && log[..|log| - 1][k] == Ended(log[i].t);
        assert log[k] == Ended(log[i].t);
      }
    }
  }

  // One completion: a Finish, or an Abort, or a Finish that panicked and then an Abort.
  lemma {:induction false} OneCompletion(log: seq<Event>)
    requires Orderly(log)
    ensures |Calls(log)| <= 2
    ensures |Calls(log)| == 2 ==> Calls(log)[0] == CoreCall(false, true) && Calls(log)[1].abort
  {
    if log != [] {
      OneCompletion(log[..|log| - 1]);
    }
  }

  // ----- the callers -----

  datatype Call = Transition | Confirm(receipt: string) | Complete(abort: bool)

  // Where one call stands, between regions: inside the core's transition, inside the core's Cancel
  // after a panic, about to leave, waiting for the pending transitions, inside the core's Finish or
  // Abort, inside the Abort after a panic, about to settle, waiting for another completion, about to
  // read its result; then one of three ends.
  datatype Pc =
    | InStep
    | InCancel
    | Leaving
    | Draining(abort: bool, on: Channel)
    | Calling(abort: bool)
    | Aborting
    | Publishing(result: Snapshot)
    | Awaiting(on: Channel)
    | Reading
    | Rejected
    | Stepped
    | Returned(snapshot: Snapshot)

  predicate IsPending(pc: Pc)
  {
    pc.InStep? || pc.InCancel? || pc.Leaving?
  }

  predicate IsCompleter(pc: Pc)
  {
    pc.Draining? || pc.Calling? || pc.Aborting? || pc.Publishing?
  }

  predicate IsOver(pc: Pc)
  {
    pc.Rejected? || pc.Stepped? || pc.Returned?
  }

  ghost function PendingOf(calls: map<nat, Pc>): set<nat>
  {
    set t | t in calls && IsPending(calls[t])
  }

  // The pending calls once t stands at pc.
  ghost function PendingWith(calls: map<nat, Pc>, t: nat, pc: Pc): set<nat>
  {
    PendingOf(calls) - {t} + if IsPending(pc) then {t} else {}
  }

  lemma PendingUpdate(calls: map<nat, Pc>, t: nat, pc: Pc)
    ensures PendingOf(calls[t := pc]) == PendingWith(calls, t, pc)
  {
  }

  // How many of its own steps a call can still take.
  function Left(pc: Pc): nat
  {
    match pc
    case InStep => 3
    case InCancel => 2
    case Leaving => 1
    case Draining(_, _) => 4
    case Calling(_) => 3
    case Aborting => 2
    case Publishing(_) => 1
    case Awaiting(_) => 2
    case Reading => 1
    case _ => 0
  }

  // Where the next step takes a call, whatever the core does in it.
  function Next(pc: Pc, panicked: bool, answer: Answer, terminal: Option<Snapshot>): Pc
  {
    match pc
    case InStep => if panicked then InCancel else Leaving
    case InCancel => Leaving
    case Leaving => Stepped
    case Draining(abort, _) => Calling(abort)
    case Calling(abort) => if !panicked then Publishing(Present(answer)) else if abort then Publishing(Failure) else Aborting
    case Aborting => Publishing(Failure)
    case Publishing(s) => Returned(s)
    case Awaiting(_) => Reading
    case Reading => if terminal.Some? then Returned(terminal.value) else Reading
    case _ => pc
  }

  // What that step lets be seen.
  function Noted(t: nat, pc: Pc, panicked: bool, answer: Answer): seq<Event>
  {
    match pc
    case Leaving => [Ended(t)]
    case Draining(abort, _) => [Called(t, abort)]
    case Calling(abort) =>
      if !panicked then [Answered(t, answer)] else if abort then [Panicked(t)] else [Panicked(t), Called(t, true)]
    case Aborting => [if panicked then Panicked(t) else Answered(t, answer)]
    case _ => []
  }

  // What a call lets be seen when it starts and comes to stand at pc.
  function Entered(t: nat, pc: Pc): seq<Event>
  {
    match pc
    case InStep => [Began(t)]
    case Draining(_, _) => [Sealed(t)]
    case Calling(abort) => [Sealed(t), Called(t, abort)]
    case _ => []
  }

  // What a call may rely on where it stands; mine says that it is the one completing the session.
  ghost predicate Stands(pc: Pc, mine: bool, calls: seq<CoreCall>, v: Waited)
  {
    match pc
    case Draining(_, on) => mine && calls == [] && (if v.pendingCalls > 0 then v.pendingSettled == Some(on) else on in v.shut)
    case Calling(abort) => mine && v.pendingCalls == 0 && calls == [CoreCall(abort, false)]
    case Aborting => mine && v.pendingCalls == 0 && calls == [CoreCall(false, true), CoreCall(true, false)]
    case Publishing(_) => mine && v.pendingCalls == 0 && calls != []
    case Awaiting(on) => v.settled == Some(on)
    case Reading => v.terminal.Some?
    case Returned(s) => v.terminal == Some(s)
    case _ => true
  }

  /** The calls made on one session; each has its own number. */
  class Host {
    const session: Session
    var calls: map<nat, Pc>
    var log: seq<Event>
    // The call that seals the session.
    ghost var completer: Option<nat>

    constructor (activeReceipt: string)
      ensures Valid() && calls == map[] && log == [] && fresh(session) && session.activeReceipt == activeReceipt
    {
      session := new Session(activeReceipt);
      calls, log, completer := map[], [], None;
    }

    ghost function Pending(): set<nat>
      reads this
    {
      PendingOf(calls)
    }

    ghost predicate CallOk(t: nat)
      requires t in calls
      reads this, session
    {
      Stands(calls[t], completer == Some(t), Calls(log), session.View())
    }

    // The log tells the same story as the state.
    ghost predicate LogOk()
      reads this, session
    {
      && Orderly(log) && Running(log) == Pending() && session.pendingCalls == |Pending()|
      && (HasSeal(log) <==> session.sealed) && (!session.sealed ==> Calls(log) == [])
    }

    ghost predicate Valid()
      reads this, session
    {
      && session.Valid() && LogOk()
      && (session.completing <==> completer.Some?)
      && (completer.Some? ==> completer.value in calls && IsCompleter(calls[completer.value]))
      && (forall t <- calls :: CallOk(t))
    }

    // The step a call may take next is not blocked.
    predicate Enabled(t: nat)
      reads this, session
    {
      && t in calls && !IsOver(calls[t])
      && (calls[t].Draining? || calls[t].Awaiting? ==> calls[t].on in session.shut)
    }

    // As long as some call has not returned, some call can move.
    lemma NoDeadlock(t: nat)
      requires Valid() && t in calls && !IsOver(calls[t])
      ensures exists u :: Enabled(u)
    {
      assert CallOk(t);
      if !Enabled(t) {
        if calls[t].Draining? {
          PendingMoves();
        } else {
          var c := completer.value;
          assert CallOk(c);
          if !Enabled(c) {
            PendingMoves();
          }
        }
      }
    }

    lemma PendingMoves()
      requires Valid() && session.pendingCalls > 0
      ensures exists u :: Enabled(u)
    {
      assert Pending() != {};
      var u :| u in Pending();
      assert Enabled(u);
    }

    // Where the newcomer stands and what else changes.
    twostate predicate Moved(t: nat)
      reads this, session
    {
      && t in calls && calls == old(calls)[t := calls[t]] && old(log) <= log
      && (old(session.terminal).Some? ==> session.terminal == old(session.terminal))
      && (old(session.sealed) ==> session.sealed)
    }

    ghost predicate OthersStand(t: nat, done: seq<CoreCall>)
      reads this, session
    {
      forall u <- calls :: u != t ==> Stands(calls[u], completer == Some(u), done, session.View())
    }

    // Moves call t, with what became visible; the session has already changed.
    method Place(t: nat, pc: Pc, log': seq<Event>)
      requires session.Valid() && log <= log'
      requires Orderly(log') && Running(log') == PendingWith(calls, t, pc) && session.pendingCalls == |PendingWith(calls, t, pc)|
      requires (HasSeal(log') <==> session.sealed) && (!session.sealed ==> Calls(log') == [])
      requires OthersStand(t, Calls(log')) && Stands(pc, completer == Some(t), Calls(log'), session.View())
      requires session.completing <==> completer.Some?
      requires completer.Some? ==> if completer.value == t then IsCompleter(pc) else completer.value in calls && IsCompleter(calls[completer.value])
      modifies this`calls, this`log
      ensures Valid() && calls == old(calls)[t := pc] && log == log'
    {
      PendingUpdate(calls, t, pc);
      hide Orderly, Running, Calls, HasSeal, Session.Valid, Stands, Session.View, IsCompleter, PendingOf, PendingWith;
      ghost var before := calls;
      log, calls := log', calls[t := pc];
      assert Pending() == old(PendingWith(calls, t, pc));
      forall u | u in calls
        ensures CallOk(u)
      {
        if u != t {
          assert u in before;
        }
      }
    }

    // beginCoreCall, or the confirmation of the receipt.
    method Admit(t: nat, receipt: Option<string>) returns (admitted: bool)
      requires Valid() && t !in calls
      modifies session
      ensures session.Valid() && OthersStand(t, Calls(log)) && session.pendingCalls == |Pending()| + if admitted then 1 else 0
      ensures session.terminal == old(session.terminal) && session.sealed == old(session.sealed)
      ensures session.completing == old(session.completing)
      ensures admitted == (!session.sealed
                           && (receipt.Some? ==> !old(session.confirmed) && 0 < |receipt.value| <= MAX_RECEIPT_BYTES && receipt.value == session.activeReceipt))
      ensures session.confirmed == (old(session.confirmed) || (receipt.Some? && admitted))
    {
      hide Orderly, Running, Calls, HasSeal;
      forall u | u in calls
        ensures Stands(calls[u], completer == Some(u), Calls(log), session.View())
      {
        assert CallOk(u);
      }
      if receipt.Some? {
        admitted := session.ConfirmReceipt(receipt.value);
      } else {
        admitted := session.BeginCoreCall();
      }
    }

    method Begin(t: nat, receipt: Option<string>)
      requires Valid() && t !in calls
      modifies this, session
      ensures Valid() && Moved(t) && session.terminal == old(session.terminal)
      ensures calls[t] in {InStep, Rejected}
      ensures calls[t] == InStep <==>
                (!old(session.sealed)
                 && (receipt.Some? ==> !old(session.confirmed) && 0 < |receipt.value| <= MAX_RECEIPT_BYTES && receipt.value == session.activeReceipt))
      ensures session.confirmed == (old(session.confirmed) || (receipt.Some? && calls[t] == InStep))
      ensures log == old(log) + Entered(t, calls[t])
    {
      hide Orderly, Running, Calls, HasSeal, Session.Valid;
      PendingAdd(t);
      Record(log, Began(t));
      var admitted := Admit(t, receipt);
      Place(t, if admitted then InStep else Rejected, if admitted then log + [Began(t)] else log);
    }

    // Everything Place needs when nothing has happened yet.
    lemma Settled(t: nat)
      requires Valid() && t !in calls
      ensures session.Valid() && Orderly(log) && Running(log) == Pending() == Pending() - {t} && session.pendingCalls == |Pending()|
      ensures (HasSeal(log) <==> session.sealed) && (!session.sealed ==> Calls(log) == []) && OthersStand(t, Calls(log))
      ensures session.completing <==> completer.Some?
      ensures completer.Some? ==> completer.value != t && completer.value in calls && IsCompleter(calls[completer.value])
      ensures session.completing ==> session.settled.Some?
      ensures session.sealed <==> session.completing || session.terminal.Some?
      ensures session.terminal.Some? ==> Stands(Returned(session.terminal.value), false, Calls(log), session.View())
      ensures session.completing ==> Stands(Awaiting(session.settled.value), false, Calls(log), session.View())
      ensures forall pc: Pc :: !IsPending(pc) ==> PendingWith(calls, t, pc) == Pending()
    {
      forall u | u in calls
        ensures Stands(calls[u], completer == Some(u), Calls(log), session.View())
      {
        assert CallOk(u);
      }
    }

    // The first region of complete, with its first look at the pending calls.
    method Enter(t: nat, abort: bool)
      requires Valid() && t !in calls
      modifies this, session
      ensures Valid() && Moved(t) && session.sealed && session.terminal == old(session.terminal)
      ensures old(session.terminal).Some? ==> calls[t] == Returned(old(session.terminal).value)
      ensures old(session.completing) ==> calls[t] == Awaiting(old(session.settled).value)
      ensures !old(session.sealed) ==> if old(session.pendingCalls) == 0 then calls[t] == Calling(abort) else calls[t] == Draining(abort, old(session.pendingSettled).value)
      ensures old(session.sealed) <==> old(session.terminal).Some? || old(session.completing)
      ensures log == old(log) + Entered(t, calls[t])
    {
      hide Orderly, Running, Calls, HasSeal, Session.Valid, Valid, Stands, OthersStand, PendingWith, PendingOf, IsCompleter, Session.View;
      Settled(t);
      if session.terminal.Some? {
        Place(t, Returned(session.terminal.value), log);
      } else if session.completing {
        Place(t, Awaiting(session.settled.value), log);
      } else {
        SealBy(t, abort);
      }
    }

    method SealBy(t: nat, abort: bool)
      requires Valid() && t !in calls && !session.sealed
      modifies this, session
      ensures Valid() && Moved(t) && session.sealed && session.terminal == old(session.terminal)
      ensures if old(session.pendingCalls) == 0 then calls[t] == Calling(abort) else calls[t] == Draining(abort, old(session.pendingSettled).value)
      ensures log == old(log) + Entered(t, calls[t])
    {
      hide Orderly, Running, Calls, HasSeal, Session.Valid, Valid, Stands, PendingWith, PendingOf, Session.View;
      Settled(t);
      Record(log, Sealed(t));
      Record(log + [Sealed(t)], Called(t, abort));
      SealSession(t, abort);
      completer := Some(t);
      if session.pendingCalls != 0 {
        Place(t, Draining(abort, session.pendingSettled.value), log + [Sealed(t)]);
      } else {
        assert Calls(log + [Sealed(t)] + [Called(t, abort)]) == [CoreCall(abort, false)];
        Place(t, Calling(abort), log + [Sealed(t)] + [Called(t, abort)]);
      }
    }

    // Whoever waits for a completion is not there yet.
    method SealSession(t: nat, abort: bool)
      requires Valid() && t !in calls && !session.sealed
      modifies session
      ensures session.Valid() && session.sealed && session.completing && session.terminal == old(session.terminal)
      ensures session.pendingCalls == old(session.pendingCalls) && session.pendingSettled == old(session.pendingSettled)
      ensures forall u <- calls, done: seq<CoreCall> :: Stands(calls[u], false, done, session.View())
      ensures session.pendingCalls > 0 ==> session.pendingSettled.Some? && Stands(Draining(abort, session.pendingSettled.value), true, [], session.View())
      ensures session.pendingCalls == 0 ==> Pending() == {} && Stands(Calling(abort), true, [CoreCall(abort, false)], session.View())
    {
      hide Orderly, Running, Calls, HasSeal;
      forall u | u in calls
        ensures Stands(calls[u], false, Calls(log), session.View())
      {
        assert CallOk(u);
      }
      session.Seal();
    }

    // A step inside the core: the transition itself, then Cancel if it panicked.
    method StepCore(t: nat, panicked: bool)
      requires Valid() && t in calls && (calls[t].InStep? || calls[t].InCancel?)
      modifies this
      ensures Valid() && Moved(t) && log == old(log)
      ensures calls[t] == if old(calls[t]).InStep? && panicked then InCancel else Leaving
    {
      assert PendingWith(calls, t, Leaving) == Pending() && PendingWith(calls, t, InCancel) == Pending();
      hide Orderly, Running, Calls, HasSeal, Session.Valid;
      Place(t, if calls[t].InStep? && panicked then InCancel else Leaving, log);
    }

    // finishPendingCall
    method Leave(t: nat)
      requires Valid() && t in calls && calls[t].Leaving?
      modifies this, session
      ensures Valid() && Moved(t) && calls[t] == Stepped && log == old(log) + [Ended(t)] && session.terminal == old(session.terminal)
    {
      hide Orderly, Running, Calls, HasSeal, Session.Valid, PendingWith, PendingOf, OthersStand;
      Record(log, Ended(t));
      PendingRemove(t);
      LeaveSession(t);
      Place(t, Stepped, log + [Ended(t)]);
    }

    method LeaveSession(t: nat)
      requires Valid() && t in calls && calls[t].Leaving? && session.pendingCalls > 0
      modifies session
      ensures session.Valid() && OthersStand(t, Calls(log)) && session.pendingCalls == old(session.pendingCalls) - 1
      ensures session.terminal == old(session.terminal) && session.sealed == old(session.sealed)
      ensures session.completing == old(session.completing)
    {
      hide Orderly, Running, Calls, HasSeal;
      forall u | u in calls
        ensures Stands(calls[u], completer == Some(u), Calls(log), session.View())
      {
        assert CallOk(u);
      }
      session.FinishPendingCall();
    }

    // The completer wakes: the pending calls are all gone, so one wait is enough.
    method Drained(t: nat)
      requires Valid() && Enabled(t) && calls[t].Draining?
      modifies this
      ensures Valid() && Moved(t) && calls[t] == Calling(old(calls[t].abort)) && log == old(log) + [Called(t, old(calls[t].abort))]
    {
      assert CallOk(t);
      var abort := calls[t].abort;
      assert session.pendingCalls == 0 && Pending() == {};
      Record(log, Called(t, abort));
      assert PendingWith(calls, t, Calling(abort)) == {};
      forall u | u in calls
        ensures u != t ==> Stands(calls[u], completer == Some(u), Calls(log + [Called(t, abort)]), session.View())
      {
        assert CallOk(u);
      }
      hide Orderly, Running, Calls, HasSeal, Session.Valid;
      Place(t, Calling(abort), log + [Called(t, abort)]);
    }

    // What holds while call t is inside the core's Finish or Abort.
    lemma Completing(t: nat)
      requires Valid() && t in calls && (calls[t].Calling? || calls[t].Aborting?)
      ensures session.Valid() && Orderly(log) && Running(log) == Pending() && session.pendingCalls == |Pending()| == 0
      ensures HasSeal(log) && session.sealed && session.completing && completer == Some(t)
      ensures calls[t].Calling? ==> Calls(log) == [CoreCall(calls[t].abort, false)]
      ensures calls[t].Aborting? ==> Calls(log) == [CoreCall(false, true), CoreCall(true, false)]
      ensures forall pc: Pc :: !IsPending(pc) ==> PendingWith(calls, t, pc) == Pending()
      ensures forall done: seq<CoreCall> :: OthersStand(t, done)
    {
      assert CallOk(t);
      forall done: seq<CoreCall>
        ensures OthersStand(t, done)
      {
        Alone(t, done);
      }
    }

    // The core answers Finish or Abort; a Finish that panics is followed by an Abort.
    method TakeAnswer(t: nat, panicked: bool, answer: Answer)
      requires Valid() && t in calls && calls[t].Calling?
      modifies this
      ensures Valid() && Moved(t)
      ensures calls[t] == if !panicked then Publishing(Present(answer)) else if old(calls[t].abort) then Publishing(Failure) else Aborting
      ensures log == old(log) + Noted(t, old(calls[t]), panicked, answer)
    {
      hide Orderly, Running, Calls, HasSeal, Session.Valid, PendingWith, PendingOf, OthersStand, Valid;
      Completing(t);
      Record(log, Answered(t, answer));
      Record(log, Panicked(t));
      Record(log + [Panicked(t)], Called(t, true));
      if !panicked {
        Place(t, Publishing(Present(answer)), log + [Answered(t, answer)]);
      } else if calls[t].abort {
        Place(t, Publishing(Failure), log + [Panicked(t)]);
      } else {
        assert Calls(log + [Panicked(t)]) == [CoreCall(false, true)];
        Place(t, Aborting, log + [Panicked(t)] + [Called(t, true)]);
      }
    }

    // The Abort after a panic; whatever it answers, the result is a failure.
    method TakeAbortAnswer(t: nat, panicked: bool, answer: Answer)
      requires Valid() && t in calls && calls[t].Aborting?
      modifies this
      ensures Valid() && Moved(t) && calls[t] == Publishing(Failure)
      ensures log == old(log) + [if panicked then Panicked(t) else Answered(t, answer)]
    {
      hide Orderly, Running, Calls, HasSeal, Session.Valid, PendingWith, PendingOf, OthersStand, Valid;
      Completing(t);
      Record(log, Panicked(t));
      Record(log, Answered(t, answer));
      Place(t, Publishing(Failure), log + [if panicked then Panicked(t) else Answered(t, answer)]);
    }

    // Nobody but the completer depends on the calls made to the core.
    lemma Alone(t: nat, done: seq<CoreCall>)
      requires Valid() && t in calls && completer == Some(t)
      ensures OthersStand(t, done)
    {
      forall u | u in calls && u != t
        ensures Stands(calls[u], completer == Some(u), done, session.View())
      {
        assert CallOk(u);
      }
    }

    // The last region of complete.
    method Publish(t: nat)
      requires Valid() && t in calls && calls[t].Publishing?
      modifies this, session
      ensures Valid() && Moved(t) && calls[t] == Returned(old(calls[t].result)) && session.terminal == Some(old(calls[t].result)) && log == old(log)
    {
      assert CallOk(t);
      var result := calls[t].result;
      forall u | u in calls && u != t
        ensures Stands(calls[u], false, Calls(log), session.View())
      {
        assert CallOk(u);
      }
      hide Orderly, Running, Calls, HasSeal;
      session.Settle(result);
      completer := None;
      assert PendingWith(calls, t, Returned(result)) == Pending();
      Place(t, Returned(result), log);
    }

    // A later completer wakes and reads the result.
    method Wake(t: nat)
      requires Valid() && Enabled(t) && (calls[t].Awaiting? || calls[t].Reading?)
      modifies this
      ensures Valid() && Moved(t) && log == old(log)
      ensures old(calls[t]).Awaiting? ==> calls[t].Reading?
      ensures old(calls[t]).Reading? ==> session.terminal.Some? && calls[t] == Returned(session.terminal.value)
    {
      assert CallOk(t);
      assert session.terminal.Some?;
      var pc := if calls[t].Awaiting? then Reading else Returned(session.terminal.value);
      assert PendingWith(calls, t, pc) == Pending();
      forall u | u in calls && u != t
        ensures Stands(calls[u], completer == Some(u), Calls(log), session.View())
      {
        assert CallOk(u);
      }
      hide Orderly, Running, Calls, HasSeal, Session.Valid, PendingWith, PendingOf;
      Place(t, pc, log);
    }

    // The next step of call t, whatever the core does in it. Every step brings the call closer to its end.
    method Go(t: nat, panicked: bool, answer: Answer)
      requires Valid() && Enabled(t)
      modifies this, session
      ensures Valid() && Moved(t) && Left(calls[t]) < old(Left(calls[t]))
      ensures calls[t] == Next(old(calls[t]), panicked, answer, session.terminal)
      ensures log == old(log) + Noted(t, old(calls[t]), panicked, answer)
      ensures session.terminal == if old(calls[t]).Publishing? then Some(old(calls[t]).result) else old(session.terminal)
    {
      hide Valid;
      match calls[t] {
        case InStep => StepCore(t, panicked);
        case InCancel => StepCore(t, panicked);
        case Leaving => Leave(t);
        case Draining(_, _) => Drained(t);
        case Calling(_) => TakeAnswer(t, panicked, answer);
        case Aborting => TakeAbortAnswer(t, panicked, answer);
        case Publishing(_) => Publish(t);
        case Awaiting(_) => Wake(t);
        case Reading => Wake(t);
        case Rejected =>
        case Stepped =>
        case Returned(_) =>
      }
    }

    // A call starts: where its first region leaves it, by kind.
    method Start(t: nat, call: Call)
      requires Valid() && t !in calls
      modifies this, session
      ensures Valid() && Moved(t) && session.terminal == old(session.terminal) && log == old(log) + Entered(t, calls[t])
      ensures match call
              case Transition => calls[t] == if old(session.sealed) then Rejected else InStep
              case Confirm(receipt) =>
                calls[t] == if old(session.sealed || session.confirmed) || !(0 < |receipt| <= MAX_RECEIPT_BYTES) || receipt != session.activeReceipt
                            then Rejected else InStep
              case Complete(abort) =>
                calls[t] == if old(session.terminal).Some? then Returned(old(session.terminal).value)
                            else if old(session.completing) && old(session.settled).Some? then Awaiting(old(session.settled).value)
                            else if old(session.pendingSettled).Some? then Draining(abort, old(session.pendingSettled).value) else Calling(abort)
    {
      StartFacts();
      hide Valid;
      match call {
        case Transition => Begin(t, None);
        case Confirm(receipt) => Begin(t, Some(receipt));
        case Complete(abort) => Enter(t, abort);
      }
    }

    lemma StartFacts()
      requires Valid()
      ensures session.completing ==> session.settled.Some?
      ensures session.pendingCalls > 0 <==> session.pendingSettled.Some?
    {
    }

    // Before the seal nobody has called the core.
    lemma Unsealed()
      requires Valid()
      ensures session.terminal.None? && !session.completing ==> Calls(log) == [] && Outcome(log).None? && !Panics(log)
      ensures session.completing ==> session.settled.Some?
    {
      if session.terminal.None? && !session.completing {
        NoCallNoOutcome(log);
      }
    }

    // What the story needs to know of a call before its step: whom else it concerns.
    lemma Ready(t: nat)
      requires Valid() && t in calls
      ensures calls[t].Draining? ==> Calls(log) == []
      ensures calls[t].Calling? ==> Calls(log) == [CoreCall(calls[t].abort, false)]
      ensures IsCompleter(calls[t]) ==> session.terminal.None? && forall u <- calls :: u != t ==> !IsCompleter(calls[u]) && !calls[u].Returned?
    {
      forall u | u in calls
        ensures Stands(calls[u], completer == Some(u), Calls(log), session.View())
      {
        assert CallOk(u);
      }
    }

    // Every caller of Finish or Abort gets the same snapshot.
    lemma SameSnapshot(t: nat, u: nat)
      requires Valid() && t in calls && u in calls && calls[t].Returned? && calls[u].Returned?
      ensures calls[t].snapshot == calls[u].snapshot
    {
      assert CallOk(t) && CallOk(u);
    }

    // While the core is inside Finish or Abort, no transition is inside it.
    lemma NeverBoth(t: nat, u: nat)
      requires Valid() && t in calls && u in calls && (calls[t].Calling? || calls[t].Aborting?)
      ensures !IsPending(calls[u])
    {
      Completing(t);
      assert u !in Pending();
    }

    lemma PendingAdd(t: nat)
      requires t !in Pending()
      ensures |Pending() + {t}| == |Pending()| + 1 && Pending() - {t} == Pending()
    {
    }

    lemma PendingRemove(t: nat)
      requires t in calls && IsPending(calls[t])
      ensures t in Pending() && |Pending() - {t}| == |Pending()| - 1 && PendingWith(calls, t, Stepped) == Pending() - {t}
    {
    }
  }

  // What one more event does to what was observed.
  lemma Record(log: seq<Event>, e: Event)
    ensures Running(log + [e]) == RunningAfter(Running(log), e) && Calls(log + [e]) == CallsAfter(Calls(log), e)
    ensures HasSeal(log + [e]) == (HasSeal(log) || e.Sealed?)
    ensures Orderly(log + [e]) == (Orderly(log) && Allowed(log, e))
  {
    assert (log + [e])[..|log|] == log;
    assert e in log + [e];
  }

  datatype Move = Start(call: Call) | Go(t: nat, panicked: bool, answer: Answer)

  // Move t of the schedule starts this call.
  predicate Starts(moves: seq<Move>, t: nat, call: Call)
  {
    t < |moves| && moves[t] == Start(call)
  }

  predicate StartsSome(moves: seq<Move>, t: nat)
  {
    t < |moves| && moves[t].Start?
  }

  // A call stands only where a call of its kind can, and holds the outcome that was observed.
  ghost predicate Fits(call: Call, pc: Pc, log: seq<Event>)
  {
    match pc
    case Draining(abort, _) => call == Complete(abort) && Outcome(log).None? && !Panics(log)
    case Calling(abort) => call == Complete(abort) && Outcome(log).None? && !Panics(log)
    case Aborting => call == Complete(false) && Panics(log)
    case Publishing(s) => call.Complete? && Outcome(log) == Some(s)
    case Returned(s) => call.Complete? && Outcome(log) == Some(s)
    case Awaiting(_) => call.Complete?
    case Reading => call.Complete?
    case _ => !call.Complete?
  }

  // Every event comes from the call that was started for it: transitions from transitions, and of
  // confirmations from those of the right receipt; the core is called as the sealing call asked, and
  // once more only to abort after a Finish that panicked; it answered what the schedule made it answer.
  predicate Explained(moves: seq<Move>, receipt: string, before: seq<Event>, e: Event)
  {
    && StartsSome(moves, e.t)
    && var call := moves[e.t].call;
       match e
       case Began(_) => !call.Complete? && (call.Confirm? ==> call.receipt == receipt && 0 < |receipt| <= MAX_RECEIPT_BYTES)
       case Ended(_) => !call.Complete?
       case Sealed(_) => call.Complete?
       case Called(t, abort) =>
         if Calls(before) == [] then call == Complete(abort)
         else abort && call == Complete(false) && before != [] && before[|before| - 1] == Panicked(t)
       case Answered(t, answer) => call.Complete? && exists i :: 0 <= i < |moves| && moves[i] == Go(t, false, answer)
       case Panicked(t) => call.Complete? && exists i :: 0 <= i < |moves| && moves[i].Go? && moves[i].t == t && moves[i].panicked
  }

  ghost predicate Told(moves: seq<Move>, receipt: string, log: seq<Event>)
  {
    forall k :: 0 <= k < |log| ==> Explained(moves, receipt, log[..k], log[k])
  }

  // The calls are those that were started, each where its kind can be.
  ghost predicate Cast(moves: seq<Move>, calls: map<nat, Pc>, log: seq<Event>)
  {
    && (forall t: nat :: t in calls <==> StartsSome(moves, t))
    && (forall t <- calls :: StartsSome(moves, t) && Fits(moves[t].call, calls[t], log))
  }

  lemma ToldNext(moves: seq<Move>, receipt: string, log: seq<Event>, e: Event)
    requires Told(moves, receipt, log) && Explained(moves, receipt, log, e)
    ensures Told(moves, receipt, log + [e])
  {
    var all := log + [e];
    forall k | 0 <= k < |all|
      ensures Explained(moves, receipt, all[..k], all[k])
    {
      assert all[..k] == if k < |log| then log[..k] else log;
      assert k < |log| ==> Explained(moves, receipt, log[..k], log[k]);
    }
  }

  // A longer schedule explains what a shorter one did.
  lemma LongerSchedule(moves: seq<Move>, move: Move, receipt: string, before: seq<Event>, e: Event)
    requires Explained(moves, receipt, before, e)
    ensures Explained(moves + [move], receipt, before, e)
  {
    var all := moves + [move];
    assert all[e.t] == moves[e.t];
    match e {
      case Answered(t, answer) =>
        var i :| 0 <= i < |moves| && moves[i] == Go(t, false, answer);
        assert all[i] == Go(t, false, answer);
      case Panicked(t) =>
        var i :| 0 <= i < |moves| && moves[i].Go? && moves[i].t == t && moves[i].panicked;
        assert all[i] == moves[i];
      case _ =>
    }
  }

  lemma LongerStory(moves: seq<Move>, move: Move, receipt: string, log: seq<Event>)
    requires Told(moves, receipt, log)
    ensures Told(moves + [move], receipt, log)
  {
    forall k | 0 <= k < |log|
      ensures Explained(moves + [move], receipt, log[..k], log[k])
    {
      LongerSchedule(moves, move, receipt, log[..k], log[k]);
    }
  }

  lemma OutcomeKept(log: seq<Event>, more: seq<Event>)
    requires |more| <= 2 && forall e <- more :: !e.Panicked? && !e.Answered?
    ensures Outcome(log + more) == Outcome(log) && Panics(log + more) == Panics(log)
  {
    if |more| == 0 {
      assert log + more == log;
    } else if |more| == 1 {
      assert more == [more[0]];
      OutcomeNext(log, more[0]);
    } else {
      assert log + more == log + [more[0]] + [more[1]];
      OutcomeNext(log, more[0]);
      OutcomeNext(log + [more[0]], more[1]);
    }
  }

  // What was observed when a call stepped is explained by the schedule.
  lemma StepTold(moves: seq<Move>, receipt: string, log: seq<Event>, t: nat, pc: Pc, panicked: bool, answer: Answer)
    requires Told(moves, receipt, log) && StartsSome(moves, t) && Fits(moves[t].call, pc, log)
    requires |moves| > 0 && moves[|moves| - 1] == Go(t, panicked, answer)
    requires pc.Draining? ==> Calls(log) == []
    requires pc.Calling? ==> Calls(log) == [CoreCall(pc.abort, false)]
    ensures Told(moves, receipt, log + Noted(t, pc, panicked, answer))
  {
    var more := Noted(t, pc, panicked, answer);
    if more == [] {
      assert log + more == log;
    } else {
      ToldNext(moves, receipt, log, more[0]);
      if |more| == 2 {
        Record(log, more[0]);
        assert (log + [more[0]])[|log|] == more[0];
        ToldNext(moves, receipt, log + [more[0]], more[1]);
        assert log + more == log + [more[0]] + [more[1]];
      } else {
        assert log + more == log + [more[0]];
      }
    }
  }

  lemma StartTold(moves: seq<Move>, receipt: string, log: seq<Event>, t: nat, pc: Pc)
    requires Told(moves, receipt, log) && StartsSome(moves, t) && Fits(moves[t].call, pc, log)
    requires pc.InStep? && moves[t].call.Confirm? ==> moves[t].call.receipt == receipt && 0 < |receipt| <= MAX_RECEIPT_BYTES
    requires pc.Draining? || pc.Calling? ==> Calls(log) == []
    ensures Told(moves, receipt, log + Entered(t, pc))
  {
    var more := Entered(t, pc);
    if more == [] {
      assert log + more == log;
    } else {
      ToldNext(moves, receipt, log, more[0]);
      if |more| == 2 {
        Record(log, more[0]);
        ToldNext(moves, receipt, log + [more[0]], more[1]);
        assert log + more == log + [more[0]] + [more[1]];
      } else {
        assert log + more == log + [more[0]];
      }
    }
  }

  // Where the step leaves the call, and what it does to the outcome.
  lemma StepFits(call: Call, log: seq<Event>, t: nat, pc: Pc, panicked: bool, answer: Answer, terminal: Option<Snapshot>)
    requires Fits(call, pc, log) && !IsOver(pc) && (pc.Reading? && terminal.Some? ==> Outcome(log) == terminal)
    ensures Fits(call, Next(pc, panicked, answer, terminal), log + Noted(t, pc, panicked, answer))
    ensures !pc.Calling? && !pc.Aborting? ==>
              var after := log + Noted(t, pc, panicked, answer); Outcome(after) == Outcome(log) && Panics(after) == Panics(log)
  {
    var more := Noted(t, pc, panicked, answer);
    if pc.Calling? || pc.Aborting? {
      OutcomeNext(log, more[0]);
      if |more| == 2 {
        OutcomeNext(log + [more[0]], more[1]);
        assert log + more == log + [more[0]] + [more[1]];
      } else {
        assert log + more == log + [more[0]];
      }
    } else {
      OutcomeKept(log, more);
    }
  }

  // A step of one call keeps the story of the others.
  lemma CastNext(moves: seq<Move>, calls: map<nat, Pc>, log: seq<Event>, t: nat, pc: Pc, more: seq<Event>)
    requires Cast(moves, calls, log) && t in calls && Fits(moves[t].call, pc, log + more)
    requires (Outcome(log + more) == Outcome(log) && Panics(log + more) == Panics(log))
             || forall u <- calls :: u != t ==> !IsCompleter(calls[u]) && !calls[u].Returned?
    ensures Cast(moves, calls[t := pc], log + more)
  {
  }

  lemma CastLonger(moves: seq<Move>, move: Move, calls: map<nat, Pc>, log: seq<Event>)
    requires Cast(moves, calls, log) && move.Go?
    ensures Cast(moves + [move], calls, log)
  {
    var all := moves + [move];
    forall t: nat
      ensures StartsSome(all, t) <==> StartsSome(moves, t)
      ensures StartsSome(moves, t) ==> all[t] == moves[t]
    {
    }
  }

  lemma CastStarted(moves: seq<Move>, call: Call, calls: map<nat, Pc>, log: seq<Event>, pc: Pc, more: seq<Event>)
    requires Cast(moves, calls, log) && Fits(call, pc, log + more)
    requires Outcome(log + more) == Outcome(log) && Panics(log + more) == Panics(log)
    ensures Cast(moves + [Start(call)], calls[|moves| := pc], log + more)
  {
    var all, after := moves + [Start(call)], calls[|moves| := pc];
    assert all[|moves|] == Start(call);
    forall t: nat
      ensures StartsSome(all, t) <==> StartsSome(moves, t) || t == |moves|
      ensures StartsSome(moves, t) ==> all[t] == moves[t]
    {
    }
    forall t | t in after
      ensures StartsSome(all, t) && Fits(all[t].call, after[t], log + more)
    {
      assert t != |moves| ==> t in calls && StartsSome(moves, t);
    }
  }

  // The whole history of a host under a schedule.
  ghost predicate Story(moves: seq<Move>, h: Host)
    reads h, h.session
  {
    && Cast(moves, h.calls, h.log) && Told(moves, h.session.activeReceipt, h.log)
    && (h.session.terminal.Some? ==> Outcome(h.log) == h.session.terminal)
  }

  method DoStart(h: Host, ghost moves: seq<Move>, t: nat, call: Call)
    requires h.Valid() && Story(moves, h) && t == |moves|
    modifies h, h.session
    ensures h.Valid() && Story(moves + [Start(call)], h)
  {
    hide Cast, Told, Host.Valid, Orderly, Running, HasSeal;
    assert t !in h.calls by {
      NotYet(moves, h.calls, h.log);
    }
    ghost var calls, log, all := h.calls, h.log, moves + [Start(call)];
    h.Unsealed();
    h.Start(t, call);
    ghost var more := Entered(t, h.calls[t]);
    OutcomeKept(log, more);
    CastStarted(moves, call, calls, log, h.calls[t], more);
    LongerStory(moves, Start(call), h.session.activeReceipt, log);
    assert all[t] == Start(call);
    StartTold(all, h.session.activeReceipt, log, t, h.calls[t]);
  }

  lemma NotYet(moves: seq<Move>, calls: map<nat, Pc>, log: seq<Event>)
    requires Cast(moves, calls, log)
    ensures |moves| !in calls
  {
  }

  method DoGo(h: Host, ghost moves: seq<Move>, t: nat, panicked: bool, answer: Answer)
    requires h.Valid() && Story(moves, h) && h.Enabled(t)
    modifies h, h.session
    ensures h.Valid() && Story(moves + [Go(t, panicked, answer)], h)
  {
    hide Told, Host.Valid, Orderly, Running, HasSeal, Fits;
    ghost var calls, log, all, receipt := h.calls, h.log, moves + [Go(t, panicked, answer)], h.session.activeReceipt;
    ghost var pc, terminal := h.calls[t], h.session.terminal;
    h.Ready(t);
    CastLonger(moves, Go(t, panicked, answer), calls, log);
    LongerStory(moves, Go(t, panicked, answer), receipt, log);
    h.Go(t, panicked, answer);
    StepTold(all, receipt, log, t, pc, panicked, answer);
    StepFits(all[t].call, log, t, pc, panicked, answer, h.session.terminal);
    CastNext(all, calls, log, t, h.calls[t], Noted(t, pc, panicked, answer));
    OutcomeOfNext(all[t].call, pc, log);
  }

  lemma OutcomeOfNext(call: Call, pc: Pc, log: seq<Event>)
    requires Fits(call, pc, log)
    ensures pc.Publishing? ==> Outcome(log) == Some(pc.result)
  {
  }

  // A move that is blocked, or of a call that is over, adds to the schedule and to nothing else.
  lemma Idle(moves: seq<Move>, move: Move, h: Host)
    requires Story(moves, h) && move.Go?
    ensures Story(moves + [move], h)
  {
    CastLonger(moves, move, h.calls, h.log);
    LongerStory(moves, move, h.session.activeReceipt, h.log);
  }

  // Every schedule: the calls are those that were started; what was observed is orderly, and every event
  // of it comes from the call that asked for it; and whoever was answered got the one outcome, which is
  // the core's answer, or a failure as soon as it panicked. A move that is blocked, or of a call that is
  // over, does nothing.
  method Run(receipt: string, moves: seq<Move>) returns (h: Host)
    ensures fresh(h) && h.Valid() && Orderly(h.log) && h.session.activeReceipt == receipt
    ensures forall t: nat :: t in h.calls <==> t < |moves| && moves[t].Start?
    ensures forall t <- h.calls :: Fits(moves[t].call, h.calls[t], h.log)
    ensures forall k :: 0 <= k < |h.log| ==> Explained(moves, receipt, h.log[..k], h.log[k])
    ensures h.session.terminal.Some? ==> Outcome(h.log) == h.session.terminal
    ensures forall t <- h.calls, u <- h.calls :: h.calls[t].Returned? && h.calls[u].Returned? ==> h.calls[t] == h.calls[u]
  {
    h := new Host(receipt);
    assert moves[..0] == [];
    hide Told, Cast;
    NothingYet(h, receipt);
    for i := 0 to |moves|
      invariant fresh(h) && fresh(h.session) && h.Valid() && h.session.activeReceipt == receipt && Story(moves[..i], h)
    {
      assert moves[..i + 1] == moves[..i] + [moves[i]];
      match moves[i] {
        case Start(call) => DoStart(h, moves[..i], i, call);
        case Go(t, panicked, answer) =>
          if h.Enabled(t) {
            DoGo(h, moves[..i], t, panicked, answer);
          } else {
            Idle(moves[..i], moves[i], h);
          }
      }
    }
    assert moves[..|moves|] == moves;
    forall t, u | t in h.calls && u in h.calls && h.calls[t].Returned? && h.calls[u].Returned?
      ensures h.calls[t] == h.calls[u]
    {
      h.SameSnapshot(t, u);
    }
    StoryFacts(moves, h);
  }

  lemma NothingYet(h: Host, receipt: string)
    requires h.calls == map[] && h.log == [] && h.session.terminal.None?
    ensures Story([], h)
  {
  }

  lemma StoryFacts(moves: seq<Move>, h: Host)
    requires Story(moves, h)
    ensures forall t: nat :: t in h.calls <==> t < |moves| && moves[t].Start?
    ensures forall t <- h.calls :: Fits(moves[t].call, h.calls[t], h.log)
    ensures forall k :: 0 <= k < |h.log| ==> Explained(moves, h.session.activeReceipt, h.log[..k], h.log[k])
  {
    forall t: nat
      ensures t in h.calls <==> t < |moves| && moves[t].Start?
    {
      assert t in h.calls <==> StartsSome(moves, t);
    }
  }
}
