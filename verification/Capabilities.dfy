/** One operation's one-shot capabilities (progress.go): an archive, a retained output and consents,
    shared by any number of copies and calls. Every region that holds a lock is one step. */
module Capabilities {
  import opened Common

  // What the buffered channel of a consent carries: a role and whether to go on with it.
  datatype Decision = Decision(role: nat, invoke: bool)

  datatype Consent = Consent(live: bool, decision: Option<Decision>)

  // Where one call stands between regions.
  datatype Pc =
    | ArchiveTaken                                 // consume took the action; not yet marked in flight
    | ArchiveInUse                                 // the action runs
    | OutputInUse                                  // the action runs
    | OutputSettling(kept: bool)                   // about to give the capability back, or not
    | Deciding(c: nat, d: Decision, cancel: bool)  // the consent is claimed; the registry still lists it
    | Sending(c: nat, d: Decision, cancel: bool)   // about to send
    | Waiting(c: nat)                              // the core waits for a decision
    | Detaching(c: nat, d: Decision)               // the decision arrived
    | Refusing(found: Option<nat>)                 // Cancel, about to refuse what it found
    | Cancelled                                    // Cancel returned
    | Answered(d: Decision)                        // the core got its decision
    | Over

  predicate HoldsArchive(pc: Pc) { pc.ArchiveTaken? || pc.ArchiveInUse? }

  predicate HoldsOutput(pc: Pc) { pc.OutputInUse? || pc.OutputSettling? }

  predicate Claims(pc: Pc, c: nat) { (pc.Deciding? || pc.Sending?) && pc.c == c }

  predicate TouchesConsent(pc: Pc) { pc.Deciding? || pc.Sending? || pc.Waiting? || pc.Detaching? || pc.Refusing? }

  // The registry's record of each capability, the shared state behind it, and who holds it.
  datatype ArchiveView = ArchiveView(listed: bool, inFlight: bool, live: bool, holder: Option<nat>)
  datatype OutputView = OutputView(listed: bool, inFlight: bool, live: bool, holder: Option<nat>)
  datatype ConsentView = ConsentView(listed: Option<nat>, cancelRequested: bool, states: map<nat, Consent>,
                                     canceller: Option<nat>, claimers: map<nat, nat>)

  // The archive action is in the capability, with one call, or gone; it is listed until it is
  // marked in flight, and in flight until its result is in.
  ghost predicate ArchiveOk(v: ArchiveView, calls: map<nat, Pc>)
  {
    && (v.live ==> v.listed && v.holder.None?)
    && (v.listed ==> v.live || v.holder.Some?)
    && (v.inFlight ==> v.holder.Some? && !v.listed)
    && (v.holder.Some? ==> v.holder.value in calls && HoldsArchive(calls[v.holder.value]) && (v.listed || v.inFlight))
  }

  // The output action is listed, in flight, or gone.
  ghost predicate OutputOk(v: OutputView, calls: map<nat, Pc>)
  {
    && !(v.listed && v.inFlight)
    && (v.listed ==> v.live) && (v.live ==> v.listed || v.inFlight)
    && (v.inFlight <==> v.holder.Some?)
    && (v.holder.Some? ==> v.holder.value in calls && HoldsOutput(calls[v.holder.value]))
  }

  // A consent is live and listed, or claimed by one call, or decided. Once cancellation is
  // requested, a live consent is one that the first Cancel is about to refuse.
  ghost predicate ConsentOk(c: nat, v: ConsentView, calls: map<nat, Pc>)
    requires c in v.states
  {
    var s := v.states[c];
    && (s.live ==> v.listed == Some(c) && s.decision.None? && c !in v.claimers)
    && (s.decision.Some? ==> c !in v.claimers)
    && (!s.live && s.decision.None? ==> c in v.claimers)
    && (c in v.claimers ==> v.claimers[c] in calls && Claims(calls[v.claimers[c]], c))
    && (s.live && v.cancelRequested ==> v.canceller.Some? && v.canceller.value in calls && calls[v.canceller.value] == Refusing(Some(c)))
  }

  ghost predicate ConsentsOk(v: ConsentView, calls: map<nat, Pc>)
  {
    && (forall c <- v.states :: c in calls && ConsentOk(c, v, calls))
    && (forall c <- v.claimers :: c in v.states)
    && (v.listed.Some? ==> v.listed.value in v.states && v.states[v.listed.value].decision.None?)
    && (v.canceller.Some? ==> v.cancelRequested && v.canceller.value in calls)
  }

  // What call t may rely on.
  ghost predicate ArchiveStands(t: nat, pc: Pc, v: ArchiveView)
  {
    && (pc.ArchiveTaken? ==> v.holder == Some(t) && v.listed && !v.inFlight)
    && (pc.ArchiveInUse? ==> v.holder == Some(t) && !v.listed && v.inFlight)
  }

  ghost predicate OutputStands(t: nat, pc: Pc, v: OutputView)
  {
    && (pc.OutputInUse? ==> v.holder == Some(t) && !v.live)
    && (pc.OutputSettling? ==> v.holder == Some(t) && v.live == pc.kept)
  }

  ghost predicate ConsentStands(t: nat, pc: Pc, v: ConsentView)
  {
    match pc
    case Deciding(c, _, _) => c in v.claimers && v.claimers[c] == t
    case Sending(c, _, _) => c in v.claimers && v.claimers[c] == t && v.listed != Some(c)
    case Waiting(c) => c in v.states
    case Detaching(c, d) => c in v.states && v.states[c].decision == Some(d)
    case Refusing(found) => v.canceller == Some(t) && (found.Some? ==> found.value in v.states)
    case _ => true
  }

  // A call is cancelling, or has cancelled, only an operation whose cancellation was requested or that
  // had ended.
  predicate Cancels(pc: Pc)
  {
    pc.Cancelled? || pc.Refusing? || ((pc.Deciding? || pc.Sending?) && pc.cancel)
  }

  // The decisions sent are those of the decided consents, one each.
  ghost predicate SentOnce(sent: seq<nat>, states: map<nat, Consent>)
  {
    && (forall c :: c in sent <==> c in states && states[c].decision.Some?)
    && (forall i, j :: 0 <= i < j < |sent| ==> sent[i] != sent[j])
  }

  lemma SentStep(sent: seq<nat>, states: map<nat, Consent>, c: nat, s: Consent)
    requires SentOnce(sent, states) && (c in states ==> states[c].decision.None?)
    ensures s.decision.None? ==> SentOnce(sent, states[c := s])
    ensures s.decision.Some? ==> SentOnce(sent + [c], states[c := s])
  {
    assert c !in sent;
  }

  // A call that holds none of a kind may move without touching it.
  lemma Elsewhere(t: nat, pc: Pc, calls: map<nat, Pc>, a: ArchiveView, o: OutputView, k: ConsentView)
    requires ArchiveOk(a, calls) && OutputOk(o, calls) && ConsentsOk(k, calls)
    ensures t !in calls || !HoldsArchive(calls[t]) ==> ArchiveOk(a, calls[t := pc])
    ensures t !in calls || !HoldsOutput(calls[t]) ==> OutputOk(o, calls[t := pc])
    ensures t !in calls || !(calls[t].Deciding? || calls[t].Sending? || calls[t].Refusing?) ==> ConsentsOk(k, calls[t := pc])
    ensures !HoldsArchive(pc) ==> ArchiveStands(t, pc, a)
    ensures !HoldsOutput(pc) ==> OutputStands(t, pc, o)
    ensures !TouchesConsent(pc) ==> ConsentStands(t, pc, k)
  {
    var after := calls[t := pc];
    if t !in calls || !(calls[t].Deciding? || calls[t].Sending? || calls[t].Refusing?) {
      forall c | c in k.states
        ensures ConsentOk(c, k, after)
      {
        assert ConsentOk(c, k, calls);
      }
    }
  }

  // No call but t is choosing, refusing or cancelling.
  ghost predicate RestBut(calls: map<nat, Pc>, t: nat)
  {
    forall u <- calls :: u != t ==> !calls[u].Deciding? && !calls[u].Sending? && !calls[u].Refusing?
  }

  lemma RestStep(calls: map<nat, Pc>, t: nat, pc: Pc)
    requires RestBut(calls, t)
    ensures RestBut(calls[t := pc], t)
  {
  }

  function Asked(k: ConsentView, t: nat): ConsentView
  {
    k.(listed := Some(t), states := k.states[t := Consent(true, None)])
  }

  // A new consent, when none is listed and none is to be refused.
  lemma AskKeeps(k: ConsentView, calls: map<nat, Pc>, t: nat)
    requires ConsentsOk(k, calls) && t !in calls && k.listed.None? && !k.cancelRequested
    requires forall u <- calls :: ConsentStands(u, calls[u], k)
    ensures ConsentsOk(Asked(k, t), calls[t := Waiting(t)]) && ConsentStands(t, Waiting(t), Asked(k, t))
    ensures forall u <- calls :: ConsentStands(u, calls[u], Asked(k, t))
  {
    forall c | c in Asked(k, t).states
      ensures ConsentOk(c, Asked(k, t), calls[t := Waiting(t)])
    {
      assert c != t ==> ConsentOk(c, k, calls);
    }
    forall u | u in calls
      ensures ConsentStands(u, calls[u], Asked(k, t))
    {
      assert ConsentStands(u, calls[u], k);
    }
  }

  function Claimed(k: ConsentView, c: nat, t: nat): ConsentView
  {
    k.(states := k.states[c := Consent(false, None)], claimers := k.claimers[c := t])
  }

  // Claiming a live consent leaves everything else about consents in order.
  lemma ClaimKeeps(k: ConsentView, calls: map<nat, Pc>, c: nat, t: nat, pc: Pc)
    requires ConsentsOk(k, calls) && c in k.states && k.states[c].live && Claims(pc, c) && pc.Deciding?
    requires t in calls ==> calls[t] == Refusing(Some(c))
    requires forall u <- calls :: ConsentStands(u, calls[u], k)
    ensures ConsentsOk(Claimed(k, c, t), calls[t := pc]) && ConsentStands(t, pc, Claimed(k, c, t))
    ensures forall u <- calls :: u != t ==> ConsentStands(u, calls[u], Claimed(k, c, t))
  {
    var after := calls[t := pc];
    assert ConsentOk(c, k, calls);
    forall d | d in k.states
      ensures ConsentOk(d, Claimed(k, c, t), after)
    {
      assert ConsentOk(d, k, calls);
    }
  }

  function Unlisted(k: ConsentView, c: nat): ConsentView
  {
    if k.listed == Some(c) then k.(listed := None) else k
  }

  // Taking a claimed or decided consent off the list.
  lemma UnlistKeeps(k: ConsentView, calls: map<nat, Pc>, c: nat, t: nat, pc: Pc)
    requires ConsentsOk(k, calls) && c in k.states && !k.states[c].live && t in calls
    requires forall u <- calls :: ConsentStands(u, calls[u], k)
    requires if pc.Sending? then calls[t] == Deciding(c, pc.d, pc.cancel) && pc.c == c
             else !TouchesConsent(pc) && !(calls[t].Deciding? || calls[t].Sending? || calls[t].Refusing?)
    ensures ConsentsOk(Unlisted(k, c), calls[t := pc]) && ConsentStands(t, pc, Unlisted(k, c))
    ensures forall u <- calls :: u != t ==> ConsentStands(u, calls[u], Unlisted(k, c))
  {
    forall d | d in k.states
      ensures ConsentOk(d, Unlisted(k, c), calls[t := pc])
    {
      assert ConsentOk(d, k, calls);
    }
  }

  function Decided(k: ConsentView, c: nat, d: Decision): ConsentView
  {
    k.(states := k.states[c := Consent(false, Some(d))], claimers := k.claimers - {c})
  }

  lemma SendKeeps(k: ConsentView, calls: map<nat, Pc>, t: nat, pc: Pc)
    requires ConsentsOk(k, calls) && t in calls && calls[t].Sending? && !TouchesConsent(pc)
    requires forall u <- calls :: ConsentStands(u, calls[u], k)
    ensures ConsentsOk(Decided(k, calls[t].c, calls[t].d), calls[t := pc]) && ConsentStands(t, pc, Decided(k, calls[t].c, calls[t].d))
    ensures forall u <- calls :: u != t ==> ConsentStands(u, calls[u], Decided(k, calls[t].c, calls[t].d))
    ensures calls[t].c in k.states && !k.states[calls[t].c].live && k.states[calls[t].c].decision.None?
  {
    var c, d := calls[t].c, calls[t].d;
    SendFacts(k, calls, t);
    hide ConsentStands;
    forall e | e in k.states
      ensures ConsentOk(e, Decided(k, c, d), calls[t := pc])
    {
      assert ConsentOk(e, k, calls);
    }
    forall u | u in calls && u != t
      ensures ConsentStands(u, calls[u], Decided(k, c, d))
    {
      SendStands(k, u, calls[u], c, d, t);
    }
    NoTouch(t, pc, Decided(k, c, d));
  }

  lemma NoTouch(t: nat, pc: Pc, k: ConsentView)
    requires !TouchesConsent(pc)
    ensures ConsentStands(t, pc, k)
  {
  }

  lemma SendFacts(k: ConsentView, calls: map<nat, Pc>, t: nat)
    requires ConsentsOk(k, calls) && t in calls && calls[t].Sending? && ConsentStands(t, calls[t], k)
    ensures var c := calls[t].c;
            c in k.states && !k.states[c].live && k.states[c].decision.None? && c in k.claimers && k.claimers[c] == t && k.listed != Some(c)
  {
    assert ConsentOk(calls[t].c, k, calls);
  }

  // Whoever else stands somewhere does not claim the consent being decided.
  lemma SendStands(k: ConsentView, u: nat, pc: Pc, c: nat, d: Decision, t: nat)
    requires ConsentStands(u, pc, k) && c in k.states && k.states[c].decision.None? && c in k.claimers && k.claimers[c] == t != u
    ensures ConsentStands(u, pc, Decided(k, c, d))
  {
  }

  class Operation {
    // pcv3State, under the registry lock.
    var registered: bool
    var terminal: bool
    var cancelRequested: bool
    var consent: Option<nat>
    var archive: bool
    var archiveInFlight: bool
    var output: bool
    var outputInFlight: bool
    // The shared states of the capabilities, under their own locks.
    var archiveLive: bool
    var outputLive: bool
    var consents: map<nat, Consent>
    // The calls under way.
    var calls: map<nat, Pc>
    // How often the archive action was handed to a consumer, and the decisions sent, in order.
    var archiveUses: nat
    var sent: seq<nat>

    ghost var archiveHolder: Option<nat>
    ghost var outputHolder: Option<nat>
    ghost var canceller: Option<nat>
    ghost var claimers: map<nat, nat>

    constructor ()
      ensures Valid() && registered && !terminal && !cancelRequested && consent.None? && calls == map[] && consents == map[]
    {
      registered, terminal, cancelRequested, consent := true, false, false, None;
      archive, archiveInFlight, output, outputInFlight := false, false, false, false;
      archiveLive, outputLive, consents, calls, archiveUses, sent := false, false, map[], map[], 0, [];
      archiveHolder, outputHolder, canceller, claimers := None, None, None, map[];
    }

    ghost function Archive(): ArchiveView
      reads this`archive, this`archiveInFlight, this`archiveLive, this`archiveHolder
    {
      ArchiveView(archive, archiveInFlight, archiveLive, archiveHolder)
    }

    ghost function Output(): OutputView
      reads this`output, this`outputInFlight, this`outputLive, this`outputHolder
    {
      OutputView(output, outputInFlight, outputLive, outputHolder)
    }

    ghost function Consents(): ConsentView
      reads this`consent, this`cancelRequested, this`consents, this`canceller, this`claimers
    {
      ConsentView(consent, cancelRequested, consents, canceller, claimers)
    }

    ghost predicate Stands(t: nat, pc: Pc)
      reads this
    {
      ArchiveStands(t, pc, Archive()) && OutputStands(t, pc, Output()) && ConsentStands(t, pc, Consents())
      && (Cancels(pc) ==> cancelRequested || terminal)
    }

    // Whatever is listed or in flight belongs to a registered operation.
    ghost predicate RegistryOk()
      reads this`registered, this`terminal, this`archive, this`archiveInFlight, this`output, this`outputInFlight, this`consent
    {
      && (archive || archiveInFlight || output || outputInFlight ==> registered && terminal)
      && (consent.Some? ==> registered) && (!registered ==> terminal)
    }

    // An archive action has one consumer at most, and a consent one decision.
    ghost predicate Counted()
      reads this`archiveUses, this`terminal, this`archiveLive, this`sent, this`consents
    {
      archiveUses <= 1 && (!terminal || archiveLive ==> archiveUses == 0) && SentOnce(sent, consents)
    }

    ghost predicate Valid()
      reads this
    {
      && ArchiveOk(Archive(), calls) && OutputOk(Output(), calls) && ConsentsOk(Consents(), calls)
      && RegistryOk() && Counted() && forall t <- calls :: Stands(t, calls[t])
    }

    ghost predicate NoneLive()
      reads this
    {
      forall c <- consents :: !consents[c].live
    }

    ghost predicate AllDecided()
      reads this
    {
      forall c <- consents :: consents[c].decision.Some?
    }

    // No choice, refusal or cancellation is under way.
    ghost predicate AtRest()
      reads this
    {
      forall u <- calls :: !calls[u].Deciding? && !calls[u].Sending? && !calls[u].Refusing?
    }

    // Some call has claimed the consent and not yet sent its decision.
    ghost predicate OnItsWay(c: nat)
      reads this
    {
      exists u <- calls :: Claims(calls[u], c)
    }

    // What a region about consents leaves alone.
    twostate predicate SameRegistry()
      reads this
    {
      registered == old(registered) && terminal == old(terminal) && cancelRequested == old(cancelRequested) && canceller == old(canceller)
    }

    twostate predicate ArchiveSame()
      reads this
    {
      archive == old(archive) && archiveInFlight == old(archiveInFlight) && archiveLive == old(archiveLive) && archiveUses == old(archiveUses)
    }

    twostate predicate OutputSame()
      reads this
    {
      output == old(output) && outputInFlight == old(outputInFlight) && outputLive == old(outputLive)
    }

    twostate predicate ConsentsSame()
      reads this
    {
      consents == old(consents) && consent == old(consent) && sent == old(sent)
    }

    // What no step takes back.
    twostate predicate Onward()
      reads this
    {
      && (old(terminal) ==> terminal) && (old(cancelRequested) ==> cancelRequested)
      && (old(canceller).Some? ==> canceller == old(canceller))
      && (old(cancelRequested && NoneLive()) ==> NoneLive())
      && (forall c <- old(consents) :: c in consents && (old(consents)[c].decision.Some? ==> consents[c] == old(consents)[c]))
    }

    // One consent at most changes, and not one that was decided or dead.
    twostate lemma OneConsent(c: nat)
      requires terminal == old(terminal) && cancelRequested == old(cancelRequested) && canceller == old(canceller)
      requires consents == old(consents) || (c in consents && !consents[c].live && consents == old(consents)[c := consents[c]])
      requires consents != old(consents) ==> c in old(consents) && old(consents)[c].decision.None?
      ensures Onward()
    {
    }

    lemma Kept()
      requires Valid()
      ensures forall u <- calls :: ArchiveStands(u, calls[u], Archive()) && OutputStands(u, calls[u], Output()) && ConsentStands(u, calls[u], Consents())
      ensures forall u <- calls :: Cancels(calls[u]) ==> cancelRequested || terminal
      ensures ArchiveOk(Archive(), calls) && OutputOk(Output(), calls) && ConsentsOk(Consents(), calls)
      ensures RegistryOk() && Counted()
    {
      forall u | u in calls
        ensures ArchiveStands(u, calls[u], Archive()) && OutputStands(u, calls[u], Output()) && ConsentStands(u, calls[u], Consents())
        ensures Cancels(calls[u]) ==> cancelRequested || terminal
      {
        assert Stands(u, calls[u]);
      }
    }

    // Places call t; the rest of the state has already changed.
    method Place(t: nat, pc: Pc)
      requires ArchiveOk(Archive(), calls[t := pc]) && OutputOk(Output(), calls[t := pc]) && ConsentsOk(Consents(), calls[t := pc])
      requires RegistryOk() && Counted() && Stands(t, pc) && forall u <- calls :: u != t ==> Stands(u, calls[u])
      modifies this`calls
      ensures Valid() && calls == old(calls)[t := pc]
    {
      hide ArchiveOk, OutputOk, ConsentsOk, ArchiveStands, OutputStands, ConsentStands;
      calls := calls[t := pc];
    }

    // ----- completion -----

    // completePCV3Presentation...: registers at most one archive capability, or an output; refused
    // once terminal, when the caller disposes of the action itself.
    method Finish(t: nat, withArchive: bool, withOutput: bool) returns (accepted: bool)
      requires Valid() && t !in calls && !(withArchive && withOutput)
      modifies this
      ensures Valid() && accepted == old(registered && !terminal) && calls == old(calls)[t := Over]
      ensures accepted ==> terminal && archive == archiveLive == withArchive && output == outputLive == withOutput
      ensures registered == old(registered) && consent == old(consent) && cancelRequested == old(cancelRequested)
      ensures archiveUses == old(archiveUses) && sent == old(sent) && consents == old(consents) && Onward()
      ensures outputInFlight == old(outputInFlight) && (!accepted ==> ArchiveSame() && OutputSame())
    {
      hide ConsentsOk, ConsentStands, ArchiveOk, ArchiveStands, OutputOk, OutputStands;
      Kept();
      accepted := registered && !terminal;
      if accepted {
        Register(withArchive, withOutput);
      }
      Elsewhere(t, Over, calls, Archive(), Output(), Consents());
      Place(t, Over);
    }

    method Register(withArchive: bool, withOutput: bool)
      requires Valid() && registered && !terminal && !(withArchive && withOutput)
      modifies this`terminal, this`archive, this`archiveLive, this`output, this`outputLive
      ensures terminal && archive == archiveLive == withArchive && output == outputLive == withOutput
      ensures ArchiveOk(Archive(), calls) && OutputOk(Output(), calls) && RegistryOk() && Counted()
      ensures forall u <- calls :: ArchiveStands(u, calls[u], Archive()) && OutputStands(u, calls[u], Output())
    {
      hide ConsentsOk, ConsentStands;
      Kept();
      terminal := true;
      archive, archiveLive := withArchive, withArchive;
      output, outputLive := withOutput, withOutput;
    }

    // ----- the archive -----

    // PCV3Archive.consume, under the capability's own lock.
    method TakeArchive(t: nat)
      requires Valid() && t !in calls
      modifies this
      ensures Valid() && calls == old(calls)[t := if old(archiveLive) then ArchiveTaken else Over]
      ensures !archiveLive && archiveUses == old(archiveUses) + (if old(archiveLive) then 1 else 0) && Onward()
      ensures ConsentsSame() && OutputSame() && archive == old(archive)
    {
      hide ConsentsOk, ConsentStands, OutputOk, OutputStands;
      Elsewhere(t, if archiveLive then ArchiveTaken else Over, calls, Archive(), Output(), Consents());
      Kept();
      if !archiveLive {
        Place(t, Over);
        return;
      }
      archiveLive, archiveUses, archiveHolder := false, archiveUses + 1, Some(t);
      Place(t, ArchiveTaken);
    }

    // markPCV3ArchiveInFlight
    method MarkArchive(t: nat)
      requires Valid() && t in calls && calls[t].ArchiveTaken?
      modifies this
      ensures Valid() && Onward() && calls == old(calls)[t := ArchiveInUse] && !archive && archiveInFlight
      ensures ConsentsSame() && OutputSame() && archiveLive == old(archiveLive) && archiveUses == old(archiveUses)
    {
      hide ConsentsOk, ConsentStands, OutputOk, OutputStands;
      Elsewhere(t, ArchiveInUse, calls, Archive(), Output(), Consents());
      Kept();
      if registered && archive {
        archive, archiveInFlight := false, true;
      }
      Place(t, ArchiveInUse);
    }

    // replacePCV3ArchivePresentation: the result of the action is in.
    method ReplaceArchive(t: nat)
      requires Valid() && t in calls && calls[t].ArchiveInUse?
      modifies this
      ensures Valid() && Onward() && calls == old(calls)[t := Over] && !archiveInFlight
      ensures ConsentsSame() && OutputSame() && archiveLive == old(archiveLive) && archiveUses == old(archiveUses)
    {
      hide ConsentsOk, ConsentStands, OutputOk, OutputStands;
      Elsewhere(t, Over, calls, Archive(), Output(), Consents());
      Kept();
      if registered && !archive && archiveInFlight {
        terminal, archiveInFlight, archiveHolder := true, false, None;
      }
      Place(t, Over);
    }

    // ----- the output -----

    // PCV3Output.consume, under the registry lock and the capability's own.
    method TakeOutput(t: nat)
      requires Valid() && t !in calls
      modifies this
      ensures Valid() && Onward() && calls == old(calls)[t := if old(output) then OutputInUse else Over]
      ensures !output && (old(output) ==> outputInFlight && !outputLive)
      ensures ConsentsSame() && ArchiveSame() && (outputInFlight ==> old(outputInFlight || output)) && (outputLive ==> old(outputLive))
    {
      hide ConsentsOk, ConsentStands, ArchiveOk, ArchiveStands;
      Elsewhere(t, if output then OutputInUse else Over, calls, Archive(), Output(), Consents());
      Kept();
      if !registered || !output || !outputLive {
        Place(t, Over);
        return;
      }
      outputLive, output, outputInFlight, outputHolder := false, false, true, Some(t);
      Place(t, OutputInUse);
    }

    // The action has run; a save may put the action back into the capability.
    method UseOutput(t: nat, keep: bool)
      requires Valid() && t in calls && calls[t].OutputInUse?
      modifies this
      ensures Valid() && Onward() && calls == old(calls)[t := OutputSettling(keep)] && outputLive == keep && !output
      ensures ConsentsSame() && ArchiveSame() && outputInFlight == old(outputInFlight)
    {
      hide ConsentsOk, ConsentStands, ArchiveOk, ArchiveStands;
      Elsewhere(t, OutputSettling(keep), calls, Archive(), Output(), Consents());
      Kept();
      if keep {
        outputLive := true;
      }
      Place(t, OutputSettling(keep));
    }

    // settlePCV3Output: registered again exactly when it was kept.
    method SettleOutput(t: nat)
      requires Valid() && t in calls && calls[t].OutputSettling?
      modifies this
      ensures Valid() && Onward() && calls == old(calls)[t := Over] && !outputInFlight && output == outputLive == old(calls[t].kept)
      ensures ConsentsSame() && ArchiveSame() && outputLive == old(outputLive)
    {
      hide ConsentsOk, ConsentStands, ArchiveOk, ArchiveStands;
      Elsewhere(t, Over, calls, Archive(), Output(), Consents());
      Kept();
      if registered && !output && outputInFlight {
        outputInFlight, outputHolder := false, None;
        if outputLive {
          output := true;
        }
      }
      Place(t, Over);
    }

    // ----- release -----

    // Release succeeds only when nothing is held, listed or waiting.
    method Release(t: nat) returns (released: bool)
      requires Valid() && t !in calls
      modifies this
      ensures Valid() && Onward() && calls == old(calls)[t := Over] && (released ==> !registered)
      ensures released <==> old(registered && terminal && consent.None? && !archive && !archiveInFlight && !output && !outputInFlight)
      ensures released ==> !archiveLive && !outputLive && NoneLive() && forall u <- calls :: !HoldsArchive(calls[u]) && !HoldsOutput(calls[u])
      ensures ConsentsSame() && ArchiveSame() && OutputSame()
    {
      hide ArchiveOk, OutputOk, ConsentsOk, RegistryOk, Counted, Stands, Valid;
      released := Unregister(t);
      Place(t, Over);
    }

    method Unregister(t: nat) returns (released: bool)
      requires Valid() && t !in calls
      modifies this`registered
      ensures released <==> old(registered && terminal && consent.None? && !archive && !archiveInFlight && !output && !outputInFlight)
      ensures released ==> !registered && !archiveLive && !outputLive && NoneLive() && forall u <- calls :: !HoldsArchive(calls[u]) && !HoldsOutput(calls[u])
      ensures ArchiveOk(Archive(), calls[t := Over]) && OutputOk(Output(), calls[t := Over]) && ConsentsOk(Consents(), calls[t := Over])
      ensures RegistryOk() && Counted() && Stands(t, Over) && forall u <- calls :: u != t ==> Stands(u, calls[u])
    {
      hide ConsentStands, SentOnce;
      Elsewhere(t, Over, calls, Archive(), Output(), Consents());
      Kept();
      released := registered && terminal && consent.None? && !archive && !archiveInFlight && !output && !outputInFlight;
      if released {
        registered := false;
        forall c | c in consents
          ensures !consents[c].live
        {
          assert ConsentOk(c, Consents(), calls);
        }
      }
    }

    // ----- consents -----

    // pcv3ConsentCallback, up to the wait: at most one consent at a time, none once cancelled.
    method Ask(t: nat)
      requires Valid() && t !in calls
      modifies this
      ensures Valid() && Onward()
      ensures registered == old(registered) && terminal == old(terminal) && cancelRequested == old(cancelRequested)
      ensures var asked := old(registered && !terminal && consent.None? && !cancelRequested);
              && calls == old(calls)[t := if asked then Waiting(t) else Over]
              && (asked ==> consent == Some(t) && consents == old(consents)[t := Consent(true, None)])
              && (!asked ==> consent == old(consent) && consents == old(consents))
      ensures ArchiveSame() && OutputSame() && sent == old(sent)
    {
      hide ArchiveOk, ArchiveStands, OutputOk, OutputStands, ConsentsOk, ConsentStands, SentOnce;
      Kept();
      if !registered || terminal || consent.Some? || cancelRequested {
        Elsewhere(t, Over, calls, Archive(), Output(), Consents());
        Place(t, Over);
        return;
      }
      Elsewhere(t, Waiting(t), calls, Archive(), Output(), Consents());
      NoSuchConsent(t);
      SentStep(sent, consents, t, Consent(true, None));
      AskKeeps(Consents(), calls, t);
      consents, consent := consents[t := Consent(true, None)], Some(t);
      Place(t, Waiting(t));
    }

    lemma NoSuchConsent(t: nat)
      requires Valid() && t !in calls
      ensures t !in consents && t !in claimers
    {
    }

    // choose and refuse, first region: only one call ever finds the consent live.
    method Claim(t: nat, c: nat, d: Decision)
      requires Valid() && t !in calls && c in consents
      modifies this
      ensures Valid() && Onward() && SameRegistry() && consent == old(consent) && sent == old(sent)
      ensures calls == old(calls)[t := if old(consents[c].live) then Deciding(c, d, false) else Over]
      ensures consents == if old(consents[c].live) then old(consents)[c := Consent(false, None)] else old(consents)
      ensures ArchiveSame() && OutputSame()
    {
      hide ArchiveOk, ArchiveStands, OutputOk, OutputStands, ConsentsOk, ConsentStands, SentOnce, Onward, Valid;
      if !consents[c].live {
        Miss(t);
        return;
      }
      ClaimFor(t, c, Deciding(c, d, false));
    }

    // A call that finds nothing is over at once.
    method Miss(t: nat)
      requires Valid() && t !in calls
      modifies this`calls
      ensures Valid() && Onward() && calls == old(calls)[t := Over]
    {
      hide ArchiveOk, ArchiveStands, OutputOk, OutputStands, ConsentsOk, ConsentStands, SentOnce, Valid;
      Kept();
      Elsewhere(t, Over, calls, Archive(), Output(), Consents());
      Place(t, Over);
    }

    lemma LiveUndecided(c: nat)
      requires Valid() && c in consents && consents[c].live
      ensures consents[c].decision.None?
    {
      assert ConsentOk(c, Consents(), calls);
    }

    method ClaimFor(t: nat, c: nat, pc: Pc)
      requires Valid() && c in consents && consents[c].live && pc.Deciding? && pc.c == c
      requires if t in calls then calls[t] == Refusing(Some(c)) else !pc.cancel
      modifies this
      ensures Valid() && Onward() && SameRegistry() && consent == old(consent) && sent == old(sent)
      ensures calls == old(calls)[t := pc] && consents == old(consents)[c := Consent(false, None)]
      ensures ArchiveSame() && OutputSame()
    {
      hide ArchiveOk, OutputOk, ConsentsOk, RegistryOk, Counted, Stands, Onward, Valid;
      TakeConsent(t, c, pc);
      Place(t, pc);
      OneConsent(c);
    }

    method TakeConsent(t: nat, c: nat, pc: Pc)
      requires Valid() && c in consents && consents[c].live && pc.Deciding? && pc.c == c
      requires if t in calls then calls[t] == Refusing(Some(c)) else !pc.cancel
      modifies this`consents, this`claimers
      ensures consents == old(consents)[c := Consent(false, None)] && old(consents)[c].decision.None?
      ensures ArchiveOk(Archive(), calls[t := pc]) && OutputOk(Output(), calls[t := pc]) && ConsentsOk(Consents(), calls[t := pc])
      ensures RegistryOk() && Counted() && Stands(t, pc) && forall u <- calls :: u != t ==> Stands(u, calls[u])
    {
      hide ArchiveOk, ArchiveStands, OutputOk, OutputStands, ConsentsOk, ConsentStands, SentOnce, Onward, Valid;
      Kept();
      Elsewhere(t, pc, calls, Archive(), Output(), Consents());
      ClaimKeeps(Consents(), calls, c, t, pc);
      LiveUndecided(c);
      SentStep(sent, consents, c, Consent(false, None));
      consents, claimers := consents[c := Consent(false, None)], claimers[c := t];
    }

    lemma ClaimedFacts(t: nat)
      requires Valid() && t in calls && (calls[t].Deciding? || calls[t].Detaching?)
      ensures calls[t].c in consents && !consents[calls[t].c].live
      ensures calls[t].Detaching? ==> consents[calls[t].c].decision == Some(calls[t].d)
    {
      assert Stands(t, calls[t]);
      assert ConsentOk(calls[t].c, Consents(), calls);
    }

    // detachPCV3Consent, by whoever claimed the consent.
    method Detach(t: nat, c: nat, d: Decision, cancel: bool)
      requires Valid() && t in calls && calls[t] == Deciding(c, d, cancel)
      modifies this
      ensures Valid() && Onward() && SameRegistry() && consents == old(consents)
      ensures consent == if old(consent) == Some(c) then None else old(consent)
      ensures calls == old(calls)[t := Sending(c, d, cancel)]
      ensures ArchiveSame() && OutputSame()
    {
      hide ArchiveOk, OutputOk, ConsentsOk, RegistryOk, Counted, Stands, Onward, Valid;
      Unlist(t, c, Sending(c, d, cancel));
      Place(t, Sending(c, d, cancel));
      OneConsent(c);
    }

    method Unlist(t: nat, c: nat, pc: Pc)
      requires Valid() && t in calls
      requires if pc.Sending? then pc.c == c && calls[t] == Deciding(c, pc.d, pc.cancel) else pc.Answered? && calls[t] == Detaching(c, pc.d)
      modifies this`consent
      ensures ArchiveOk(Archive(), calls[t := pc]) && OutputOk(Output(), calls[t := pc]) && ConsentsOk(Consents(), calls[t := pc])
      ensures RegistryOk() && Counted() && Stands(t, pc) && forall u <- calls :: u != t ==> Stands(u, calls[u])
      ensures c in consents && !consents[c].live
      ensures consent == if old(consent) == Some(c) then None else old(consent)
    {
      hide ArchiveOk, ArchiveStands, OutputOk, OutputStands, ConsentsOk, ConsentStands, SentOnce, Valid;
      Kept();
      ClaimedFacts(t);
      Elsewhere(t, pc, calls, Archive(), Output(), Consents());
      UnlistKeeps(Consents(), calls, c, t, pc);
      if registered && consent == Some(c) {
        consent := None;
      }
    }

    // The send never blocks: the channel is still empty.
    method Send(t: nat, c: nat, d: Decision, cancel: bool)
      requires Valid() && t in calls && calls[t] == Sending(c, d, cancel)
      modifies this
      ensures Valid() && Onward() && SameRegistry() && consent == old(consent)
      ensures c in old(consents) && old(consents)[c].decision.None?
      ensures consents == old(consents)[c := Consent(false, Some(d))] && sent == old(sent) + [c]
      ensures calls == old(calls)[t := if cancel then Cancelled else Over]
      ensures ArchiveSame() && OutputSame()
    {
      hide ArchiveOk, ArchiveStands, OutputOk, OutputStands, ConsentsOk, ConsentStands, SentOnce, Onward, Valid, RegistryOk;
      Kept();
      if cancel {
        DecideBy(t, c, d, Cancelled);
      } else {
        DecideBy(t, c, d, Over);
      }
      OneConsent(c);
    }

    method DecideBy(t: nat, c: nat, d: Decision, pc: Pc)
      requires Valid() && t in calls && calls[t].Sending? && calls[t].c == c && calls[t].d == d
      requires pc == if calls[t].cancel then Cancelled else Over
      modifies this`consents, this`claimers, this`sent, this`calls
      ensures Valid() && c in old(consents) && old(consents)[c].decision.None?
      ensures consents == old(consents)[c := Consent(false, Some(d))] && sent == old(sent) + [c] && calls == old(calls)[t := pc]
    {
      hide ArchiveOk, ArchiveStands, OutputOk, OutputStands, ConsentsOk, ConsentStands, SentOnce, Valid, RegistryOk;
      Kept();
      Elsewhere(t, pc, calls, Archive(), Output(), Consents());
      SendKeeps(Consents(), calls, t, pc);
      SentStep(sent, consents, c, Consent(false, Some(d)));
      consents, claimers, sent := consents[c := Consent(false, Some(d))], claimers - {c}, sent + [c];
      Place(t, pc);
    }

    // The core receives the decision.
    method Receive(t: nat)
      requires Valid() && t in calls && calls[t].Waiting? && calls[t].c in consents && consents[calls[t].c].decision.Some?
      modifies this
      ensures Valid() && Onward() && consents == old(consents)
      ensures calls == old(calls)[t := Detaching(old(calls[t].c), old(consents[calls[t].c].decision).value)]
      ensures ArchiveSame() && OutputSame()
    {
      var pc := Detaching(calls[t].c, consents[calls[t].c].decision.value);
      hide ArchiveOk, ArchiveStands, OutputOk, OutputStands;
      Kept();
      Elsewhere(t, pc, calls, Archive(), Output(), Consents());
      Place(t, pc);
    }

    // It detaches the consent again, and goes on with the role if told to.
    method Act(t: nat, c: nat, d: Decision) returns (role: Option<nat>)
      requires Valid() && t in calls && calls[t] == Detaching(c, d)
      modifies this
      ensures Valid() && Onward() && calls == old(calls)[t := Answered(d)] && consents == old(consents)
      ensures role == if d.invoke then Some(d.role) else None
      ensures c in consents && consents[c].decision == Some(d) && consent != Some(c)
      ensures ArchiveSame() && OutputSame()
    {
      role := if d.invoke then Some(d.role) else None;
      ClaimedFacts(t);
      hide ArchiveOk, OutputOk, ConsentsOk, RegistryOk, Counted, Stands, Onward, Valid;
      Unlist(t, c, Answered(d));
      Place(t, Answered(d));
      OneConsent(c);
    }

    // ----- cancellation -----

    // The first region of Cancel; only the call that passes its guard refuses what it finds.
    method Cancel(t: nat)
      requires Valid() && t !in calls
      modifies this
      ensures Valid() && Onward() && consents == old(consents) && consent == old(consent)
      ensures registered == old(registered) && terminal == old(terminal)
      ensures var first := old(registered && !terminal && !cancelRequested);
              && calls == old(calls)[t := if first then Refusing(old(consent)) else Cancelled]
              && (first ==> cancelRequested && canceller == Some(t))
              && (!first ==> cancelRequested == old(cancelRequested) && canceller == old(canceller))
      ensures ArchiveSame() && OutputSame()
    {
      hide ArchiveOk, ArchiveStands, OutputOk, OutputStands;
      Kept();
      if !(registered && !terminal && !cancelRequested) {
        Elsewhere(t, Cancelled, calls, Archive(), Output(), Consents());
        Place(t, Cancelled);
        return;
      }
      Elsewhere(t, Refusing(consent), calls, Archive(), Output(), Consents());
      CancelKeeps(Consents(), calls, t);
      cancelRequested, canceller := true, Some(t);
      Place(t, Refusing(consent));
    }

    // consent.refuse() inside Cancel.
    method RefuseFound(t: nat)
      requires Valid() && t in calls && calls[t].Refusing?
      modifies this
      ensures Valid() && Onward() && NoneLive() && SameRegistry() && consent == old(consent) && sent == old(sent)
      ensures var found := old(calls[t].found);
              var c := if found.Some? then found.value else t;
              && (found.Some? ==> c in old(consents))
              && if found.Some? && old(consents)[c].live
                 then calls == old(calls)[t := Deciding(c, Decision(0, false), true)] && consents == old(consents)[c := Consent(false, None)]
                 else calls == old(calls)[t := Cancelled] && consents == old(consents)
      ensures ArchiveSame() && OutputSame()
    {
      var found := calls[t].found;
      assert Stands(t, calls[t]);
      hide ArchiveOk, ArchiveStands, OutputOk, OutputStands;
      if found.Some? && consents[found.value].live {
        OnlyOneLive(found.value);
        ClaimFor(t, found.value, Deciding(found.value, Decision(0, false), true));
        return;
      }
      NothingToRefuse(t);
    }

    // What it found was claimed by someone else already, or there was nothing.
    method NothingToRefuse(t: nat)
      requires Valid() && t in calls && calls[t].Refusing? && canceller == Some(t)
      requires calls[t].found.Some? ==> calls[t].found.value in consents && !consents[calls[t].found.value].live
      modifies this`calls
      ensures Valid() && NoneLive() && calls == old(calls)[t := Cancelled]
    {
      hide ArchiveOk, ArchiveStands, OutputOk, OutputStands, SentOnce;
      Kept();
      NothingLive(t);
      Elsewhere(t, Cancelled, calls, Archive(), Output(), Consents());
      assert forall c <- consents :: c in calls && ConsentOk(c, Consents(), calls[t := Cancelled]) by {
        forall c | c in consents
          ensures ConsentOk(c, Consents(), calls[t := Cancelled])
        {
          assert ConsentOk(c, Consents(), calls);
        }
      }
      Place(t, Cancelled);
    }

    // Once the Cancel that set the flag has refused what it found, no consent is live, and (Onward)
    // none will be again: a consent still undecided has a call that is on its way to decide it.
    lemma AfterFirstCancel(t: nat)
      requires Valid() && canceller == Some(t) && t in calls && !calls[t].Refusing?
      ensures NoneLive()
      ensures forall c <- consents :: consents[c].decision.None? ==> c in claimers && claimers[c] in calls && Claims(calls[claimers[c]], c)
    {
      NothingLive(t);
      forall c | c in consents && consents[c].decision.None?
        ensures c in claimers && claimers[c] in calls && Claims(calls[claimers[c]], c)
      {
        assert ConsentOk(c, Consents(), calls);
      }
    }

    // In every state: a consent is undecided exactly when it is still listed and live or some call is
    // between claiming it and sending its decision.
    lemma UndecidedExactly(c: nat)
      requires Valid() && c in consents
      ensures consents[c].decision.None? <==> consents[c].live || OnItsWay(c)
      ensures consents[c].live ==> consent == Some(c)
    {
      assert ConsentOk(c, Consents(), calls);
      if OnItsWay(c) {
        var u :| u in calls && Claims(calls[u], c);
        assert Stands(u, calls[u]);
      }
    }

    /** Once any Cancel has returned: a consent is undecided exactly when some call is on its way to
        decide it, or it is live because the Cancel that was first has yet to refuse it, or because
        cancellation was never requested, the operation having ended. */
    lemma AfterCancel(t: nat, c: nat)
      requires Valid() && t in calls && calls[t] == Cancelled && c in consents
      ensures consents[c].decision.None? <==>
                || OnItsWay(c)
                || (cancelRequested && consents[c].live && canceller.Some? && canceller.value in calls && calls[canceller.value] == Refusing(Some(c)))
                || (!cancelRequested && terminal && consents[c].live)
      ensures canceller == Some(t) ==> (consents[c].decision.None? <==> OnItsWay(c))
    {
      UndecidedExactly(c);
      assert Stands(t, calls[t]);
      assert ConsentOk(c, Consents(), calls);
    }

    /** No consent is undecided exactly when none is listed and no call is between a claim and its send. */
    lemma AllDecidedExactly()
      requires Valid()
      ensures AllDecided() <==> consent.None? && forall u <- calls :: !calls[u].Deciding? && !calls[u].Sending?
    {
      if AllDecided() {
        forall u | u in calls
          ensures !calls[u].Deciding? && !calls[u].Sending?
        {
          assert Stands(u, calls[u]);
          if calls[u].Deciding? || calls[u].Sending? {
            UndecidedExactly(calls[u].c);
          }
        }
      } else {
        var c :| c in consents && consents[c].decision.None?;
        UndecidedExactly(c);
      }
    }

    // At most one call holds the archive action, and then neither the capability nor Release has it.
    lemma OneArchiveHolder(t: nat, u: nat)
      requires Valid() && t in calls && u in calls && HoldsArchive(calls[t]) && HoldsArchive(calls[u])
      ensures t == u && !archiveLive && registered && (archive <==> calls[t].ArchiveTaken?) && (archiveInFlight <==> calls[t].ArchiveInUse?)
    {
      assert Stands(t, calls[t]) && Stands(u, calls[u]);
    }

    // The output action is listed, or in flight with one call, or gone; never two at once.
    lemma OneOutputPlace(t: nat, u: nat)
      requires Valid() && t in calls && u in calls && HoldsOutput(calls[t]) && HoldsOutput(calls[u])
      ensures t == u && !output && outputInFlight && registered
    {
      assert Stands(t, calls[t]) && Stands(u, calls[u]);
    }

    // The rest of the first Cancel, undisturbed: whatever was listed is refused.
    method CancelFound(t: nat)
      requires Valid() && t in calls && calls[t] == Refusing(consent) && RestBut(calls, t)
      modifies this
      ensures Valid() && RestBut(calls, t) && t in calls && calls[t] == Cancelled && consent.None?
    {
      var found := consent;
      if found.Some? {
        UndecidedListed(found.value);
      }
      hide Valid, Onward, RestBut, SameRegistry;
      RestStep(calls, t, Cancelled);
      if found.Some? {
        RestStep(calls, t, Deciding(found.value, Decision(0, false), true));
      }
      RefuseFound(t);
      if found.Some? {
        RestStep(calls, t, Sending(found.value, Decision(0, false), true));
        Detach(t, found.value, Decision(0, false), true);
        RestStep(calls, t, Cancelled);
        Send(t, found.value, Decision(0, false), true);
      }
    }

    /** One Cancel with nothing in between, while no choice, refusal or cancellation is under way:
        afterwards every consent is decided exactly when its guard held or none was listed. */
    method CancelAlone(t: nat)
      requires Valid() && t !in calls && AtRest()
      modifies this
      ensures Valid() && AtRest() && t in calls && calls[t] == Cancelled
      ensures AllDecided() <==> old((registered && !terminal && !cancelRequested) || consent.None?)
    {
      hide Valid, Onward, AllDecided;
      Cancel(t);
      if calls[t].Refusing? {
        CancelFound(t);
      }
      AllDecidedExactly();
    }

    // A listed consent is undecided, so it is live or claimed.
    lemma UndecidedListed(c: nat)
      requires Valid() && consent == Some(c)
      ensures c in consents && (consents[c].live || OnItsWay(c))
    {
      UndecidedExactly(c);
    }

    lemma OnlyOneLive(c: nat)
      requires Valid() && c in consents && consents[c].live
      ensures forall d <- consents :: consents[d].live ==> d == c
    {
      forall d | d in consents && consents[d].live
        ensures d == c
      {
        assert ConsentOk(c, Consents(), calls) && ConsentOk(d, Consents(), calls);
      }
    }

    // A live consent would be the one the first Cancel found.
    lemma NothingLive(t: nat)
      requires Valid() && t in calls && canceller == Some(t) && !(calls[t].Refusing? && calls[t].found.Some? && calls[t].found.value in consents && consents[calls[t].found.value].live)
      ensures NoneLive()
    {
      forall c | c in consents
        ensures !consents[c].live
      {
        assert ConsentOk(c, Consents(), calls);
      }
    }

    // A new call, numbered t: where its first region leaves it, by kind, and what it changes.
    method Start(t: nat, move: Move)
      requires Valid() && t !in calls
      modifies this
      ensures Valid() && Onward() && calls == if Unheard(old(consents), move) then old(calls) else old(calls)[t := First(move, t, old(View()))]
      ensures move.Complete? && old(registered && !terminal) ==>
                terminal && archive == archiveLive == move.withArchive && output == outputLive == (move.withOutput && !move.withArchive)
      ensures !(move.Complete? && old(registered && !terminal)) && !move.ConsumeArchive? ==> ArchiveSame()
      ensures !(move.Complete? && old(registered && !terminal)) && !move.ConsumeOutput? ==> OutputSame()
      ensures move.Complete? ==> archiveUses == old(archiveUses) && outputInFlight == old(outputInFlight)
      ensures move.ConsumeArchive? ==> !archiveLive && archiveUses == old(archiveUses) + if old(archiveLive) then 1 else 0
      ensures move.ConsumeOutput? ==> !output && (outputInFlight ==> old(outputInFlight || output)) && (outputLive ==> old(outputLive))
      ensures consents == match move
                          case AskConsent => if Asks(old(View())) then old(consents)[t := Consent(true, None)] else old(consents)
                          case Choose(c, _) => if c in old(consents) && old(consents)[c].live then old(consents)[c := Consent(false, None)] else old(consents)
                          case _ => old(consents)
    {
      hide Valid, Onward;
      match move {
        case Complete(withArchive, withOutput) => var accepted := Finish(t, withArchive, withOutput && !withArchive);
        case ConsumeArchive => TakeArchive(t);
        case ConsumeOutput => TakeOutput(t);
        case ReleaseOperation => var released := Release(t);
        case AskConsent => Ask(t);
        case Choose(c, d) => Attempt(t, c, d);
        case CancelOperation => Cancel(t);
        case Go(_, _) => Nothing();
      }
    }

    // What decides where a new call goes.
    ghost function View(): Registry
      reads this
    {
      Registry(registered && !terminal && !cancelRequested, consent, archiveLive, output, consents)
    }

    // What the story needs to know of a call before its step.
    lemma Holding(t: nat)
      requires Valid() && t in calls
      ensures calls[t].Sending? ==> calls[t].c in consents
      ensures calls[t].OutputInUse? ==> outputInFlight
    {
      assert Stands(t, calls[t]);
    }

    method Nothing()
      requires Valid()
      modifies this
      ensures Valid() && Onward() && calls == old(calls) && ConsentsSame() && ArchiveSame() && OutputSame()
    {
    }

    // choose: only what a consent stands behind can be chosen.
    method Attempt(t: nat, c: nat, d: Decision)
      requires Valid() && t !in calls
      modifies this
      ensures Valid() && Onward() && ArchiveSame() && OutputSame()
      ensures calls == if c !in old(consents) then old(calls) else old(calls)[t := if old(consents)[c].live then Deciding(c, d, false) else Over]
      ensures consents == if c in old(consents) && old(consents)[c].live then old(consents)[c := Consent(false, None)] else old(consents)
    {
      if c in consents {
        Claim(t, c, d);
      }
    }

    // The next region of call t, if it is not waiting; keep says what a save makes of the output.
    method Advance(t: nat, keep: bool)
      requires Valid() && t in calls
      modifies this
      ensures Valid() && Onward() && calls == old(calls)[t := Next(old(calls[t]), keep, old(consents))]
      ensures consents == ConsentsAfter(old(calls[t]), old(consents))
      ensures archiveLive == old(archiveLive) && archiveUses == old(archiveUses)
      ensures output || outputLive || outputInFlight ==> old(output || outputLive || outputInFlight || OutputInUse == calls[t])
    {
      hide Valid, Onward;
      match calls[t] {
        case ArchiveTaken => MarkArchive(t);
        case ArchiveInUse => ReplaceArchive(t);
        case OutputInUse => UseOutput(t, keep);
        case OutputSettling(_) => SettleOutput(t);
        case Deciding(c, d, cancel) => Detach(t, c, d, cancel);
        case Sending(c, d, cancel) => Send(t, c, d, cancel);
        case Waiting(c) => Await(t, c);
        case Detaching(c, d) => var role := Act(t, c, d);
        case Refusing(_) => RefuseFound(t);
        case Cancelled => Nothing();
        case Answered(_) => Nothing();
        case Over => Nothing();
      }
    }

    method Await(t: nat, c: nat)
      requires Valid() && t in calls && calls[t] == Waiting(c)
      modifies this
      ensures Valid() && Onward() && consents == old(consents) && ArchiveSame() && OutputSame()
      ensures calls == old(calls)[t := Next(Waiting(c), false, old(consents))]
    {
      if c in consents && consents[c].decision.Some? {
        Receive(t);
      }
    }
  }

  datatype Registry = Registry(open: bool, listed: Option<nat>, archiveLive: bool, output: bool, consents: map<nat, Consent>)

  predicate Asks(r: Registry) { r.open && r.listed.None? }

  // A choice that no consent stands behind is no call; nor is a move of a call that is not there.
  predicate Unheard(consents: map<nat, Consent>, move: Move)
  {
    move.Go? || (move.Choose? && move.c !in consents)
  }

  // Where a new call stands after its first region.
  function First(move: Move, t: nat, r: Registry): Pc
  {
    match move
    case ConsumeArchive => if r.archiveLive then ArchiveTaken else Over
    case ConsumeOutput => if r.output then OutputInUse else Over
    case AskConsent => if Asks(r) then Waiting(t) else Over
    case Choose(c, d) => if c in r.consents && r.consents[c].live then Deciding(c, d, false) else Over
    case CancelOperation => if r.open then Refusing(r.listed) else Cancelled
    case _ => Over
  }

  predicate Found(found: Option<nat>, consents: map<nat, Consent>)
  {
    found.Some? && found.value in consents && consents[found.value].live
  }

  // Where the next region takes a call.
  function Next(pc: Pc, keep: bool, consents: map<nat, Consent>): Pc
  {
    match pc
    case ArchiveTaken => ArchiveInUse
    case ArchiveInUse => Over
    case OutputInUse => OutputSettling(keep)
    case OutputSettling(_) => Over
    case Deciding(c, d, cancel) => Sending(c, d, cancel)
    case Sending(_, _, cancel) => if cancel then Cancelled else Over
    case Waiting(c) => if c in consents && consents[c].decision.Some? then Detaching(c, consents[c].decision.value) else pc
    case Detaching(_, d) => Answered(d)
    case Refusing(found) => if Found(found, consents) then Deciding(found.value, Decision(0, false), true) else Cancelled
    case _ => pc
  }

  function ConsentsAfter(pc: Pc, consents: map<nat, Consent>): map<nat, Consent>
  {
    match pc
    case Sending(c, d, _) => consents[c := Consent(false, Some(d))]
    case Refusing(found) => if Found(found, consents) then consents[found.value := Consent(false, None)] else consents
    case _ => consents
  }

  lemma CancelKeeps(k: ConsentView, calls: map<nat, Pc>, t: nat)
    requires ConsentsOk(k, calls) && t !in calls && !k.cancelRequested
    requires forall u <- calls :: ConsentStands(u, calls[u], k)
    ensures var after := k.(cancelRequested := true, canceller := Some(t));
            && ConsentsOk(after, calls[t := Refusing(k.listed)]) && ConsentStands(t, Refusing(k.listed), after)
            && forall u <- calls :: ConsentStands(u, calls[u], after)
  {
    var after, moved := k.(cancelRequested := true, canceller := Some(t)), calls[t := Refusing(k.listed)];
    forall c | c in k.states
      ensures ConsentOk(c, after, moved)
    {
      assert ConsentOk(c, k, calls);
    }
    forall u | u in calls
      ensures ConsentStands(u, calls[u], after)
    {
      assert ConsentStands(u, calls[u], k);
    }
  }

  // Three runs in which Cancel returns and leaves consent 1 undecided. The guard fails because a first
  // Cancel has not refused yet; the guard fails because the operation has ended; and the guard holds,
  // but a choice has claimed the consent and not yet sent.
  method SecondCancelReturnsEarly() returns (op: Operation)
    ensures op.Valid() && op.cancelRequested && 3 in op.calls && op.calls[3] == Cancelled
    ensures op.canceller == Some(2) && 1 in op.consents && op.consents[1] == Consent(true, None)
  {
    op := new Operation();
    op.Ask(1);
    op.Cancel(2);
    op.Cancel(3);
  }

  method CancelAfterTheEnd() returns (op: Operation)
    ensures op.Valid() && op.terminal && !op.cancelRequested && 3 in op.calls && op.calls[3] == Cancelled
    ensures 1 in op.consents && op.consents[1] == Consent(true, None)
  {
    op := new Operation();
    op.Ask(1);
    var accepted := op.Finish(2, false, false);
    op.Cancel(3);
  }

  method CancelDuringChoice() returns (op: Operation)
    ensures op.Valid() && op.canceller == Some(3) && 3 in op.calls && op.calls[3] == Cancelled
    ensures 1 in op.consents && op.consents[1] == Consent(false, None)
  {
    op := new Operation();
    op.Ask(1);
    op.Claim(2, 1, Decision(0, true));
    op.Cancel(3);
    op.RefuseFound(3);
  }

  datatype Move =
    | Complete(withArchive: bool, withOutput: bool)
    | ConsumeArchive
    | ConsumeOutput
    | ReleaseOperation
    | AskConsent
    | Choose(c: nat, d: Decision)
    | CancelOperation
    | Go(t: nat, keep: bool)

  // A decision on consent c comes from a choice that named it, or is the refusal of some Cancel.
  predicate Decides(moves: seq<Move>, c: nat, d: Decision)
  {
    exists i :: 0 <= i < |moves| && (moves[i] == Choose(c, d) || (moves[i].CancelOperation? && d == Decision(0, false)))
  }

  // Call t stands only where a call of its kind can, with what its move gave it.
  predicate Fits(moves: seq<Move>, t: nat, pc: Pc)
  {
    && t < |moves|
    && match pc
       case ArchiveTaken => moves[t].ConsumeArchive?
       case ArchiveInUse => moves[t].ConsumeArchive?
       case OutputInUse => moves[t].ConsumeOutput?
       case OutputSettling(_) => moves[t].ConsumeOutput?
       case Deciding(c, d, cancel) => if cancel then moves[t].CancelOperation? && d == Decision(0, false) else moves[t] == Choose(c, d)
       case Sending(c, d, cancel) => if cancel then moves[t].CancelOperation? && d == Decision(0, false) else moves[t] == Choose(c, d)
       case Waiting(c) => moves[t].AskConsent? && c == t
       case Detaching(c, d) => moves[t].AskConsent? && c == t && Decides(moves, t, d)
       case Refusing(_) => moves[t].CancelOperation?
       case Cancelled => moves[t].CancelOperation?
       case Answered(d) => moves[t].AskConsent? && Decides(moves, t, d)
       case Over => !moves[t].Go? && !moves[t].CancelOperation?
  }

  ghost predicate Cast(moves: seq<Move>, calls: map<nat, Pc>)
  {
    && (forall t <- calls :: Fits(moves, t, calls[t]))
    && (forall t: nat :: t < |moves| && !moves[t].Go? && !moves[t].Choose? ==> t in calls)
  }

  ghost predicate Explained(moves: seq<Move>, consents: map<nat, Consent>)
  {
    forall c <- consents :: c < |moves| && moves[c].AskConsent? && (consents[c].decision.Some? ==> Decides(moves, c, consents[c].decision.value))
  }

  // Someone registered an archive, or an output; someone consumed the archive.
  predicate Registered(moves: seq<Move>, archive: bool)
  {
    exists i :: 0 <= i < |moves| && moves[i].Complete? && if archive then moves[i].withArchive else moves[i].withOutput && !moves[i].withArchive
  }

  predicate Consumed(moves: seq<Move>)
  {
    exists i :: 0 <= i < |moves| && moves[i].ConsumeArchive?
  }

  ghost predicate Story(moves: seq<Move>, op: Operation)
    reads op
  {
    && Cast(moves, op.calls) && Explained(moves, op.consents)
    && (op.archiveLive || op.archiveUses > 0 ==> Registered(moves, true)) && (op.archiveUses > 0 ==> Consumed(moves))
    && (op.output || op.outputLive || op.outputInFlight ==> Registered(moves, false))
  }

  lemma DecidesLonger(moves: seq<Move>, move: Move, c: nat, d: Decision)
    requires Decides(moves, c, d)
    ensures Decides(moves + [move], c, d)
  {
    var i :| 0 <= i < |moves| && (moves[i] == Choose(c, d) || (moves[i].CancelOperation? && d == Decision(0, false)));
    assert (moves + [move])[i] == moves[i];
  }

  lemma FitsLonger(moves: seq<Move>, move: Move, t: nat, pc: Pc)
    requires Fits(moves, t, pc)
    ensures Fits(moves + [move], t, pc)
  {
    assert (moves + [move])[t] == moves[t];
    match pc {
      case Detaching(c, d) => DecidesLonger(moves, move, t, d);
      case Answered(d) => DecidesLonger(moves, move, t, d);
      case _ =>
    }
  }

  // A longer schedule explains what a shorter one did.
  lemma Longer(moves: seq<Move>, move: Move, calls: map<nat, Pc>, consents: map<nat, Consent>)
    requires Cast(moves, calls) && Explained(moves, consents)
    ensures forall t <- calls :: Fits(moves + [move], t, calls[t])
    ensures Explained(moves + [move], consents)
    ensures forall archive :: Registered(moves, archive) ==> Registered(moves + [move], archive)
    ensures Consumed(moves) ==> Consumed(moves + [move])
  {
    var all := moves + [move];
    forall t | t in calls
      ensures Fits(all, t, calls[t])
    {
      FitsLonger(moves, move, t, calls[t]);
    }
    forall c | c in consents
      ensures c < |all| && all[c].AskConsent? && (consents[c].decision.Some? ==> Decides(all, c, consents[c].decision.value))
    {
      if consents[c].decision.Some? {
        DecidesLonger(moves, move, c, consents[c].decision.value);
      }
    }
    forall archive | Registered(moves, archive)
      ensures Registered(all, archive)
    {
      var i :| 0 <= i < |moves| && moves[i].Complete? && if archive then moves[i].withArchive else moves[i].withOutput && !moves[i].withArchive;
      assert all[i] == moves[i];
    }
    if Consumed(moves) {
      var i :| 0 <= i < |moves| && moves[i].ConsumeArchive?;
      assert all[i] == moves[i];
    }
  }

  // The step of a call keeps to its kind, and a decision it sends is its own.
  lemma NextFits(moves: seq<Move>, t: nat, pc: Pc, keep: bool, consents: map<nat, Consent>)
    requires Fits(moves, t, pc) && Explained(moves, consents)
    requires pc.Sending? ==> pc.c in consents
    ensures Fits(moves, t, Next(pc, keep, consents))
    ensures Explained(moves, ConsentsAfter(pc, consents))
  {
    if pc.Sending? {
      assert Decides(moves, pc.c, pc.d) by {
        assert 0 <= t < |moves| && (moves[t] == Choose(pc.c, pc.d) || (moves[t].CancelOperation? && pc.d == Decision(0, false)));
      }
    }
  }

  lemma CastNext(moves: seq<Move>, move: Move, calls: map<nat, Pc>, t: nat, pc: Pc)
    requires Cast(moves, calls) && forall u <- calls :: Fits(moves + [move], u, calls[u])
    requires Fits(moves + [move], t, pc) && (if t in calls then move.Go? else t == |moves|)
    ensures Cast(moves + [move], calls[t := pc])
  {
    var all := moves + [move];
    forall u: nat | u < |all| && !all[u].Go? && !all[u].Choose?
      ensures u in calls[t := pc]
    {
      assert u < |moves| ==> all[u] == moves[u];
    }
  }

  method DoGo(op: Operation, ghost moves: seq<Move>, t: nat, keep: bool)
    requires op.Valid() && Story(moves, op) && t in op.calls
    modifies op
    ensures op.Valid() && Story(moves + [Go(t, keep)], op)
  {
    hide Operation.Valid, Operation.Onward, Cast, Explained, Fits, Registered, Consumed, Next, ConsentsAfter;
    ghost var calls, consents, all := op.calls, op.consents, moves + [Go(t, keep)];
    Longer(moves, Go(t, keep), calls, consents);
    op.Holding(t);
    NextFits(all, t, calls[t], keep, consents);
    op.Advance(t, keep);
    CastNext(moves, Go(t, keep), calls, t, op.calls[t]);
  }

  method DoStart(op: Operation, ghost moves: seq<Move>, t: nat, move: Move)
    requires op.Valid() && Story(moves, op) && t == |moves| && !(move.Go? && move.t in op.calls)
    modifies op
    ensures op.Valid() && Story(moves + [move], op)
  {
    hide Operation.Valid, Operation.Onward, Cast, Explained, Fits, Registered, Consumed, First, Unheard;
    ghost var calls, consents, all := op.calls, op.consents, moves + [move];
    ghost var view := op.View();
    Longer(moves, move, calls, consents);
    NotYet(moves, calls, consents);
    op.Start(t, move);
    StartedKinds(moves, move);
    ExplainedNow(moves, move, consents, op.consents);
    if Unheard(consents, move) {
      CastSame(moves, move, calls, consents);
    } else {
      FirstFits(moves, move, consents, view);
      CastNext(moves, move, calls, t, First(move, t, view));
    }
  }

  lemma NotYet(moves: seq<Move>, calls: map<nat, Pc>, consents: map<nat, Consent>)
    requires Cast(moves, calls) && Explained(moves, consents)
    ensures |moves| !in calls && |moves| !in consents
  {
    assert |moves| in calls ==> Fits(moves, |moves|, calls[|moves|]);
  }

  lemma StartedKinds(moves: seq<Move>, move: Move)
    ensures move.Complete? && move.withArchive ==> Registered(moves + [move], true)
    ensures move.Complete? && move.withOutput && !move.withArchive ==> Registered(moves + [move], false)
    ensures move.ConsumeArchive? ==> Consumed(moves + [move])
  {
    assert (moves + [move])[|moves|] == move;
  }

  lemma FirstFits(moves: seq<Move>, move: Move, consents: map<nat, Consent>, r: Registry)
    requires !Unheard(consents, move)
    ensures Fits(moves + [move], |moves|, First(move, |moves|, r))
  {
    assert (moves + [move])[|moves|] == move;
  }

  lemma CastSame(moves: seq<Move>, move: Move, calls: map<nat, Pc>, consents: map<nat, Consent>)
    requires Cast(moves, calls) && Unheard(consents, move) && forall u <- calls :: Fits(moves + [move], u, calls[u])
    ensures Cast(moves + [move], calls)
  {
    var all := moves + [move];
    forall u: nat | u < |all| && !all[u].Go? && !all[u].Choose?
      ensures u in calls
    {
      assert u < |moves| && all[u] == moves[u];
    }
  }

  lemma ExplainedNow(moves: seq<Move>, move: Move, before: map<nat, Consent>, after: map<nat, Consent>)
    requires Explained(moves + [move], before)
    requires after == before || (move.AskConsent? && after == before[|moves| := Consent(true, None)])
             || exists c :: c in before && after == before[c := Consent(false, None)]
    ensures Explained(moves + [move], after)
  {
    assert (moves + [move])[|moves|] == move;
  }

  // Every interleaving: the archive action reached one consumer at most, and no consent was decided twice.
  // Every call stands where its move put it; what a consent was decided is what some choice of it said, or
  // the refusal of a Cancel, and the core that asked is answered with that; nothing was consumed that no
  // completion had registered.
  method Run(moves: seq<Move>) returns (op: Operation)
    ensures fresh(op) && op.Valid() && op.archiveUses <= 1
    ensures forall i, j :: 0 <= i < j < |op.sent| ==> op.sent[i] != op.sent[j]
    ensures forall t <- op.calls :: Fits(moves, t, op.calls[t])
    ensures forall t: nat :: t < |moves| && !moves[t].Go? && !moves[t].Choose? ==> t in op.calls
    ensures forall c <- op.consents :: c < |moves| && moves[c].AskConsent? && (op.consents[c].decision.Some? ==> Decides(moves, c, op.consents[c].decision.value))
    ensures op.archiveUses > 0 ==> Registered(moves, true) && Consumed(moves)
    ensures op.output || op.outputInFlight ==> Registered(moves, false)
  {
    op := new Operation();
    assert moves[..0] == [];
    for i := 0 to |moves|
      invariant fresh(op) && op.Valid() && Story(moves[..i], op)
    {
      hide Operation.Valid, Story;
      assert moves[..i + 1] == moves[..i] + [moves[i]];
      var move := moves[i];
      if move.Go? && move.t in op.calls {
        DoGo(op, moves[..i], move.t, move.keep);
      } else {
        DoStart(op, moves[..i], i, move);
      }
    }
    assert moves[..|moves|] == moves;
  }
}
