/** The broker object over many clipboard batches, whatever becomes of each. */
module BrokerRuns {
  import opened InputTypes
  import opened Basics
  import opened Utf16Text
  import opened SemanticEdit
  import opened X11Helper
  import opened InputBroker
  import opened RevisionSafety

  // ----- A first part of a batch -----

  /** A first part of what one request may do is what a first part of its events does. */
  lemma PartOfRequest(d: Desk, request: seq<Event>, part: seq<Injection>) returns (n: nat)
    requires d.carry.Valid() && Homogeneous(request) && part <= Effect(d.carry, request)
    ensures n <= |request| && DeskTo(d, request, n).Some? && DeskTo(d, request, n).value.doc == Apply(d.doc, part)
  {
    if part == [] {
      n := 0;
    } else if IsTextEvent(request[0]) {
      n := |request|;
      assert part == Effect(d.carry, request);
      RequestOnDesk(d, request);
    } else {
      n := |part|;
      KeyRequestOnDesk(d, request, n);
      assert part == InjectedAll(request)[..n];
    }
  }

  /** And so for a whole list of requests of which the last may have failed. */
  lemma {:induction false} PartOfRequests(d: Desk, requests: seq<seq<Event>>, part: seq<Injection>) returns (n: nat)
    requires d.carry.Valid() && forall i :: 0 <= i < |requests| ==> Homogeneous(requests[i])
    requires part <= Effects(d.carry, requests)
    ensures n <= |Flat(requests)| && DeskTo(d, Flat(requests), n).Some?
    ensures DeskTo(d, Flat(requests), n).value.doc == Apply(d.doc, part)
    decreases |requests|
  {
    hide DeskTo, Apply, Effect;
    if requests == [] {
      n := PartOfNothing(d);
    } else {
      var init, last := requests[..|requests| - 1], requests[|requests| - 1];
      assert Homogeneous(last);
      assert Flat(requests) == Flat(init) + last;
      if RequestsEffect(d.carry, init).None? {
        n := PartOfRequests(d, init, part);
        DeskPrefix(d, Flat(init), Flat(requests), n);
      } else {
        var (carry, done) := RequestsEffect(d.carry, init).value;
        EffectsOfAccepted(d.carry, init);
        if |part| <= |done| {
          n := PartOfRequests(d, init, part);
          DeskPrefix(d, Flat(init), Flat(requests), n);
        } else {
          RequestsOnDesk(d, init);
          assert part == done + part[|done|..];
          ApplyAppend(d.doc, done, part[|done|..]);
          var m := PartOfRequest(Desk(carry, Apply(d.doc, done)), last, part[|done|..]);
          DeskAppend(d, Flat(init), last, m);
          n := |Flat(init)| + m;
        }
      }
    }
  }

  lemma PartOfNothing(d: Desk) returns (n: nat)
    requires d.carry.Valid()
    ensures n == 0 && Flat([]) == [] && DeskTo(d, Flat([]), n) == Some(d) && Apply(d.doc, []) == d.doc
  {
    n := 0;
  }

  /** Every first part of the clamped events stems from a first part of the batch. */
  lemma {:induction false} PartOfClamp(p: Platform, s: EditState, inputs: seq<Input>, n: nat, m: nat) returns (k: nat)
    requires n <= |inputs| && ClampTo(p, s, inputs, n).Some? && m <= |ClampTo(p, s, inputs, n).value.events|
    ensures k <= n && ClampTo(p, s, inputs, k).Some?
    ensures ClampTo(p, s, inputs, k).value.events == ClampTo(p, s, inputs, n).value.events[..m]
  {
    var a := ClampTo(p, s, inputs, n).value;
    if m == |a.events| {
      k := n;
      assert a.events[..m] == a.events;
    } else {
      ClampPrefix(p, s, inputs, n - 1, n);
      var before := ClampTo(p, s, inputs, n - 1).value;
      assert before.events <= a.events && |a.events| <= |before.events| + 1;
      k := PartOfClamp(p, s, inputs, n - 1, m);
      assert before.events[..m] == a.events[..m];
    }
  }

  // ----- One turn -----

  /** A batch and the clock before and after it. */
  datatype Turn = Turn(inputs: seq<Input>, now: nat, later: nat)

  /** What became of a batch: all of it done; the broker reset when some first
      inputs of it were done; or given up, with the first inputs confirmed and the
      allowance as it was. */
  datatype TurnEnd = Delivered | Reset(done: nat) | GivenUp(confirmed: nat)

  /** The allowance as the batch finds it, with the helper and the document. */
  function Begun(w: World, now: nat): (s: World)
    ensures s.carry == w.carry && s.doc == w.doc && (s.edit == w.edit || s.edit == CLEARED)
  {
    w.(edit := Expire(w.edit, now))
  }

  /** Helper and document after the first n inputs of a batch. */
  function DeskAfter(p: Platform, s: World, inputs: seq<Input>, n: nat): (r: Option<Desk>)
    requires s.carry.Valid() && n <= |inputs|
    ensures r.Some? ==> ClampTo(p, s.edit, inputs, n).Some? && r.value.carry.Valid()
  {
    match ClampTo(p, s.edit, inputs, n)
    case None => None
    case Some(a) => DeskTo(Desk(s.carry, s.doc), a.events, |a.events|)
  }

  /** What one call of send_x11_clipboard_text makes of a world. After a reset the
      helper's own state is anything. */
  predicate TurnStep(p: Platform, w: World, turn: Turn, v: World, end: TurnEnd)
    requires w.carry.Valid()
  {
    var s := Begun(w, turn.now);
    && v.carry.Valid()
    && match end
       case Delivered =>
         && BatchStep(p, s, turn.inputs).Some?
         && var r := BatchStep(p, s, turn.inputs).value; v == r.(edit := r.edit.(updatedMs := turn.later))
       case Reset(done) =>
         && v.edit == CLEARED && done <= |turn.inputs|
         && DeskAfter(p, s, turn.inputs, done).Some? && DeskAfter(p, s, turn.inputs, done).value.doc == v.doc
       case GivenUp(confirmed) =>
         && v.edit == w.edit && confirmed <= |turn.inputs|
         && DeskAfter(p, s, turn.inputs, confirmed) == Some(Desk(v.carry, v.doc))
  }

  /** Whatever part of the requests tried was done, it is what some first inputs say. */
  lemma AttemptOnDesk(p: Platform, s: World, inputs: seq<Input>, attempt: Attempt, added: seq<Injection>)
    returns (done: nat)
    requires s.carry.Valid() && Attempted(p, s.edit, inputs, attempt) && added <= Effects(s.carry, attempt.requests)
    ensures done <= |inputs| && DeskAfter(p, s, inputs, done).Some?
    ensures DeskAfter(p, s, inputs, done).value.doc == Apply(s.doc, added)
  {
    hide Effects, DeskTo, Apply, ClampTo;
    var d := Desk(s.carry, s.doc);
    var n := PartOfRequests(d, attempt.requests, added);
    done := PartOfClamp(p, s.edit, inputs, attempt.inputs, n);
    DeskPrefix(d, ClampTo(p, s.edit, inputs, done).value.events, Flat(attempt.requests), n);
  }

  /** A batch given up leaves the helper exactly where its confirmed inputs led. */
  lemma GivenUpOnDesk(p: Platform, s: World, inputs: seq<Input>, attempt: Attempt, after: Carry, added: seq<Injection>)
    requires s.carry.Valid() && Attempted(p, s.edit, inputs, attempt)
    requires RequestsEffect(s.carry, attempt.requests) == Some((after, added))
    ensures DeskAfter(p, s, inputs, attempt.inputs) == Some(Desk(after, Apply(s.doc, added)))
  {
    RequestsOnDesk(Desk(s.carry, s.doc), attempt.requests);
  }

  /** Broker, helper and document. */
  function WorldOf(b: Broker, doc: seq<int>): (w: World)
    reads b, b.helper, b.helper.pressedKeys, b.helper.pressedButtons
    requires b.Valid()
    ensures w.carry.Valid()
  {
    World(b.edit, b.helper.CarryNow(), doc)
  }

  /** One batch from any state. */
  method OneTurn(b: Broker, turn: Turn, ghost w: World) returns (route: Route, ghost v: World, ghost end: TurnEnd)
    requires b.Valid() && w == WorldOf(b, w.doc)
    modifies b`connected, b`requests, b`edit, b.helper, b.helper.pressedKeys, b.helper.pressedButtons
    ensures b.Valid() && old(b.helper.injected) <= b.helper.injected
    ensures v == WorldOf(b, Apply(w.doc, b.helper.injected[|old(b.helper.injected)|..]))
    ensures TurnStep(b.platform, w, turn, v, end) && (end.Delivered? <==> route.Success?)
  {
    hide Apply, Effects, Attempted, ClipboardDelivered, BatchStep, DeskAfter;
    ghost var before, sent := b.helper.injected, |b.requests|;
    var clamped;
    ghost var attempt;
    route, clamped, attempt := b.SendX11ClipboardText(turn.inputs, turn.now, turn.later);
    ghost var s, added := Begun(w, turn.now), b.helper.injected[|before|..];
    v := WorldOf(b, Apply(w.doc, added));
    if route.Success? {
      end := Delivered;
      DeliveredIsBatchStep(b.platform, w.edit, turn.now, turn.inputs, b.requests[sent..], w.carry, v.carry, added,
                          b.edit, clamped, w.doc);
    } else if attempt.gaveUp {
      AttemptedInputs(b.platform, s, turn.inputs, attempt);
      end := GivenUp(attempt.inputs);
      GivenUpOnDesk(b.platform, s, turn.inputs, attempt, v.carry, added);
    } else {
      ghost var done := AttemptOnDesk(b.platform, s, turn.inputs, attempt, added);
      end := Reset(done);
    }
  }

  lemma AttemptedInputs(p: Platform, s: World, inputs: seq<Input>, attempt: Attempt)
    requires Attempted(p, s.edit, inputs, attempt)
    ensures attempt.inputs <= |inputs|
  {
  }

  // ----- The older text over a turn -----

  /** The older text is there, and what stands behind it covers credit and debt. */
  predicate Covered(w: World, prefix: seq<int>) {
    prefix <= w.doc && Solvent(w.edit, w.carry, w.doc[|prefix|..])
  }

  /** The credit the broker had worked out, and drops, when it gave a batch up. */
  function Prospective(p: Platform, s: World, inputs: seq<Input>, confirmed: nat): nat
    requires confirmed <= |inputs| && ClampTo(p, s.edit, inputs, confirmed).Some?
  {
    ClampTo(p, s.edit, inputs, confirmed).value.state.removable
  }

  /** Whatever first inputs of a batch were done, the older text is still there. */
  lemma PartKeepsPrefix(p: Platform, s: World, prefix: seq<int>, inputs: seq<Input>, n: nat)
    requires StandardBackspace(p) && TextBatch(p, inputs) && s.carry.Valid() && Covered(s, prefix)
    requires n <= |inputs| && DeskAfter(p, s, inputs, n).Some?
    ensures var a, d := ClampTo(p, s.edit, inputs, n).value, DeskAfter(p, s, inputs, n).value;
            && Covered(World(a.state, d.carry, d.doc), prefix)
            && (Coupled(s.edit, s.carry, s.doc[|prefix|..]) && s.edit.removable + n <= MAXDWORD ==>
                  a.state.removable == |d.doc| - |prefix|)
  {
    hide ClampTo, DeskTo, Solvent;
    assert s.doc == prefix + s.doc[|prefix|..];
    var tail' := BatchKeepsPrefix(p, s, prefix, s.doc[|prefix|..], inputs, n);
    assert (prefix + tail')[|prefix|..] == tail';
  }

  /** One turn from a covered world. */
  lemma TurnKeepsPrefix(p: Platform, w: World, turn: Turn, v: World, end: TurnEnd, prefix: seq<int>)
    requires StandardBackspace(p) && TextBatch(p, turn.inputs) && w.carry.Valid() && TurnStep(p, w, turn, v, end)
    requires Covered(Begun(w, turn.now), prefix)
    ensures prefix <= v.doc
    ensures match end
            case Delivered => Covered(v, prefix)
            case Reset(_) => v.edit == CLEARED
            case GivenUp(k) =>
              v.edit == w.edit && Prospective(p, Begun(w, turn.now), turn.inputs, k) <= |v.doc| - |prefix|
  {
    var s := Begun(w, turn.now);
    PartKeepsPrefix(p, s, prefix, turn.inputs,
                    match end case Delivered => |turn.inputs| case Reset(n) => n case GivenUp(n) => n);
  }

  // ----- Runs -----

  /** The worlds between the turns of a run. */
  ghost predicate Linked(p: Platform, worlds: seq<World>, turns: seq<Turn>, ends: seq<TurnEnd>) {
    && |worlds| == |turns| + 1 && |ends| == |turns|
    && (forall i :: 0 <= i < |worlds| ==> worlds[i].carry.Valid())
    && (forall i, j :: 0 <= i < |turns| && j == i + 1 ==> TurnStep(p, worlds[i], turns[i], worlds[j], ends[i]))
  }

  /** What turn i finds: a broker that was reset or has expired must not face a
      helper that remembers a CR with nothing behind the older text, and the
      allowance left by a batch given up must not exceed the credit dropped. */
  ghost predicate Secured(p: Platform, worlds: seq<World>, turns: seq<Turn>, ends: seq<TurnEnd>, prefix: seq<int>,
                          i: nat)
    requires Linked(p, worlds, turns, ends) && i < |turns|
  {
    var s := Begun(worlds[i], turns[i].now);
    if s.edit == CLEARED then !s.carry.endedCr || s.carry.pending != 0 || |s.doc| > |prefix|
    else if i > 0 && ends[i - 1].GivenUp? then
      assert TurnStep(p, worlds[i - 1], turns[i - 1], worlds[i], ends[i - 1]);
      s.edit.removable + (if Debt(s.edit, s.carry) then 1 else 0)
      <= Prospective(p, Begun(worlds[i - 1], turns[i - 1].now), turns[i - 1].inputs, ends[i - 1].confirmed)
    else true
  }

  ghost predicate TextTurns(p: Platform, turns: seq<Turn>) {
    forall i :: 0 <= i < |turns| ==> TextBatch(p, turns[i].inputs)
  }

  /** Before turn n of a run that was secured so far. */
  lemma {:induction false} SecuredSoFar(p: Platform, worlds: seq<World>, turns: seq<Turn>, ends: seq<TurnEnd>,
                                        prefix: seq<int>, n: nat)
    requires StandardBackspace(p) && TextTurns(p, turns) && Linked(p, worlds, turns, ends) && n <= |turns|
    requires Covered(worlds[0], prefix) && forall i :: 0 <= i < n ==> Secured(p, worlds, turns, ends, prefix, i)
    ensures prefix <= worlds[n].doc
    ensures n < |turns| && Secured(p, worlds, turns, ends, prefix, n) ==>
              Covered(Begun(worlds[n], turns[n].now), prefix)
  {
    hide TurnStep, TextBatch;
    if n > 0 {
      SecuredSoFar(p, worlds, turns, ends, prefix, n - 1);
      TurnKeepsPrefix(p, worlds[n - 1], turns[n - 1], worlds[n], ends[n - 1], prefix);
    }
  }

  /** The older text survives every run, with failed sends, lost connections,
      resets, expiry and batches given up, in which every turn is secured. */
  lemma SecuredRunKeepsPrefix(p: Platform, worlds: seq<World>, turns: seq<Turn>, ends: seq<TurnEnd>, prefix: seq<int>)
    requires StandardBackspace(p) && TextTurns(p, turns) && Linked(p, worlds, turns, ends)
    requires Covered(worlds[0], prefix)
    requires forall i :: 0 <= i < |turns| ==> Secured(p, worlds, turns, ends, prefix, i)
    ensures forall n :: 0 <= n < |worlds| ==> prefix <= worlds[n].doc
  {
    forall n | 0 <= n < |worlds| ensures prefix <= worlds[n].doc {
      SecuredSoFar(p, worlds, turns, ends, prefix, n);
    }
  }

  /** The first turn that is not secured finds the older text exposed: successful
      batches can delete its last character. */
  lemma UnsecuredTurnIsExposed(p: Platform, worlds: seq<World>, turns: seq<Turn>, ends: seq<TurnEnd>,
                               prefix: seq<int>, n: nat)
    requires StandardBackspace(p) && TextTurns(p, turns) && Linked(p, worlds, turns, ends) && n < |turns|
    requires Covered(worlds[0], prefix) && prefix != []
    requires forall i :: 0 <= i < n ==> Secured(p, worlds, turns, ends, prefix, i)
    requires !Secured(p, worlds, turns, ends, prefix, n)
    requires Begun(worlds[n], turns[n].now).edit == CLEARED || CoupledTurn(worlds, turns, ends, prefix, n - 1)
    ensures !PrefixSafe(p, Begun(worlds[n], turns[n].now), prefix)
  {
    hide TurnStep, TextBatch, PrefixSafe, Coupled;
    SecuredSoFar(p, worlds, turns, ends, prefix, n);
    var s := Begun(worlds[n], turns[n].now);
    if s.edit != CLEARED {
      SecuredSoFar(p, worlds, turns, ends, prefix, n - 1);
      GivenUpCredit(p, worlds[n - 1], turns[n - 1], worlds[n], ends[n - 1], prefix);
    }
    assert s.doc == prefix + s.doc[|prefix|..];
    SafeIff(p, s, prefix, s.doc[|prefix|..]);
  }

  /** The batch given up in turn i began with a credit that was exactly the tail. */
  ghost predicate CoupledTurn(worlds: seq<World>, turns: seq<Turn>, ends: seq<TurnEnd>, prefix: seq<int>, i: int) {
    && 0 <= i < |turns| && i < |worlds| && i < |ends| && ends[i].GivenUp?
    && var s := Begun(worlds[i], turns[i].now);
       && prefix <= s.doc && Coupled(s.edit, s.carry, s.doc[|prefix|..])
       && s.edit.removable + ends[i].confirmed <= MAXDWORD
  }

  lemma GivenUpCredit(p: Platform, w: World, turn: Turn, v: World, end: TurnEnd, prefix: seq<int>)
    requires StandardBackspace(p) && TextBatch(p, turn.inputs) && w.carry.Valid() && TurnStep(p, w, turn, v, end)
    requires Covered(Begun(w, turn.now), prefix) && end.GivenUp?
    requires Coupled(Begun(w, turn.now).edit, w.carry, w.doc[|prefix|..])
    requires Begun(w, turn.now).edit.removable + end.confirmed <= MAXDWORD
    ensures Prospective(p, Begun(w, turn.now), turn.inputs, end.confirmed) == |v.doc| - |prefix|
  {
    PartKeepsPrefix(p, Begun(w, turn.now), prefix, turn.inputs, end.confirmed);
  }

  /** Counted in inputs: an allowance that did not expire is secured when the
      confirmed inputs brought at least as many characters as Backspaces, and one
      more for a debt. */
  lemma SecuredByCounts(p: Platform, worlds: seq<World>, turns: seq<Turn>, ends: seq<TurnEnd>, prefix: seq<int>, n: nat)
    requires Linked(p, worlds, turns, ends) && 0 < n < |turns| && ends[n - 1].GivenUp?
    requires Begun(worlds[n], turns[n].now).edit == Begun(worlds[n - 1], turns[n - 1].now).edit != CLEARED
    requires Begun(worlds[n], turns[n].now).edit.removable + ends[n - 1].confirmed <= MAXDWORD
    ensures TurnStep(p, worlds[n - 1], turns[n - 1], worlds[n], ends[n - 1])
    ensures var s, inputs, k := Begun(worlds[n], turns[n].now), turns[n - 1].inputs, ends[n - 1].confirmed;
            Secured(p, worlds, turns, ends, prefix, n)
            <==> ForwardedPresses(p, s.edit, inputs, k) + (if Debt(s.edit, s.carry) then 1 else 0)
                 <= Characters(s.edit, inputs, k)
  {
    assert TurnStep(p, worlds[n - 1], turns[n - 1], worlds[n], ends[n - 1]);
    var s, inputs, k := Begun(worlds[n], turns[n].now), turns[n - 1].inputs, ends[n - 1].confirmed;
    CharactersBound(s.edit, inputs, k);
    ClampClosedForm(p, s.edit, inputs, k);
  }

  /** The broker itself over any batches: the run is linked from the first world
      to the last, so whatever happens to the batches, the older text survives if
      every turn is secured. */
  method AnyTurns(b: Broker, turns: seq<Turn>, ghost doc: seq<int>)
    returns (routes: seq<Route>, ghost worlds: seq<World>, ghost ends: seq<TurnEnd>)
    requires b.Valid()
    modifies b`connected, b`requests, b`edit, b.helper, b.helper.pressedKeys, b.helper.pressedButtons
    ensures b.Valid() && old(b.helper.injected) <= b.helper.injected
    ensures Linked(b.platform, worlds, turns, ends) && worlds[0] == old(WorldOf(b, doc))
    ensures worlds[|turns|] == WorldOf(b, Apply(doc, b.helper.injected[|old(b.helper.injected)|..]))
    ensures |routes| == |turns| && forall i :: 0 <= i < |turns| ==> (routes[i].Success? <==> ends[i].Delivered?)
    ensures StandardBackspace(b.platform) && TextTurns(b.platform, turns) ==>
              forall prefix: seq<int> ::
                Covered(worlds[0], prefix)
                && (forall i :: 0 <= i < |turns| ==> Secured(b.platform, worlds, turns, ends, prefix, i)) ==>
                  prefix <= Apply(doc, b.helper.injected[|old(b.helper.injected)|..])
  {
    hide Apply, TurnStep, Covered, Secured;
    ghost var start := b.helper.injected;
    routes, worlds, ends := [], [WorldOf(b, doc)], [];
    ApplyNothing(doc);
    assert b.helper.injected[|start|..] == [];
    for i := 0 to |turns|
      invariant b.Valid() && start <= b.helper.injected
      invariant Linked(b.platform, worlds, turns[..i], ends) && worlds[0] == old(WorldOf(b, doc))
      invariant worlds[i] == WorldOf(b, Apply(doc, b.helper.injected[|start|..]))
      invariant |routes| == i && forall k :: 0 <= k < i ==> (routes[k].Success? <==> ends[k].Delivered?)
    {
      ghost var before := b.helper.injected;
      ghost var v, end;
      var route;
      route, v, end := OneTurn(b, turns[i], worlds[i]);
      LinkOneMore(b.platform, worlds, turns[..i], ends, turns[i], v, end);
      assert turns[..i] + [turns[i]] == turns[..i + 1];
      routes, worlds, ends := routes + [route], worlds + [v], ends + [end];
      ApplyAppend(doc, before[|start|..], b.helper.injected[|before|..]);
      assert b.helper.injected[|start|..] == before[|start|..] + b.helper.injected[|before|..];
    }
    assert turns[..|turns|] == turns;
    if StandardBackspace(b.platform) && TextTurns(b.platform, turns) {
      forall prefix: seq<int> | Covered(worlds[0], prefix)
                                && forall i :: 0 <= i < |turns| ==> Secured(b.platform, worlds, turns, ends, prefix, i)
        ensures prefix <= worlds[|turns|].doc
      {
        SecuredRunKeepsPrefix(b.platform, worlds, turns, ends, prefix);
      }
    }
  }

  lemma LinkOneMore(p: Platform, worlds: seq<World>, turns: seq<Turn>, ends: seq<TurnEnd>, turn: Turn, v: World,
                    end: TurnEnd)
    requires Linked(p, worlds, turns, ends) && TurnStep(p, worlds[|turns|], turn, v, end)
    ensures Linked(p, worlds + [v], turns + [turn], ends + [end])
  {
    hide TurnStep;
    TurnLeadsToValid(p, worlds[|turns|], turn, v, end);
  }

  lemma TurnLeadsToValid(p: Platform, w: World, turn: Turn, v: World, end: TurnEnd)
    requires w.carry.Valid() && TurnStep(p, w, turn, v, end)
    ensures v.carry.Valid()
  {
  }

  lemma ApplyNothing(doc: seq<int>)
    ensures Apply(doc, []) == doc
  {
  }
}
