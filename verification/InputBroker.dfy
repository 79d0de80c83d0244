/** The broker: it sends a batch to the native helper or to the relay's
    SendInput, and never lets both act on the same batch. */
module InputBroker {
  import opened InputTypes
  import opened Basics
  import opened Utf16Text
  import opened SemanticEdit
  import opened ChordTranslator
  import opened X11Helper

  datatype Route = NotUsed | Success | Failed

  datatype TextMode = Auto | Keys | Clipboard

  /** Who acted on a batch that was accepted. */
  datatype Delivery = ByClipboard | ByX11 | ByRelay | Nothing | Undelivered

  predicate IsTextEvent(e: Event) { e.kind == X11_INPUT_TEXT }

  /** A request the broker builds: text events only, or none at all. */
  predicate Homogeneous(request: seq<Event>) {
    && 0 < |request| <= MAX_EVENTS
    && (forall i :: 0 <= i < |request| ==> IsTextEvent(request[i]) == IsTextEvent(request[0]))
  }

  function Flat(requests: seq<seq<Event>>): seq<Event> {
    if requests == [] then [] else Flat(requests[..|requests| - 1]) + requests[|requests| - 1]
  }

  lemma FlatSnoc(requests: seq<seq<Event>>, request: seq<Event>)
    ensures Flat(requests + [request]) == Flat(requests) + request
  {
    assert (requests + [request])[..|requests|] == requests;
  }

  /** What a run of accepted requests does, from the carry the helper had. */
  function RequestsEffect(c: Carry, requests: seq<seq<Event>>): (r: Option<(Carry, seq<Injection>)>)
    requires c.Valid() && forall i :: 0 <= i < |requests| ==> Homogeneous(requests[i])
    ensures r.Some? ==> r.value.0.Valid()
    decreases |requests|
  {
    if requests == [] then Some((c, []))
    else
      assert Homogeneous(requests[|requests| - 1]);
      match RequestsEffect(c, requests[..|requests| - 1])
      case None => None
      case Some((d, done)) =>
        match RequestEffect(d, requests[|requests| - 1])
        case None => None
        case Some((e, more)) => Some((e, done + more))
  }

  /** What requests may do at most when the last of them may have failed. */
  function Effects(c: Carry, requests: seq<seq<Event>>): seq<Injection>
    requires c.Valid() && forall i :: 0 <= i < |requests| ==> Homogeneous(requests[i])
    decreases |requests|
  {
    if requests == [] then []
    else
      assert Homogeneous(requests[|requests| - 1]);
      match RequestsEffect(c, requests[..|requests| - 1])
      case None => Effects(c, requests[..|requests| - 1])
      case Some((d, done)) => done + Effect(d, requests[|requests| - 1])
  }

  lemma EffectsOfAccepted(c: Carry, requests: seq<seq<Event>>)
    requires c.Valid() && forall i :: 0 <= i < |requests| ==> Homogeneous(requests[i])
    requires RequestsEffect(c, requests).Some?
    ensures Effects(c, requests) == RequestsEffect(c, requests).value.1
  {
  }

  lemma EffectsSnoc(c: Carry, requests: seq<seq<Event>>, request: seq<Event>)
    requires c.Valid() && Homogeneous(request) && forall i :: 0 <= i < |requests| ==> Homogeneous(requests[i])
    requires RequestsEffect(c, requests).Some?
    ensures Effects(c, requests + [request])
            == RequestsEffect(c, requests).value.1 + Effect(RequestsEffect(c, requests).value.0, request)
  {
    assert (requests + [request])[..|requests|] == requests;
  }

  lemma {:induction false} BackspaceAfterAppend(keymap: Keymap, held: bool, a: seq<Event>, b: seq<Event>, n: nat)
    requires n <= |b|
    ensures BackspaceAfter(keymap, held, a + b, |a| + n)
            == BackspaceAfter(keymap, BackspaceAfter(keymap, held, a, |a|), b, n)
  {
    if n == 0 {
      BackspaceAfterPrefix(keymap, held, a, a + b, |a|);
    } else {
      BackspaceAfterAppend(keymap, held, a, b, n - 1);
      assert (a + b)[|a| + n - 1] == b[n - 1];
    }
  }

  lemma {:induction false} BackspaceAfterPrefix(keymap: Keymap, held: bool, a: seq<Event>, es: seq<Event>, n: nat)
    requires n <= |a| && a <= es
    ensures BackspaceAfter(keymap, held, es, n) == BackspaceAfter(keymap, held, a, n)
  {
    if n > 0 {
      BackspaceAfterPrefix(keymap, held, a, es, n - 1);
    }
  }

  lemma NothingSent(keymap: Keymap, held: bool)
    ensures BackspaceAfter(keymap, held, Flat([]), 0) == held && Flat([]) == []
  {
  }

  lemma RequestsEffectSnoc(c: Carry, requests: seq<seq<Event>>, request: seq<Event>, d: Carry, done: seq<Injection>)
    requires c.Valid() && Homogeneous(request) && forall i :: 0 <= i < |requests| ==> Homogeneous(requests[i])
    requires RequestsEffect(c, requests) == Some((d, done)) && RequestEffect(d, request).Some?
    ensures RequestsEffect(c, requests + [request]) ==
            Some((RequestEffect(d, request).value.0, done + RequestEffect(d, request).value.1))
  {
    assert (requests + [request])[..|requests|] == requests;
  }

  /** The successful outcome of a clipboard batch: the requests sent are the
      clamped batch, in order, and the helper did exactly what they say. */
  ghost predicate ClipboardDelivered(p: Platform, edit: EditState, now: nat, inputs: seq<Input>,
                                     sent: seq<seq<Event>>,
                                     before: Carry, after: Carry, added: seq<Injection>, next: EditState, clamped: nat)
    requires before.Valid()
  {
    && ClampTo(p, Expire(edit, now), inputs, |inputs|).Some?
    && var a := ClampTo(p, Expire(edit, now), inputs, |inputs|).value;
       && Flat(sent) == a.events
       && (forall i :: 0 <= i < |sent| ==> Homogeneous(sent[i]))
       && RequestsEffect(before, sent) == Some((after, added))
       && clamped == a.clamped
       && next == a.state.(updatedMs := next.updatedMs)
  }

  predicate NeedsClipboard(p: Platform, character: Word) {
    character == CR || character == LF || character == TAB || character >= 0x80 || p.vkKeyScan(character).NoKey?
  }

  /** phone_text_uses_clipboard: the batch presses a character, and the mode, a
      Backspace or a character without a plain key asks for the clipboard. */
  predicate UsesClipboard(p: Platform, configured: bool, mode: TextMode, inputs: seq<Input>) {
    && configured && mode != Keys
    && (exists i :: 0 <= i < |inputs| && inputs[i].UnicodePress())
    && (mode == Clipboard
        || (exists i :: 0 <= i < |inputs| && IsBackspace(inputs[i]))
        || (exists i :: 0 <= i < |inputs| && inputs[i].UnicodePress() && inputs[i].scan != BACKSPACE
                        && NeedsClipboard(p, inputs[i].scan)))
  }

  method PhoneTextUsesClipboard(p: Platform, configured: bool, mode: TextMode, inputs: seq<Input>)
    returns (uses: bool)
    ensures uses <==> UsesClipboard(p, configured, mode, inputs)
  {
    if !configured || mode == Keys {
      return false;
    }
    var hasPress, requiresClipboard := false, false;
    for index := 0 to |inputs|
      invariant hasPress <==> exists i :: 0 <= i < index && inputs[i].UnicodePress()
      invariant mode != Clipboard ==>
                  (requiresClipboard <==>
                     (exists i :: 0 <= i < index && IsBackspace(inputs[i]))
                     || (exists i :: 0 <= i < index && inputs[i].UnicodePress() && inputs[i].scan != BACKSPACE
                                     && NeedsClipboard(p, inputs[i].scan)))
    {
      var input := inputs[index];
      if IsBackspace(input) {
        requiresClipboard := true;
      }
      if !input.UnicodePress() {
        continue;
      }
      hasPress := true;
      if input.scan == BACKSPACE || mode == Clipboard {
        continue;
      }
      if NeedsClipboard(p, input.scan) {
        requiresClipboard := true;
      }
    }
    return hasPress && (mode == Clipboard || requiresClipboard);
  }

  /** The X11 form of a whole batch, or None when one input has none. */
  function X11EventsTo(p: Platform, inputs: seq<Input>, n: nat): Option<seq<Event>>
    requires n <= |inputs|
  {
    if n == 0 then Some([])
    else match X11EventsTo(p, inputs, n - 1)
      case None => None
      case Some(events) => match ToX11Event(p, inputs[n - 1]) case None => None case Some(e) => Some(events + [e])
  }

  /** What the ordinary route may inject at most. */
  function KeysEffect(p: Platform, inputs: seq<Input>): seq<Injection> {
    match X11EventsTo(p, inputs, |inputs|) case None => [] case Some(events) => InjectedAll(events)
  }

  /** The inputs that a batch becomes on that route. */
  function Translated(p: Platform, source: seq<Input>): seq<Input> {
    match TranslateTo(p, source, |source|) case None => [] case Some(t) => t.inputs
  }

  /** What had been confirmed and done when a batch began. */
  datatype Snapshot = Snapshot(requests: seq<seq<Event>>, carry: Carry, server: seq<ServerEvent>,
                               injected: seq<Injection>) {
    predicate Held() { BACKSPACE_KEYCODE in HeldKeys(server) }
  }

  /** How far a clipboard batch got: the requests tried are the events of its
      first `inputs` inputs, the last request perhaps without success, unless the
      batch was given up before a request failed. */
  datatype Attempt = Attempt(inputs: nat, requests: seq<seq<Event>>, gaveUp: bool)

  predicate Attempted(p: Platform, start: EditState, inputs: seq<Input>, attempt: Attempt) {
    && attempt.inputs <= |inputs|
    && ClampTo(p, start, inputs, attempt.inputs).Some?
    && Flat(attempt.requests) == ClampTo(p, start, inputs, attempt.inputs).value.events
    && forall i :: 0 <= i < |attempt.requests| ==> Homogeneous(attempt.requests[i])
  }

  lemma {:induction false} TilesWithin(segments: seq<Segment>, end: nat, index: nat)
    requires Tiles(segments, end) && index < |segments|
    ensures segments[index].offset + segments[index].count <= end
    decreases |segments| - index
  {
    if index + 1 < |segments| { TilesWithin(segments, end, index + 1); }
  }

  /** What becomes of one input of a clipboard batch. */
  datatype Admission = Skip | Stop | Take(event: Event)

  /** The per-input part of send_x11_clipboard_text: the allowance, the event and the credit. */
  method Admit(p: Platform, input: Input, a: Clamp) returns (admission: Admission, b: Clamp)
    ensures match admission
            case Stop => ClampInput(p, a, input).None?
            case Skip => ClampInput(p, a, input) == Some(b) && b.events == a.events
            case Take(event) =>
              ClampInput(p, a, input) == Some(b.(events := a.events + [event])) && b.events == a.events
  {
    b := a;
    if IsBackspace(input) {
      if input.KeyUp() {
        if !b.pressForwarded {
          return Skip, b;
        }
        b := b.(pressForwarded := false);
      } else {
        if b.state.removable == 0 {
          b := b.(clamped := b.clamped + 1);
          return Skip, b;
        }
        b := b.(state := b.state.(removable := b.state.removable - 1), pressForwarded := true);
      }
    }
    if input.Unicode() && input.scan != BACKSPACE {
      if input.KeyUp() {
        return Skip, b;
      }
      var credited := CreditSemanticText(b.state, [input]);
      assert CreditTo(b.state, [input], 1) == CreditInput(CreditTo(b.state, [input], 0), input);
      b := b.(state := credited);
      return Take(TextEvent(input.scan)), b;
    }
    var key := ToX11Event(p, if input.Unicode() then EditingKey(input) else input);
    if key.None? {
      return Stop, b;
    }
    BackspaceNeverCredits(b.state, input);
    return Take(key.value), b;
  }

  class Broker {
    const platform: Platform
    const x11Configured: bool
    const semanticOnly: bool
    const textMode: TextMode
    const helper: Session
    var connected: bool
    var edit: EditState
    ghost var requests: seq<seq<Event>>  // confirmed by the helper
    ghost var relayed: seq<Input>        // accepted by SendInput

    ghost predicate Valid()
      reads this`connected, helper, helper.pressedKeys, helper.pressedButtons
    {
      helper.Valid() && (!connected ==> helper.Idle())
    }

    constructor (platform: Platform, x11Configured: bool, semanticOnly: bool, textMode: TextMode, helper: Session)
      requires helper.Valid() && helper.Idle()
      ensures Valid() && edit == CLEARED && requests == [] && relayed == []
      ensures this.helper == helper && this.platform == platform
    {
      this.platform, this.x11Configured, this.semanticOnly := platform, x11Configured, semanticOnly;
      this.textMode, this.helper, this.connected := textMode, helper, false;
      this.edit := CLEARED;
      requests, relayed := [], [];
    }

    /** Closing the socket ends the helper's session. */
    method Close()
      requires Valid()
      modifies this`connected, helper, helper.pressedKeys, helper.pressedButtons
      ensures Valid() && !connected && helper.injected == old(helper.injected)
    {
      helper.EndSession();
      connected := false;
    }

    /** send_x11_events. Connecting, the socket option, the write and the reply
        may each fail; a request whose write or reply failed may still have been served. */
    method SendX11Events(events: seq<Event>) returns (route: Route)
      requires Valid()
      modifies this`connected, this`requests, helper, helper.pressedKeys, helper.pressedButtons
      ensures Valid()
      ensures route.NotUsed? ==> helper.server == old(helper.server) && helper.injected == old(helper.injected)
      ensures !route.Success? ==> requests == old(requests)
      ensures old(helper.injected) <= helper.injected
      ensures helper.injected
              <= old(helper.injected) + if events == [] then [] else Effect(old(helper.CarryNow()), events)
      ensures route.Success? && helper.PlainChord() ==>
                helper.BackspaceHeld() == BackspaceAfter(helper.keymap, old(helper.BackspaceHeld()), events, |events|)
      ensures route.Success? ==>
                && 0 < |events| <= MAX_EVENTS
                && requests == old(requests) + [events]
                && RequestEffect(old(helper.CarryNow()), events).Some?
                && RequestEffect(old(helper.CarryNow()), events).value.0 == helper.CarryNow()
                && helper.injected == old(helper.injected) + RequestEffect(old(helper.CarryNow()), events).value.1
    {
      if !x11Configured || events == [] || |events| > MAX_EVENTS {
        return NotUsed;
      }
      if !connected {
        var accepted: bool := *;
        if !accepted {
          return NotUsed;
        }
        connected := true;
      }
      var optionSet: bool := *;
      if !optionSet {
        Close();
        return Failed;
      }
      var reached: bool := *;
      var answered: bool := *;
      if !reached {
        Close();
        return Failed;
      }
      var result, error := helper.Serve(events);
      if !answered {
        Close();
        return Failed;
      }
      if result == |events| && error == ERROR_NONE {
        requests := requests + [events];
        return Success;
      }
      if result == 0 && error == ERROR_UNSUPPORTED {
        return NotUsed;
      }
      return Failed;
    }

    /** The requests `sent` since `base` have been confirmed and had the effect
        `done`; before the first of them the helper has not been touched. */
    ghost predicate Sending(base: Snapshot, sent: seq<seq<Event>>, done: seq<Injection>)
      requires base.carry.Valid()
      reads this, helper, helper.pressedKeys, helper.pressedButtons
    {
      && Valid()
      && requests == base.requests + sent
      && (forall i :: 0 <= i < |sent| ==> Homogeneous(sent[i]))
      && RequestsEffect(base.carry, sent) == Some((helper.CarryNow(), done))
      && helper.injected == base.injected + done
      && (helper.PlainChord() ==>
            helper.BackspaceHeld() == BackspaceAfter(helper.keymap, base.Held(), Flat(sent), |Flat(sent)|))
      && (sent == [] ==> Untouched(base))
    }

    /** Whatever became of the requests tried since `base`, the helper has done a
        first part of what they say. */
    ghost predicate AtMost(base: Snapshot, tried: seq<seq<Event>>)
      requires base.carry.Valid() && forall i :: 0 <= i < |tried| ==> Homogeneous(tried[i])
      reads helper
    {
      base.injected <= helper.injected <= base.injected + Effects(base.carry, tried)
    }

    ghost predicate Untouched(base: Snapshot)
      reads this, helper
    {
      helper.server == base.server && helper.injected == base.injected
    }

    /** Sends the segment collected so far. */
    method Flush(events: seq<Event>, ghost base: Snapshot, ghost sent: seq<seq<Event>>, ghost done: seq<Injection>)
      returns (route: Route, ghost sent': seq<seq<Event>>, ghost done': seq<Injection>)
      requires Homogeneous(events) && base.carry.Valid() && Sending(base, sent, done)
      modifies this`connected, this`requests, helper, helper.pressedKeys, helper.pressedButtons
      ensures Valid() && base.requests <= requests
      ensures route.Success? ==> sent' == sent + [events] && Sending(base, sent', done')
      ensures route.NotUsed? && sent == [] ==> Untouched(base)
      ensures AtMost(base, sent + [events])
    {
      hide RequestsEffect, Effects, BackspaceAfter, Flat, HeldKeys;
      EffectsSnoc(base.carry, sent, events);
      FlatSnoc(sent, events);
      route := SendX11Events(events);
      sent', done' := sent, done;
      assert base.injected + (done + Effect(old(helper.CarryNow()), events))
             == base.injected + done + Effect(old(helper.CarryNow()), events);
      if route.Success? {
        BackspaceAfterAppend(helper.keymap, base.Held(), Flat(sent), events, |events|);
        RequestsEffectSnoc(base.carry, sent, events, old(helper.CarryNow()), done);
        sent' := sent + [events];
        done' := done + RequestEffect(old(helper.CarryNow()), events).value.1;
      }
    }

    /** Adds an event to the segment, sending the segment first when its kind changes. */
    method Enqueue(event: Event, events: seq<Event>, ghost base: Snapshot, ghost sent: seq<seq<Event>>,
                   ghost done: seq<Injection>)
      returns (route: Route, flushed: bool, events': seq<Event>, ghost sent': seq<seq<Event>>,
               ghost done': seq<Injection>)
      requires base.carry.Valid() && Sending(base, sent, done)
      requires |events| < MAX_EVENTS && (events != [] ==> Homogeneous(events))
      modifies this`connected, this`requests, helper, helper.pressedKeys, helper.pressedButtons
      ensures Valid() && base.requests <= requests
      ensures route.Success? ==>
                && Sending(base, sent', done') && (sent' != [] <==> sent != [] || flushed)
                && Homogeneous(events') && |events'| <= |events| + 1
                && Flat(sent') + events' == Flat(sent) + events + [event]
                && (flushed ==> Flat(sent') == Flat(sent) + events)
                && (!flushed ==> sent' == sent)
      ensures !route.Success? ==> events != [] && AtMost(base, sent + [events])
      ensures route.NotUsed? && sent == [] ==> Untouched(base)
    {
      route, flushed, events', sent', done' := Success, false, events, sent, done;
      if events != [] && IsTextEvent(event) != IsTextEvent(events[0]) {
        route, sent', done' := Flush(events, base, sent, done);
        if !route.Success? { return; }
        FlatSnoc(sent, events);
        flushed, events' := true, [];
      }
      assert Flat(sent') + events' + [event] == Flat(sent') + (events' + [event]);
      assert Flat(sent') + events' == Flat(sent) + events;
      events' := events' + [event];
    }

    /** Between two inputs of a clipboard batch: the events of the first
        `confirmed` inputs are confirmed, those of the others wait in `events`. */
    ghost predicate InLoop(base: Snapshot, start: EditState, inputs: seq<Input>, index: nat, a: Clamp,
                           events: seq<Event>,
                           sent: seq<seq<Event>>, confirmed: nat, done: seq<Injection>)
      reads this, helper, helper.pressedKeys, helper.pressedButtons
    {
      && base.carry.Valid() && Sending(base, sent, done)
      && index <= |inputs| && ClampTo(platform, start, inputs, index) == Some(a) && a.events == Flat(sent) + events
      && Attempted(platform, start, inputs, Attempt(confirmed, sent, true))
      && |events| <= index && (events != [] ==> Homogeneous(events))
    }

    /** One admitted event. */
    method TakeEvent(inputs: seq<Input>, start: EditState, index: nat, a: Clamp, b: Clamp, event: Event,
                     events: seq<Event>,
                     ghost base: Snapshot, ghost sent: seq<seq<Event>>, ghost confirmed: nat,
                     ghost done: seq<Injection>)
      returns (route: Route, flushed: bool, events': seq<Event>,
               ghost sent': seq<seq<Event>>, ghost confirmed': nat, ghost done': seq<Injection>)
      requires InLoop(base, start, inputs, index, a, events, sent, confirmed, done)
      requires index < |inputs| <= MAX_EVENTS && b.events == a.events + [event]
      requires ClampTo(platform, start, inputs, index + 1) == Some(b)
      modifies this`connected, this`requests, helper, helper.pressedKeys, helper.pressedButtons
      ensures Valid() && base.requests <= requests
      ensures route.Success? ==>
                InLoop(base, start, inputs, index + 1, b, events', sent', confirmed', done')
                && (sent' != [] <==> sent != [] || flushed)
      ensures !route.Success? ==>
                Attempted(platform, start, inputs, Attempt(index, sent + [events], false))
                && AtMost(base, sent + [events])
      ensures route.NotUsed? && sent == [] ==> Untouched(base)
    {
      hide RequestsEffect, Effects, BackspaceAfter, HeldKeys, ClampTo, Flat;
      FlatSnoc(sent, events);
      route, flushed, events', sent', done' := Enqueue(event, events, base, sent, done);
      confirmed' := if flushed then index else confirmed;
      assert Flat(sent) + events + [event] == a.events + [event];
    }

    /** The sending loop of send_x11_clipboard_text; the credit it computes is
        only prospective until the whole batch has passed. */
    method SendSegments(inputs: seq<Input>, start: EditState, ghost base: Snapshot)
      returns (route: Route, stopped: bool, a: Clamp, ghost attempt: Attempt, ghost done: seq<Injection>)
      requires |inputs| <= MAX_EVENTS && base.carry.Valid() && Sending(base, [], [])
      modifies this`connected, this`requests, helper, helper.pressedKeys, helper.pressedButtons
      ensures Valid() && base.requests <= requests
      ensures Attempted(platform, start, inputs, attempt) && AtMost(base, attempt.requests)
      ensures attempt.gaveUp == stopped && (stopped || route.Success? ==> Sending(base, attempt.requests, done))
      ensures route.NotUsed? ==> Untouched(base)
      ensures stopped ==> !route.Success? && ClampTo(platform, start, inputs, |inputs|).None?
      ensures route.Success? ==> attempt.inputs == |inputs| && ClampTo(platform, start, inputs, |inputs|) == Some(a)
    {
      hide RequestsEffect, Effects, BackspaceAfter, HeldKeys, ClampInput, AtMost;
      ghost var sent: seq<seq<Event>>, confirmed: nat := [], 0;
      done, a, stopped := [], ClampStart(start), false;
      var events: seq<Event> := [];
      var sentAny := false;
      for index := 0 to |inputs|
        invariant InLoop(base, start, inputs, index, a, events, sent, confirmed, done) && sentAny == (sent != [])
      {
        var admission, b := Admit(platform, inputs[index], a);
        if admission.Stop? {
          ClampStuck(platform, start, inputs, index + 1, |inputs|);
          ConfirmedIsAtMost(base, sent, done);
          attempt := Attempt(confirmed, sent, true);
          stopped, route := true, if sentAny then Failed else NotUsed;
          return;
        }
        if admission.Skip? {
          a := b;
          continue;
        }
        b := b.(events := b.events + [admission.event]);
        ghost var tried := sent + [events];
        var flushed;
        route, flushed, events, sent, confirmed, done :=
          TakeEvent(inputs, start, index, a, b, admission.event, events, base, sent, confirmed, done);
        if !route.Success? {
          attempt := Attempt(index, tried, false);
          route := if sentAny then Failed else route;
          return;
        }
        sentAny := sentAny || flushed;
        a := b;
      }
      route, attempt, done := LastSegment(inputs, start, a, events, base, sent, done);
      route := if !route.Success? && sentAny then Failed else route;
    }

    lemma ConfirmedIsAtMost(base: Snapshot, sent: seq<seq<Event>>, done: seq<Injection>)
      requires base.carry.Valid() && Sending(base, sent, done)
      ensures AtMost(base, sent)
    {
      EffectsOfAccepted(base.carry, sent);
    }

    /** What is left to send when all inputs have been looked at. */
    method LastSegment(inputs: seq<Input>, start: EditState, a: Clamp, events: seq<Event>,
                       ghost base: Snapshot, ghost sent: seq<seq<Event>>, ghost done: seq<Injection>)
      returns (route: Route, ghost attempt: Attempt, ghost done': seq<Injection>)
      requires base.carry.Valid() && Sending(base, sent, done) && (events != [] ==> Homogeneous(events))
      requires ClampTo(platform, start, inputs, |inputs|) == Some(a) && a.events == Flat(sent) + events
      modifies this`connected, this`requests, helper, helper.pressedKeys, helper.pressedButtons
      ensures Valid() && base.requests <= requests
      ensures Attempted(platform, start, inputs, attempt) && AtMost(base, attempt.requests)
      ensures attempt.inputs == |inputs| && !attempt.gaveUp
              && (route.Success? ==> Sending(base, attempt.requests, done'))
      ensures route.NotUsed? && sent == [] ==> Untouched(base)
    {
      hide RequestsEffect, Effects, BackspaceAfter, HeldKeys, ClampTo, Flat;
      if events != [] {
        FlatSnoc(sent, events);
        attempt := Attempt(|inputs|, sent + [events], false);
        ghost var now;
        route, now, done' := Flush(events, base, sent, done);
      } else {
        assert Flat(sent) + [] == Flat(sent);
        ConfirmedIsAtMost(base, sent, done);
        route, attempt, done' := Success, Attempt(|inputs|, sent, false), done;
      }
    }

    /** send_x11_clipboard_text. Whatever happens, the helper has done a first
        part of the batch; a batch given up leaves it exactly there, with the
        allowance as it was. */
    method SendX11ClipboardText(inputs: seq<Input>, now: nat, later: nat)
      returns (route: Route, clamped: nat, ghost attempt: Attempt)
      requires Valid()
      modifies this`connected, this`requests, this`edit, helper, helper.pressedKeys, helper.pressedButtons
      ensures Valid() && old(requests) <= requests
      ensures Attempted(platform, Expire(old(edit), now), inputs, attempt)
      ensures old(helper.injected) <= helper.injected
      ensures helper.injected <= old(helper.injected) + Effects(old(helper.CarryNow()), attempt.requests)
      ensures route.NotUsed? ==> helper.server == old(helper.server) && helper.injected == old(helper.injected)
      ensures !route.Success? ==> if attempt.gaveUp then edit == old(edit) else edit == CLEARED
      ensures attempt.gaveUp ==>
                && !route.Success?
                && RequestsEffect(old(helper.CarryNow()), attempt.requests)
                   == Some((helper.CarryNow(), helper.injected[|old(helper.injected)|..]))
      ensures attempt.gaveUp ==>
                !x11Configured || inputs == [] || |inputs| > MAX_EVENTS
                || ClampTo(platform, Expire(old(edit), now), inputs, |inputs|).None?
      ensures route.Success? ==>
                && edit.updatedMs == later
                && ClipboardDelivered(platform, old(edit), now, inputs, requests[|old(requests)|..],
                                      old(helper.CarryNow()), helper.CarryNow(),
                                      helper.injected[|old(helper.injected)|..], edit, clamped)
      ensures route.Success? && helper.PlainChord() ==>
                var events := ClampTo(platform, Expire(old(edit), now), inputs, |inputs|).value.events;
                helper.BackspaceHeld() == BackspaceAfter(helper.keymap, old(helper.BackspaceHeld()), events, |events|)
    {
      hide Effects, BackspaceAfter, HeldKeys, ClampInput;
      if !x11Configured || inputs == [] || |inputs| > MAX_EVENTS {
        assert helper.injected[|helper.injected|..] == [];
        return NotUsed, 0, Attempt(0, [], true);
      }
      ghost var base := Snapshot(requests, helper.CarryNow(), helper.server, helper.injected);
      assert base.requests + [] == base.requests && base.injected + [] == base.injected;
      NothingSent(helper.keymap, base.Held());
      var stopped, a;
      ghost var done;
      route, stopped, a, attempt, done := SendSegments(inputs, Expire(edit, now), base);
      clamped := a.clamped;
      if route.Success? {
        edit := a.state.(updatedMs := later);
        assert requests[|old(requests)|..] == attempt.requests;
      } else if !stopped {
        edit := CLEARED;
      }
      assert route.Success? || stopped ==> helper.injected[|old(helper.injected)|..] == done;
    }

    /** send_x11_inputs: the ordinary route, all of the batch in one request. */
    method SendX11Inputs(inputs: seq<Input>) returns (route: Route)
      requires Valid()
      modifies this`connected, this`requests, helper, helper.pressedKeys, helper.pressedButtons
      ensures Valid() && old(requests) <= requests
      ensures route.NotUsed? ==> helper.server == old(helper.server) && helper.injected == old(helper.injected)
      ensures old(helper.injected) <= helper.injected <= old(helper.injected) + KeysEffect(platform, inputs)
      ensures route.Success? ==>
                && X11EventsTo(platform, inputs, |inputs|).Some?
                && requests == old(requests) + [X11EventsTo(platform, inputs, |inputs|).value]
                && helper.injected == old(helper.injected) + InjectedAll(X11EventsTo(platform, inputs, |inputs|).value)
    {
      if !x11Configured || semanticOnly || inputs == [] || |inputs| > MAX_EVENTS {
        return NotUsed;
      }
      var events: seq<Event> := [];
      for index := 0 to |inputs|
        invariant X11EventsTo(platform, inputs, index) == Some(events)
        invariant |events| == index && forall i :: 0 <= i < index ==> !IsTextEvent(events[i])
      {
        var event := ToX11Event(platform, inputs[index]);
        if event.None? {
          return NotUsed;
        }
        events := events + [event.value];
      }
      route := SendX11Events(events);
    }

    /** How many of `length` inputs the system takes. */
    static method SendInput(length: nat) returns (accepted: nat)
      ensures accepted <= length
    {
      var some: int := *;
      accepted := if 0 <= some <= length then some else length;
    }

    /** The RDP route: one SendInput call a segment, given up at the first short one. */
    method Relay(ghost t: Translation, translated: array<Input>, count: nat, segments: array<Segment>,
                 segmentCount: nat)
      returns (ok: bool)
      requires count <= translated.Length && segmentCount <= segments.Length
      requires t == Translation(translated[..count], segments[..segmentCount], 0) && Tiles(t.segments, |t.inputs|)
      modifies this`relayed
      ensures old(relayed) <= relayed <= old(relayed) + t.inputs
      ensures ok ==> relayed == old(relayed) + t.inputs
    {
      var end := 0;
      for index := 0 to segmentCount
        invariant end == (if index == 0 then 0 else t.segments[index - 1].offset + t.segments[index - 1].count)
        invariant end <= count && relayed == old(relayed) + translated[..end]
      {
        var segment := segments[index];
        assert segment == t.segments[index] && t.segments[index].offset == end && |t.inputs| == count;
        TilesWithin(t.segments, |t.inputs|, index);
        var accepted := SendInput(segment.count);
        relayed := relayed + translated[end..end + accepted];
        assert translated[..end + accepted] == translated[..end] + translated[end..end + accepted];
        assert translated[..end + accepted] <= t.inputs;
        if accepted != segment.count {
          return false;
        }
        end := end + segment.count;
      }
      assert translated[..end] == t.inputs;
      return true;
    }

    /** What a batch that went out as keys leaves of the allowance. */
    method CreditKeys(source: seq<Input>, normalized: bool, now: nat, later: nat)
      modifies this`edit
      ensures edit
              == if normalized then CreditTo(Expire(old(edit), now), source, |source|).(updatedMs := later) else CLEARED
    {
      if normalized {
        edit := CreditSemanticText(Expire(edit, now), source);
        edit := edit.(updatedMs := later);
      } else {
        edit := CLEARED;
      }
    }

    /** The part of send_relay_inputs behind the clipboard route. */
    method SendTranslated(source: seq<Input>, now: nat, later: nat) returns (result: nat, delivery: Delivery)
      requires Valid() && |source| <= MAX_EVENTS
      modifies this`connected, this`requests, this`edit, this`relayed, helper, helper.pressedKeys, helper.pressedButtons
      ensures Valid() && old(requests) <= requests && old(relayed) <= relayed
      ensures relayed == old(relayed)
              || (helper.injected == old(helper.injected) && helper.server == old(helper.server))
      ensures result == if delivery.Undelivered? then 0 else |source|
      ensures old(helper.injected) <= helper.injected
      ensures helper.injected <= old(helper.injected) + KeysEffect(platform, Translated(platform, source))
      ensures relayed <= old(relayed) + Translated(platform, source)
      ensures !delivery.ByClipboard?
      ensures TranslateTo(platform, source, |source|).None? ==> delivery.Undelivered?
      ensures TranslateTo(platform, source, |source|).Some? ==>
                var t := TranslateTo(platform, source, |source|).value.inputs;
                && (delivery.Nothing? <==> t == [])
                && (delivery.ByRelay? ==> relayed == old(relayed) + t)
                && (delivery.ByX11? ==>
                      && relayed == old(relayed) && X11EventsTo(platform, t, |t|).Some?
                      && helper.injected == old(helper.injected) + InjectedAll(X11EventsTo(platform, t, |t|).value))
      ensures delivery.ByX11? || delivery.ByRelay? ==>
                edit == if AnyUnicode(source, |source|)
                        then CreditTo(Expire(old(edit), now), source, |source|).(updatedMs := later)
                        else CLEARED
    {
      hide Valid, CreditTo, X11EventsTo, InjectedAll, AnyUnicode, HeldKeys;
      var translated := new Input[MAX_TRANSLATED](_ => Hardware);
      var segments := new Segment[MAX_SEGMENTS](_ => Segment(0, 0, false));
      var ok, count, segmentCount, normalized := TranslateInputs(platform, source, translated, segments);
      if !ok {
        return 0, Undelivered;
      }
      if count == 0 {
        return |source|, Delivery.Nothing;
      }
      ghost var t := TranslateTo(platform, source, |source|).value;
      var route := SendX11Inputs(translated[..count]);
      if route.Success? {
        CreditKeys(source, normalized, now, later);
        return |source|, ByX11;
      }
      if route.Failed? {
        edit := CLEARED;
        return 0, Undelivered;
      }
      var focused: bool := *;
      if !focused {
        return 0, Undelivered;
      }
      SegmentsTile(platform, source, |source|);
      CloseKeepsWellCut(platform, t);
      var relayedAll := Relay(t.Close(), translated, count, segments, segmentCount);
      if !relayedAll {
        return 0, Undelivered;
      }
      CreditKeys(source, normalized, now, later);
      return |source|, ByRelay;
    }

    /** send_relay_inputs: at most one of the helper and the relay acts on the
        batch, what acted did a first part of it, and an accepted batch has been
        delivered whole, once. */
    method SendRelayInputs(source: seq<Input>, now: nat, later: nat)
      returns (result: nat, delivery: Delivery, ghost attempt: Attempt)
      requires Valid() && |source| <= MAX_EVENTS
      modifies this`connected, this`requests, this`edit, this`relayed, helper, helper.pressedKeys, helper.pressedButtons
      ensures Valid() && old(requests) <= requests
      ensures old(relayed) <= relayed <= old(relayed) + Translated(platform, source)
      ensures relayed == old(relayed)
              || (helper.injected == old(helper.injected) && helper.server == old(helper.server))
      ensures Attempted(platform, Expire(old(edit), now), source, attempt) && old(helper.injected) <= helper.injected
      ensures helper.injected <= old(helper.injected) + Effects(old(helper.CarryNow()), attempt.requests)
              || helper.injected <= old(helper.injected) + KeysEffect(platform, Translated(platform, source))
      ensures result == if delivery.Undelivered? then 0 else |source|
      ensures delivery.ByClipboard? ==>
                && relayed == old(relayed)
                && exists clamped: nat ::
                     ClipboardDelivered(platform, old(edit), now, source, requests[|old(requests)|..],
                                        old(helper.CarryNow()), helper.CarryNow(),
                                        helper.injected[|old(helper.injected)|..], edit, clamped)
      ensures delivery.ByX11? || delivery.ByRelay? || delivery.Nothing? ==>
                TranslateTo(platform, source, |source|).Some?
      ensures delivery.ByX11? ==>
                var t := TranslateTo(platform, source, |source|).value.inputs;
                && relayed == old(relayed) && X11EventsTo(platform, t, |t|).Some?
                && helper.injected == old(helper.injected) + InjectedAll(X11EventsTo(platform, t, |t|).value)
      ensures delivery.ByRelay? ==> relayed == old(relayed) + TranslateTo(platform, source, |source|).value.inputs
      ensures delivery.Nothing? ==> TranslateTo(platform, source, |source|).value.inputs == []
      ensures delivery.ByX11? || delivery.ByRelay? ==> edit == CLEARED || edit.updatedMs == later
    {
      attempt := Attempt(0, [], true);
      var usesClipboard := PhoneTextUsesClipboard(platform, x11Configured, textMode, source);
      if usesClipboard {
        if semanticOnly {
          var focused: bool := *;
          if !focused {
            return 0, Undelivered, attempt;
          }
        }
        var route, clamped;
        route, clamped, attempt := SendX11ClipboardText(source, now, later);
        if route.Success? {
          return |source|, ByClipboard, attempt;
        }
        if route.Failed? {
          return 0, Undelivered, attempt;
        }
      }
      result, delivery := SendTranslated(source, now, later);
    }
  }
}
