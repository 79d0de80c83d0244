/** Broker and helper together: revision Backspaces delete only characters the
    broker has put into the document itself. */
module RevisionSafety {
  import opened InputTypes
  import opened Basics
  import opened Utf16Text
  import opened SemanticEdit
  import opened X11Helper
  import opened InputBroker

  // ----- The document -----

  const BACKSPACE_SCAN: Word := 0x0E

  predicate BackspacePress(e: Event) {
    e.kind == X11_INPUT_KEYBOARD && e.scan == BACKSPACE_SCAN && !e.KeyUp() && KEYEVENTF_EXTENDED !in e.flags
  }

  function DropLast(doc: seq<int>): seq<int> { if doc == [] then [] else doc[..|doc| - 1] }

  /** A paste appends, a Backspace press removes the last character. */
  function Apply(doc: seq<int>, done: seq<Injection>): seq<int>
    decreases |done|
  {
    if done == [] then doc
    else
      var before := Apply(doc, done[..|done| - 1]);
      match done[|done| - 1]
      case Pasted(cps) => before + cps
      case Injected(e) => if BackspacePress(e) then DropLast(before) else before
  }

  lemma {:induction false} ApplyAppend(doc: seq<int>, a: seq<Injection>, b: seq<Injection>)
    ensures Apply(doc, a + b) == Apply(Apply(doc, a), b)
    decreases |b|
  {
    if b == [] {
      assert a + b == a;
    } else {
      assert (a + b)[..|a + b| - 1] == a + b[..|b| - 1];
      ApplyAppend(doc, a, b[..|b| - 1]);
    }
  }

  // ----- The helper, one event at a time -----

  datatype Desk = Desk(carry: Carry, doc: seq<int>)

  function DeskStep(d: Desk, e: Event): (r: Option<Desk>)
    requires d.carry.Valid()
    ensures r.Some? ==> r.value.carry.Valid()
  {
    if IsTextEvent(e) then
      match Step(d.carry, e) case None => None case Some(n) => Some(Desk(n.carry, d.doc + n.cps))
    else Some(d.(doc := if BackspacePress(e) then DropLast(d.doc) else d.doc))
  }

  function DeskTo(d: Desk, es: seq<Event>, n: nat): (r: Option<Desk>)
    requires d.carry.Valid() && n <= |es|
    ensures r.Some? ==> r.value.carry.Valid()
  {
    if n == 0 then Some(d)
    else match DeskTo(d, es, n - 1) case None => None case Some(m) => DeskStep(m, es[n - 1])
  }

  lemma {:induction false} DeskPrefix(d: Desk, a: seq<Event>, es: seq<Event>, n: nat)
    requires d.carry.Valid() && n <= |a| && a <= es
    ensures DeskTo(d, es, n) == DeskTo(d, a, n)
  {
    if n > 0 { DeskPrefix(d, a, es, n - 1); }
  }

  lemma {:induction false} DeskAppend(d: Desk, a: seq<Event>, b: seq<Event>, n: nat)
    requires d.carry.Valid() && n <= |b|
    ensures DeskTo(d, a + b, |a| + n) == match DeskTo(d, a, |a|) case None => None case Some(m) => DeskTo(m, b, n)
  {
    if n == 0 {
      DeskPrefix(d, a, a + b, |a|);
    } else {
      DeskAppend(d, a, b, n - 1);
      assert (a + b)[|a| + n - 1] == b[n - 1];
    }
  }

  lemma {:induction false} TextRequestOnDesk(d: Desk, es: seq<Event>, n: nat)
    requires d.carry.Valid() && n <= |es| && RunTo(d.carry, es, n).Some?
    requires forall i :: 0 <= i < |es| ==> IsTextEvent(es[i])
    ensures var r := RunTo(d.carry, es, n).value; DeskTo(d, es, n) == Some(Desk(r.carry, d.doc + r.cps))
  {
    if n == 0 {
      assert d.doc + [] == d.doc;
    } else {
      TextRequestOnDesk(d, es, n - 1);
      var r := RunTo(d.carry, es, n - 1).value;
      var added := Step(r.carry, es[n - 1]).value.cps;
      assert d.doc + r.cps + added == d.doc + (r.cps + added);
    }
  }

  lemma {:induction false} KeyRequestOnDesk(d: Desk, es: seq<Event>, n: nat)
    requires d.carry.Valid() && n <= |es|
    requires forall i :: 0 <= i < |es| ==> !IsTextEvent(es[i])
    ensures DeskTo(d, es, n) == Some(Desk(d.carry, Apply(d.doc, InjectedAll(es)[..n])))
  {
    if n > 0 {
      KeyRequestOnDesk(d, es, n - 1);
      assert InjectedAll(es)[..n][..n - 1] == InjectedAll(es)[..n - 1];
    }
  }

  lemma {:induction false} RequestOnDesk(d: Desk, request: seq<Event>)
    requires d.carry.Valid() && Homogeneous(request) && RequestEffect(d.carry, request).Some?
    ensures var (carry, done) := RequestEffect(d.carry, request).value;
            DeskTo(d, request, |request|) == Some(Desk(carry, Apply(d.doc, done)))
  {
    if IsTextEvent(request[0]) {
      TextRequestOnDesk(d, request, |request|);
      var cps := Run(d.carry, request).value.cps;
      if cps == [] { assert d.doc + cps == d.doc; } else { assert [Pasted(cps)][..0] == []; }
    } else {
      KeyRequestOnDesk(d, request, |request|);
      assert InjectedAll(request)[..|request|] == InjectedAll(request);
    }
  }

  /** However the broker cut the events into requests, the document ends up as
      if they had come one by one. */
  lemma {:induction false} RequestsOnDesk(d: Desk, requests: seq<seq<Event>>)
    requires d.carry.Valid() && forall i :: 0 <= i < |requests| ==> Homogeneous(requests[i])
    requires RequestsEffect(d.carry, requests).Some?
    ensures var (carry, done) := RequestsEffect(d.carry, requests).value;
            DeskTo(d, Flat(requests), |Flat(requests)|) == Some(Desk(carry, Apply(d.doc, done)))
    decreases |requests|
  {
    if requests != [] {
      var init, last := requests[..|requests| - 1], requests[|requests| - 1];
      RequestsOnDesk(d, init);
      var (carry, done) := RequestsEffect(d.carry, init).value;
      assert Homogeneous(last);
      RequestOnDesk(Desk(carry, Apply(d.doc, done)), last);
      ApplyAppend(d.doc, done, RequestEffect(carry, last).value.1);
      DeskAppend(d, Flat(init), last, |last|);
    }
  }

  // ----- One batch on both sides -----

  datatype World = World(edit: EditState, carry: Carry, doc: seq<int>)

  /** The Backspace key is scan code 0x0E, as MapVirtualKeyW reports it. */
  predicate StandardBackspace(p: Platform) { p.mapVirtualKey(VK_BACK) == 0x0E }

  /** A character event, or a Backspace key event that reaches X as Backspace. */
  predicate TextOrBackspace(p: Platform, input: Input) {
    || input.Unicode()
    || (IsBackspace(input) && match ToX11Event(p, input)
                              case None => false
                              case Some(e) => e.scan == BACKSPACE_SCAN && KEYEVENTF_EXTENDED !in e.flags)
  }

  predicate TextBatch(p: Platform, inputs: seq<Input>) {
    forall i :: 0 <= i < |inputs| ==> TextOrBackspace(p, inputs[i])
  }

  /** A clipboard batch that succeeds. */
  function BatchStep(p: Platform, w: World, inputs: seq<Input>): (r: Option<World>)
    requires w.carry.Valid()
    ensures r.Some? ==> r.value.carry.Valid()
  {
    match ClampTo(p, w.edit, inputs, |inputs|)
    case None => None
    case Some(a) =>
      match DeskTo(Desk(w.carry, w.doc), a.events, |a.events|)
      case None => None
      case Some(d) => Some(World(a.state, d.carry, d.doc))
  }

  /** What send_x11_clipboard_text reports as success is such a batch. */
  lemma DeliveredIsBatchStep(p: Platform, edit: EditState, now: nat, inputs: seq<Input>, sent: seq<seq<Event>>,
                             before: Carry, after: Carry, added: seq<Injection>, next: EditState, clamped: nat,
                             doc: seq<int>)
    requires before.Valid()
    requires ClipboardDelivered(p, edit, now, inputs, sent, before, after, added, next, clamped)
    ensures BatchStep(p, World(Expire(edit, now), before, doc), inputs).Some?
    ensures var w := BatchStep(p, World(Expire(edit, now), before, doc), inputs).value;
            w == World(w.edit, after, Apply(doc, added)) && next == w.edit.(updatedMs := next.updatedMs)
  {
    RequestsOnDesk(Desk(before, doc), sent);
  }

  /** The broker's knowledge equals the helper's, and its credit is the tail. */
  predicate Coupled(edit: EditState, carry: Carry, tail: seq<int>) {
    && edit.pending == carry.pending && edit.endedCr == carry.endedCr
    && (edit.pending != 0 ==> !edit.endedCr)
    && edit.removable == |tail|
  }

  /** The broker may still credit one character that the helper will not insert:
      the helper remembers a trailing CR of which the broker does not know, so
      it will swallow a line feed; a surrogate that both wait for comes first. */
  predicate Debt(edit: EditState, carry: Carry) {
    && carry.endedCr
    && if edit.pending == 0 then !edit.endedCr && carry.pending == 0 else carry.pending != 0
  }

  /** The tail covers the credit and the debt. */
  predicate Solvent(edit: EditState, carry: Carry, tail: seq<int>) {
    edit.removable + (if Debt(edit, carry) then 1 else 0) <= |tail|
  }

  lemma ForwardedBackspace(p: Platform, input: Input)
    requires StandardBackspace(p) && TextOrBackspace(p, input) && IsBackspace(input)
    ensures var f := ForwardOf(p, input);
            f.Forwarded? && !IsTextEvent(f.event) && BackspacePress(f.event) == !input.KeyUp()
  {}

  lemma TextUnit(edit: EditState, d: Desk, prefix: seq<int>, tail: seq<int>, unit: Word) returns (tail': seq<int>)
    requires d.carry.Valid() && unit != BACKSPACE && d.doc == prefix + tail
    requires DeskStep(d, TextEvent(unit)).Some?
    ensures var n := DeskStep(d, TextEvent(unit)).value;
            && n.doc == prefix + tail'
            && (Solvent(edit, d.carry, tail) ==> Solvent(CreditUnit(edit, unit), n.carry, tail'))
            && (Coupled(edit, d.carry, tail) && edit.removable < MAXDWORD ==>
                  Coupled(CreditUnit(edit, unit), n.carry, tail'))
  {
    var added := Step(d.carry, TextEvent(unit)).value.cps;
    tail' := tail + added;
    assert prefix + tail + added == prefix + tail';
  }

  /** One input on both sides: the prefix survives, and so does the relation. */
  lemma InputStep(p: Platform, a: Clamp, d: Desk, prefix: seq<int>, tail: seq<int>, input: Input)
    returns (tail': seq<int>)
    requires StandardBackspace(p) && TextOrBackspace(p, input) && d.carry.Valid() && d.doc == prefix + tail
    requires Solvent(a.state, d.carry, tail) && ClampInput(p, a, input).Some?
    requires |ClampInput(p, a, input).value.events| > |a.events| ==>
               DeskStep(d, ClampInput(p, a, input).value.events[|a.events|]).Some?
    ensures var b := ClampInput(p, a, input).value;
            var n := if |b.events| > |a.events| then DeskStep(d, b.events[|a.events|]).value else d;
            && a.events <= b.events && |b.events| <= |a.events| + 1
            && n.doc == prefix + tail'
            && Solvent(b.state, n.carry, tail')
            && (Coupled(a.state, d.carry, tail) && a.state.removable < MAXDWORD ==> Coupled(b.state, n.carry, tail'))
            && b.state.removable <= a.state.removable + 1
  {
    var b := ClampInput(p, a, input).value;
    tail' := tail;
    if IsBackspace(input) {
      ForwardedBackspace(p, input);
      BackspaceNeverCredits(a.state, input);
      BackspaceNeverCredits(a.state.(removable := if a.state.removable == 0 then 0 else a.state.removable - 1), input);
      if !input.KeyUp() && a.state.removable > 0 {
        tail' := tail[..|tail| - 1];
        assert DropLast(prefix + tail) == prefix + tail';
      }
    } else if input.UnicodePress() {
      tail' := TextUnit(a.state, d, prefix, tail, input.scan);
    }
  }

  lemma ClampGrows(p: Platform, w: World, inputs: seq<Input>, n: nat) returns (a: Clamp, b: Clamp)
    requires 0 < n <= |inputs| && w.carry.Valid() && ClampTo(p, w.edit, inputs, n).Some?
    requires var es := ClampTo(p, w.edit, inputs, n).value.events; DeskTo(Desk(w.carry, w.doc), es, |es|).Some?
    ensures ClampTo(p, w.edit, inputs, n - 1) == Some(a) && ClampTo(p, w.edit, inputs, n) == Some(b)
    ensures ClampInput(p, a, inputs[n - 1]) == Some(b)
    ensures a.events <= b.events && |b.events| <= |a.events| + 1
    ensures DeskTo(Desk(w.carry, w.doc), a.events, |a.events|).Some?
    ensures var d := DeskTo(Desk(w.carry, w.doc), a.events, |a.events|).value;
            DeskTo(Desk(w.carry, w.doc), b.events, |b.events|)
            == if |b.events| > |a.events| then DeskStep(d, b.events[|a.events|]) else Some(d)
  {
    ClampPrefix(p, w.edit, inputs, n - 1, n);
    a, b := ClampTo(p, w.edit, inputs, n - 1).value, ClampTo(p, w.edit, inputs, n).value;
    assert a.events <= b.events && |b.events| <= |a.events| + 1;
    DeskPrefix(Desk(w.carry, w.doc), a.events, b.events, |a.events|);
  }

  /** Any part of a batch, from a solvent state: no Backspace reaches the prefix. */
  lemma {:induction false} BatchKeepsPrefix(p: Platform, w: World, prefix: seq<int>, tail: seq<int>,
                                            inputs: seq<Input>, n: nat)
    returns (tail': seq<int>)
    requires StandardBackspace(p) && n <= |inputs| && TextBatch(p, inputs[..n]) && w.carry.Valid()
    requires w.doc == prefix + tail && Solvent(w.edit, w.carry, tail)
    requires ClampTo(p, w.edit, inputs, n).Some?
    requires var es := ClampTo(p, w.edit, inputs, n).value.events; DeskTo(Desk(w.carry, w.doc), es, |es|).Some?
    ensures var a := ClampTo(p, w.edit, inputs, n).value;
            var d := DeskTo(Desk(w.carry, w.doc), a.events, |a.events|).value;
            && d.doc == prefix + tail'
            && Solvent(a.state, d.carry, tail')
            && (Coupled(w.edit, w.carry, tail) && w.edit.removable + n <= MAXDWORD ==>
                  Coupled(a.state, d.carry, tail') && a.state.removable <= w.edit.removable + n)
  {
    hide Solvent, Coupled, ClampInput, DeskStep;
    if n == 0 {
      tail' := tail;
    } else {
      var a, b := ClampGrows(p, w, inputs, n);
      assert inputs[..n][..n - 1] == inputs[..n - 1] && inputs[n - 1] == inputs[..n][n - 1];
      var middle := BatchKeepsPrefix(p, w, prefix, tail, inputs, n - 1);
      tail' := InputStep(p, a, DeskTo(Desk(w.carry, w.doc), a.events, |a.events|).value, prefix, middle, inputs[n - 1]);
    }
  }

  // ----- Runs of batches -----

  function RunBatches(p: Platform, w: World, batches: seq<seq<Input>>, n: nat): (r: Option<World>)
    requires w.carry.Valid() && n <= |batches|
    ensures r.Some? ==> r.value.carry.Valid()
  {
    if n == 0 then Some(w)
    else match RunBatches(p, w, batches, n - 1) case None => None case Some(m) => BatchStep(p, m, batches[n - 1])
  }

  function InputCount(batches: seq<seq<Input>>, n: nat): nat
    requires n <= |batches|
  {
    if n == 0 then 0 else InputCount(batches, n - 1) + |batches[n - 1]|
  }

  predicate TextBatches(p: Platform, batches: seq<seq<Input>>) {
    forall i :: 0 <= i < |batches| ==> TextBatch(p, batches[i])
  }

  lemma {:induction false} RunKeepsPrefix(p: Platform, w: World, prefix: seq<int>, tail: seq<int>,
                                          batches: seq<seq<Input>>, n: nat)
    returns (tail': seq<int>)
    requires StandardBackspace(p) && TextBatches(p, batches) && n <= |batches| && w.carry.Valid()
    requires w.doc == prefix + tail && Solvent(w.edit, w.carry, tail) && RunBatches(p, w, batches, n).Some?
    ensures var v := RunBatches(p, w, batches, n).value;
            && v.doc == prefix + tail'
            && Solvent(v.edit, v.carry, tail')
            && (Coupled(w.edit, w.carry, tail) && w.edit.removable + InputCount(batches, n) <= MAXDWORD ==>
                  Coupled(v.edit, v.carry, tail') && v.edit.removable <= w.edit.removable + InputCount(batches, n))
  {
    if n == 0 {
      tail' := tail;
    } else {
      var middle := RunKeepsPrefix(p, w, prefix, tail, batches, n - 1);
      var m := RunBatches(p, w, batches, n - 1).value;
      assert batches[n - 1][..|batches[n - 1]|] == batches[n - 1];
      tail' := BatchKeepsPrefix(p, m, prefix, middle, batches[n - 1], |batches[n - 1]|);
    }
  }

  /** On one connection with no reset, starting fresh, the broker's carried state
      is the helper's, its credit is exactly the pasted tail, and the text that
      was there before is untouched. */
  lemma FreshConnectionStaysCoupled(p: Platform, prefix: seq<int>, batches: seq<seq<Input>>)
    requires StandardBackspace(p) && TextBatches(p, batches) && InputCount(batches, |batches|) <= MAXDWORD
    requires RunBatches(p, World(CLEARED, START, prefix), batches, |batches|).Some?
    ensures var v := RunBatches(p, World(CLEARED, START, prefix), batches, |batches|).value;
            && prefix <= v.doc
            && Coupled(v.edit, v.carry, v.doc[|prefix|..])
  {
    assert prefix == prefix + [];
    var tail := RunKeepsPrefix(p, World(CLEARED, START, prefix), prefix, [], batches, |batches|);
    assert (prefix + tail)[|prefix|..] == tail;
  }

  // ----- When the older text is safe -----

  /** Successful text batches can lead from one world to the other. */
  ghost predicate Reaches(p: Platform, w: World, v: World)
    requires w.carry.Valid()
  {
    exists batches :: TextBatches(p, batches) && RunBatches(p, w, batches, |batches|) == Some(v)
  }

  /** No run of successful text batches from here ever deletes part of `prefix`. */
  ghost predicate PrefixSafe(p: Platform, w: World, prefix: seq<int>)
    requires w.carry.Valid()
  {
    forall v :: Reaches(p, w, v) ==> prefix <= v.doc
  }

  lemma {:induction false} RunPrefixOfBatches(p: Platform, w: World, batches: seq<seq<Input>>, batch: seq<Input>,
                                              n: nat)
    requires w.carry.Valid() && n <= |batches|
    ensures RunBatches(p, w, batches + [batch], n) == RunBatches(p, w, batches, n)
  {
    if n > 0 {
      RunPrefixOfBatches(p, w, batches, batch, n - 1);
    }
  }

  lemma ReachesItself(p: Platform, w: World)
    requires w.carry.Valid()
    ensures Reaches(p, w, w)
  {
    assert RunBatches(p, w, [], 0) == Some(w) && TextBatches(p, []);
  }

  lemma OneMoreBatch(p: Platform, w: World, u: World, v: World, batch: seq<Input>)
    requires w.carry.Valid() && u.carry.Valid() && Reaches(p, w, u)
    requires TextBatch(p, batch) && BatchStep(p, u, batch) == Some(v)
    ensures Reaches(p, w, v)
  {
    hide BatchStep, TextBatch;
    var batches :| TextBatches(p, batches) && RunBatches(p, w, batches, |batches|) == Some(u);
    RunPrefixOfBatches(p, w, batches, batch, |batches|);
    assert TextBatches(p, batches + [batch]);
    assert RunBatches(p, w, batches + [batch], |batches + [batch]|) == Some(v);
  }

  function CharacterPress(unit: Word): Input { Keyboard(0, unit, {KEYEVENTF_UNICODE}) }

  lemma OneInputBatch(p: Platform, w: World, input: Input, b: Clamp)
    requires w.carry.Valid() && ClampInput(p, ClampStart(w.edit), input) == Some(b) && |b.events| == 1
    ensures BatchStep(p, w, [input]) == match DeskStep(Desk(w.carry, w.doc), b.events[0])
                                        case None => None
                                        case Some(d) => Some(World(b.state, d.carry, d.doc))
  {
    assert ClampTo(p, w.edit, [input], 0) == Some(ClampStart(w.edit));
    assert ClampTo(p, w.edit, [input], 1) == Some(b);
    assert DeskTo(Desk(w.carry, w.doc), b.events, 0) == Some(Desk(w.carry, w.doc));
  }

  /** A Backspace for which there is credit removes the last character. */
  lemma BackspaceBatch(p: Platform, w: World, u: World)
    requires StandardBackspace(p) && w.carry.Valid() && u.carry.Valid() && Reaches(p, w, u) && u.edit.removable > 0
    ensures Reaches(p, w, World(u.edit.(removable := u.edit.removable - 1), u.carry, DropLast(u.doc)))
  {
    hide Reaches, BatchStep;
    var input := CharacterPress(BACKSPACE);
    var b := ClampInput(p, ClampStart(u.edit), input).value;
    OneInputBatch(p, u, input, b);
    OneMoreBatch(p, w, u, World(u.edit.(removable := u.edit.removable - 1), u.carry, DropLast(u.doc)), [input]);
  }

  lemma CharacterBatch(p: Platform, w: World, u: World, unit: Word)
    requires w.carry.Valid() && u.carry.Valid() && Reaches(p, w, u)
    requires unit != BACKSPACE && Step(u.carry, TextEvent(unit)).Some?
    ensures var n := Step(u.carry, TextEvent(unit)).value;
            Reaches(p, w, World(CreditUnit(u.edit, unit), n.carry, u.doc + n.cps))
  {
    hide Reaches, BatchStep;
    var input := CharacterPress(unit);
    var n := Step(u.carry, TextEvent(unit)).value;
    var b := ClampInput(p, ClampStart(u.edit), input).value;
    OneInputBatch(p, u, input, b);
    OneMoreBatch(p, w, u, World(CreditUnit(u.edit, unit), n.carry, u.doc + n.cps), [input]);
  }

  lemma {:induction false} Drain(p: Platform, w: World, prefix: seq<int>, tail: seq<int>, n: nat)
    requires StandardBackspace(p) && w.carry.Valid() && w.doc == prefix + tail && n <= |tail| && n <= w.edit.removable
    ensures Reaches(p, w, World(w.edit.(removable := w.edit.removable - n), w.carry, prefix + tail[..|tail| - n]))
  {
    hide Reaches;
    if n == 0 {
      ReachesItself(p, w);
      assert tail[..|tail|] == tail;
    } else {
      Drain(p, w, prefix, tail, n - 1);
      var left := tail[..|tail| - (n - 1)];
      BackspaceBatch(p, w, World(w.edit.(removable := w.edit.removable - (n - 1)), w.carry, prefix + left));
      assert DropLast(prefix + left) == prefix + tail[..|tail| - n];
    }
  }

  /** A line feed the helper swallows and the broker credits, and a Backspace. */
  lemma SwallowedLineFeed(p: Platform, w: World, u: World)
    requires StandardBackspace(p) && w.carry.Valid() && u.carry.Valid() && Reaches(p, w, u)
    requires u.edit.pending == u.carry.pending == 0 && !u.edit.endedCr && u.carry.endedCr && u.edit.removable < MAXDWORD
    ensures Reaches(p, w, World(u.edit, Carry(0, false), DropLast(u.doc)))
  {
    hide Reaches;
    CharacterBatch(p, w, u, LF);
    assert u.doc + [] == u.doc;
    BackspaceBatch(p, w, World(CreditUnit(u.edit, LF), Carry(0, false), u.doc));
  }

  /** A surrogate both sides wait for, the swallowed line feed, and two Backspaces. */
  lemma CompletedSurrogate(p: Platform, w: World, u: World)
    requires StandardBackspace(p) && w.carry.Valid() && u.carry.Valid() && Reaches(p, w, u)
    requires u.edit.pending != 0 && u.carry.pending != 0 && u.carry.endedCr && u.edit.removable == 0
    ensures exists edit :: Reaches(p, w, World(edit, Carry(0, false), DropLast(u.doc)))
  {
    hide Reaches;
    var low := 0xDC00;
    CharacterBatch(p, w, u, low);
    var credited, pair := CreditUnit(u.edit, low), [Combine(u.carry.pending, low)];
    SwallowedLineFeed(p, w, World(credited, Carry(0, true), u.doc + pair));
    assert DropLast(u.doc + pair) == u.doc;
    BackspaceBatch(p, w, World(credited, Carry(0, false), u.doc));
  }

  /** From an insolvent world the last character of the older text can be deleted. */
  lemma InsolventIsUnsafe(p: Platform, w: World, prefix: seq<int>, tail: seq<int>)
    requires StandardBackspace(p) && w.carry.Valid() && w.doc == prefix + tail && prefix != []
    requires !Solvent(w.edit, w.carry, tail)
    ensures exists v :: Reaches(p, w, v) && v.doc == DropLast(prefix)
  {
    hide Reaches;
    Drain(p, w, prefix, tail, |tail|);
    assert prefix + tail[..0] == prefix;
    var u := World(w.edit.(removable := w.edit.removable - |tail|), w.carry, prefix);
    if u.edit.removable > 0 {
      BackspaceBatch(p, w, u);
    } else if u.edit.pending == 0 {
      SwallowedLineFeed(p, w, u);
    } else {
      CompletedSurrogate(p, w, u);
    }
  }

  /** Whatever the broker and the helper remember: the older text is safe from
      every run of successful batches exactly when the text behind it covers the
      credit and the debt. */
  lemma SafeIff(p: Platform, w: World, prefix: seq<int>, tail: seq<int>)
    requires StandardBackspace(p) && w.carry.Valid() && w.doc == prefix + tail && prefix != []
    ensures PrefixSafe(p, w, prefix) <==> Solvent(w.edit, w.carry, tail)
  {
    if Solvent(w.edit, w.carry, tail) {
      forall v | Reaches(p, w, v)
        ensures prefix <= v.doc
      {
        var batches :| TextBatches(p, batches) && RunBatches(p, w, batches, |batches|) == Some(v);
        var tail' := RunKeepsPrefix(p, w, prefix, tail, batches, |batches|);
      }
    } else {
      InsolventIsUnsafe(p, w, prefix, tail);
    }
  }

  /** After a reset of the broker all text is safe exactly when the helper does
      not remember a trailing CR, unless a high surrogate is waiting too. */
  lemma ResetIsSafeIff(p: Platform, carry: Carry, doc: seq<int>)
    requires StandardBackspace(p) && carry.Valid() && doc != []
    ensures PrefixSafe(p, World(CLEARED, carry, doc), doc) <==> !(carry.endedCr && carry.pending == 0)
  {
    assert doc == doc + [];
    SafeIff(p, World(CLEARED, carry, doc), doc, []);
  }

  lemma {:induction false} CharactersBound(s: EditState, inputs: seq<Input>, n: nat)
    requires n <= |inputs|
    ensures Characters(s, inputs, n) <= n
  {
    if n > 0 {
      CharactersBound(s, inputs, n - 1);
    }
  }

  /** A batch given up leaves the allowance as it was before, and the helper as
      its confirmed inputs have left it: the older text is then safe exactly when
      these inputs brought at least as many characters as Backspaces, and one
      more if a debt is open. */
  lemma AbandonedIsSafeIff(p: Platform, w: World, prefix: seq<int>, tail: seq<int>, inputs: seq<Input>, confirmed: nat)
    requires StandardBackspace(p) && confirmed <= |inputs| && TextBatch(p, inputs[..confirmed]) && w.carry.Valid()
    requires w.doc == prefix + tail && prefix != [] && Coupled(w.edit, w.carry, tail)
    requires w.edit.removable + confirmed <= MAXDWORD && ClampTo(p, w.edit, inputs, confirmed).Some?
    requires var es := ClampTo(p, w.edit, inputs, confirmed).value.events; DeskTo(Desk(w.carry, w.doc), es, |es|).Some?
    ensures var es := ClampTo(p, w.edit, inputs, confirmed).value.events;
            var d := DeskTo(Desk(w.carry, w.doc), es, |es|).value;
            PrefixSafe(p, World(w.edit, d.carry, d.doc), prefix)
            <==> ForwardedPresses(p, w.edit, inputs, confirmed) + (if Debt(w.edit, d.carry) then 1 else 0)
                 <= Characters(w.edit, inputs, confirmed)
  {
    var a := ClampTo(p, w.edit, inputs, confirmed).value;
    var d := DeskTo(Desk(w.carry, w.doc), a.events, |a.events|).value;
    var tail' := BatchKeepsPrefix(p, w, prefix, tail, inputs, confirmed);
    SafeIff(p, World(w.edit, d.carry, d.doc), prefix, tail');
    CharactersBound(w.edit, inputs, confirmed);
    ClampClosedForm(p, w.edit, inputs, confirmed);
  }

  /** Such a batch: its Backspace has deleted the one credited character, the
      character behind it is still waiting when the untranslatable input is met,
      and the allowance that is left standing reaches the older text. */
  lemma AbandonedBatchKeepsStaleCredit(p: Platform, edit: EditState, carry: Carry, prefix: seq<int>, c: int, unit: Word)
    requires StandardBackspace(p) && prefix != [] && unit != BACKSPACE && carry.Valid()
    requires Coupled(edit, carry, [c])
    ensures var abandoned := [CharacterPress(BACKSPACE), CharacterPress(unit), Hardware];
            && ClampTo(p, edit, abandoned, 3).None?
            && ClampTo(p, edit, abandoned, 1).Some?
            && var es := ClampTo(p, edit, abandoned, 1).value.events;
               DeskTo(Desk(carry, prefix + [c]), es, |es|) == Some(Desk(carry, prefix))
    ensures !PrefixSafe(p, World(edit, carry, prefix), prefix)
  {
    hide PrefixSafe;
    var abandoned := [CharacterPress(BACKSPACE), CharacterPress(unit), Hardware];
    var key := ToX11Event(p, EditingKey(CharacterPress(BACKSPACE))).value;
    assert ClampTo(p, edit, abandoned, 0) == Some(ClampStart(edit));
    assert [] + [key] == [key];
    assert ClampTo(p, edit, abandoned, 1) == Some(Clamp(edit.(removable := 0), [key], 0, true));
    assert ClampTo(p, edit, abandoned, 2).Some?;
    assert DeskTo(Desk(carry, prefix + [c]), [key], 0) == Some(Desk(carry, prefix + [c]));
    assert DropLast(prefix + [c]) == prefix;
    assert prefix == prefix + [];
    SafeIff(p, World(edit, carry, prefix), prefix, []);
  }
}
