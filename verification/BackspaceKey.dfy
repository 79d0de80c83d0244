/** The Backspace key of the X server over clipboard batches: when a batch leaves
    it held down, and how a press and its release can come apart. */
module BackspaceKey {
  import opened InputTypes
  import opened Basics
  import opened Utf16Text
  import opened SemanticEdit
  import opened X11Helper
  import opened InputBroker
  import opened RevisionSafety

  /** A forwarded Backspace event presses or releases the X key. */
  lemma BackspaceEvent(p: Platform, keymap: Keymap, input: Input, held: bool, before: seq<Event>, e: Event)
    requires StandardBackspace(p) && TextOrBackspace(p, input) && ForwardOf(p, input) == Forwarded(e)
    ensures BackspaceAfter(keymap, held, before + [e], |before| + 1)
            == if IsBackspace(input) then !input.KeyUp() else BackspaceAfter(keymap, held, before, |before|)
  {
    BackspaceAfterPrefix(keymap, held, before, before + [e], |before|);
  }

  lemma HeldAfterInput(p: Platform, keymap: Keymap, a: Clamp, b: Clamp, input: Input, held: bool)
    requires StandardBackspace(p) && TextOrBackspace(p, input) && ClampInput(p, a, input) == Some(b)
    ensures BackspaceAfter(keymap, held, b.events, |b.events|)
            == if |b.events| > |a.events| && IsBackspace(input) then !input.KeyUp()
               else BackspaceAfter(keymap, held, a.events, |a.events|)
    ensures a.events <= b.events && |b.events| <= |a.events| + 1
  {
    hide BackspaceAfter, TextOrBackspace;
    if |b.events| > |a.events| {
      BackspaceEvent(p, keymap, input, held, a.events, b.events[|a.events|]);
    }
  }

  /** After any part of a batch the key is down exactly when the last Backspace
      event forwarded was a press, or it was down before and no Backspace event
      was forwarded at all. */
  lemma {:induction false} HeldAfterBatch(p: Platform, keymap: Keymap, s: EditState, inputs: seq<Input>, n: nat,
                                          held: bool)
    requires StandardBackspace(p) && n <= |inputs| && TextBatch(p, inputs[..n]) && ClampTo(p, s, inputs, n).Some?
    ensures var a := ClampTo(p, s, inputs, n).value;
            BackspaceAfter(keymap, held, a.events, |a.events|)
            == (a.pressForwarded || (held && ForwardedPresses(p, s, inputs, n) == 0))
    ensures ClampTo(p, s, inputs, n).value.pressForwarded ==> ForwardedPresses(p, s, inputs, n) > 0
  {
    hide BackspaceAfter, TextOrBackspace, ClampInput;
    if n == 0 {
      NothingSent(keymap, held);
    } else {
      ClampPrefix(p, s, inputs, n - 1, n);
      assert inputs[..n][..n - 1] == inputs[..n - 1] && inputs[n - 1] == inputs[..n][n - 1];
      HeldAfterBatch(p, keymap, s, inputs, n - 1, held);
      var a, b := ClampTo(p, s, inputs, n - 1).value, ClampTo(p, s, inputs, n).value;
      HeldAfterInput(p, keymap, a, b, inputs[n - 1], held);
      ClampInputFacts(p, a, inputs[n - 1]);
    }
  }

  // ----- A batch cut in two -----

  predicate Releases(inputs: seq<Input>, from: nat, to: nat)
    requires from <= to <= |inputs|
  {
    exists i :: from <= i < to && Release(inputs[i])
  }

  /** How the clamp of a batch and the clamp of its second part, begun with the
      allowance the first part has left, differ: only in what they know of a
      press of the first part. */
  lemma SameButPress(p: Platform, s: EditState, inputs: seq<Input>, cut: nat, m: nat, a: Clamp, whole: Clamp,
                     part: Clamp)
    requires cut + m < |inputs| && StandardBackspace(p) && TextOrBackspace(p, inputs[cut + m])
    requires inputs[cut..][m] == inputs[cut + m]
    requires ClampTo(p, s, inputs, cut + m) == Some(whole) && ClampTo(p, a.state, inputs[cut..], m) == Some(part)
    requires ClampTo(p, s, inputs, cut + m + 1).Some? && whole.state == part.state
    requires part.pressForwarded ==> whole.pressForwarded
    ensures ClampTo(p, a.state, inputs[cut..], m + 1).Some?
    ensures var whole' := ClampTo(p, s, inputs, cut + m + 1).value;
            var part' := ClampTo(p, a.state, inputs[cut..], m + 1).value;
            && whole'.state == part'.state
            && ForwardedPresses(p, s, inputs, cut + m + 1) - ForwardedPresses(p, s, inputs, cut + m)
               == ForwardedPresses(p, a.state, inputs[cut..], m + 1) - ForwardedPresses(p, a.state, inputs[cut..], m)
            && var pressed := ForwardedPresses(p, a.state, inputs[cut..], m + 1)
                              > ForwardedPresses(p, a.state, inputs[cut..], m);
               && whole'.pressForwarded == (pressed || (whole.pressForwarded && !Release(inputs[cut + m])))
               && part'.pressForwarded == (pressed || (part.pressForwarded && !Release(inputs[cut + m])))
  {
    assert ClampTo(p, s, inputs, cut + m + 1) == ClampInput(p, whole, inputs[cut + m]);
    assert ClampTo(p, a.state, inputs[cut..], m + 1) == ClampInput(p, part, inputs[cut + m]);
    ClampInputFacts(p, whole, inputs[cut + m]);
    ClampInputFacts(p, part, inputs[cut + m]);
  }

  lemma {:induction false} CutBatch(p: Platform, s: EditState, inputs: seq<Input>, cut: nat, m: nat)
    requires cut + m <= |inputs| && StandardBackspace(p) && TextBatch(p, inputs)
             && ClampTo(p, s, inputs, cut + m).Some?
    ensures ClampTo(p, s, inputs, cut).Some?
    ensures var a := ClampTo(p, s, inputs, cut).value;
            && ClampTo(p, a.state, inputs[cut..], m).Some?
            && var whole, part := ClampTo(p, s, inputs, cut + m).value, ClampTo(p, a.state, inputs[cut..], m).value;
               && whole.state == part.state
               && ForwardedPresses(p, s, inputs, cut + m)
                  == ForwardedPresses(p, s, inputs, cut) + ForwardedPresses(p, a.state, inputs[cut..], m)
               && (part.pressForwarded ==> ForwardedPresses(p, a.state, inputs[cut..], m) > 0)
               && whole.pressForwarded
                  == (|| part.pressForwarded
                      || (a.pressForwarded && ForwardedPresses(p, a.state, inputs[cut..], m) == 0
                          && !Releases(inputs, cut, cut + m)))
  {
    hide ClampInput, TextOrBackspace;
    ClampPrefix(p, s, inputs, cut, cut + m);
    if m > 0 {
      var a := ClampTo(p, s, inputs, cut).value;
      ClampPrefix(p, s, inputs, cut + m - 1, cut + m);
      CutBatch(p, s, inputs, cut, m - 1);
      SameButPress(p, s, inputs, cut, m - 1, a, ClampTo(p, s, inputs, cut + m - 1).value,
                   ClampTo(p, a.state, inputs[cut..], m - 1).value);
    }
  }

  /** A batch sent in two parts leaves the key in another position than the batch
      sent whole exactly when the first part ends with the key down and the second
      part releases it without pressing it again: then it stays down. */
  lemma SplitMattersIff(p: Platform, keymap: Keymap, s: EditState, inputs: seq<Input>, cut: nat, held: bool)
    requires cut <= |inputs| && StandardBackspace(p) && TextBatch(p, inputs) && ClampTo(p, s, inputs, |inputs|).Some?
    ensures ClampTo(p, s, inputs, cut).Some?
    ensures var a, second := ClampTo(p, s, inputs, cut).value, inputs[cut..];
            ClampTo(p, a.state, second, |second|).Some?
    ensures var a, second := ClampTo(p, s, inputs, cut).value, inputs[cut..];
            var b, whole := ClampTo(p, a.state, second, |second|).value, ClampTo(p, s, inputs, |inputs|).value;
            var together := BackspaceAfter(keymap, held, whole.events, |whole.events|);
            var middle := BackspaceAfter(keymap, held, a.events, |a.events|);
            var apart := BackspaceAfter(keymap, middle, b.events, |b.events|);
            && (together != apart <==>
                && a.pressForwarded
                && ForwardedPresses(p, a.state, second, |second|) == 0
                && Releases(inputs, cut, |inputs|))
            && (together != apart ==> apart)
  {
    hide BackspaceAfter, TextOrBackspace, ForwardedPresses, ClampTo, Releases;
    var second := inputs[cut..];
    CutBatch(p, s, inputs, cut, |second|);
    var a := ClampTo(p, s, inputs, cut).value;
    var middle := BackspaceAfter(keymap, held, a.events, |a.events|);
    assert inputs[..|inputs|] == inputs && second[..|second|] == second;
    HeldAfterBatch(p, keymap, s, inputs, |inputs|, held);
    HeldAfterBatch(p, keymap, s, inputs, cut, held);
    HeldAfterBatch(p, keymap, a.state, second, |second|, middle);
  }

  // ----- The broker -----

  function CharacterRelease(unit: Word): Input { Keyboard(0, unit, {KEYEVENTF_UNICODE, KEYEVENTF_KEYUP}) }

  lemma SplitPressClamped(p: Platform, s: EditState, t: EditState, unit: Word)
    requires StandardBackspace(p) && s.removable > 0 && unit != BACKSPACE
    ensures var first, second := [CharacterPress(BACKSPACE)], [CharacterRelease(BACKSPACE), CharacterPress(unit)];
            && TextBatch(p, first) && TextBatch(p, second)
            && ClampTo(p, s, first, |first|).Some? && ClampTo(p, s, first, |first|).value.pressForwarded
            && ClampTo(p, t, second, |second|).Some? && ForwardedPresses(p, t, second, |second|) == 0
  {
    var first, second := [CharacterPress(BACKSPACE)], [CharacterRelease(BACKSPACE), CharacterPress(unit)];
    assert ClampTo(p, s, first, 0) == Some(ClampStart(s));
    assert ClampTo(p, t, second, 0) == Some(ClampStart(t));
    assert ClampTo(p, t, second, 1) == Some(ClampStart(t));
    assert ForwardedPresses(p, t, second, 0) == ForwardedPresses(p, t, second, 1) == 0;
    assert !Press(second[1]);
  }

  /** Both batches of the split succeed exactly when the helper accepts the
      character, and it accepts every ordinary one. */
  lemma SplitPressSteps(p: Platform, w: World, unit: Word)
    requires StandardBackspace(p) && w.carry.Valid() && w.edit.removable > 0 && unit != BACKSPACE
    ensures var u := World(w.edit.(removable := w.edit.removable - 1), w.carry, DropLast(w.doc));
            && BatchStep(p, w, [CharacterPress(BACKSPACE)]) == Some(u)
            && (BatchStep(p, u, [CharacterRelease(BACKSPACE), CharacterPress(unit)]).Some?
                <==> Step(w.carry, TextEvent(unit)).Some?)
    ensures w.carry.pending == 0 && unit != 0 && !HighSurrogate(unit) && !LowSurrogate(unit) ==>
              Step(w.carry, TextEvent(unit)).Some?
  {
    hide BatchStep;
    var press := CharacterPress(BACKSPACE);
    OneInputBatch(p, w, press, ClampInput(p, ClampStart(w.edit), press).value);
    var u := World(w.edit.(removable := w.edit.removable - 1), w.carry, DropLast(w.doc));
    ReleaseAndCharacter(p, u, unit);
  }

  lemma ReleaseAndCharacter(p: Platform, u: World, unit: Word)
    requires u.carry.Valid() && unit != BACKSPACE
    ensures BatchStep(p, u, [CharacterRelease(BACKSPACE), CharacterPress(unit)]).Some?
            <==> Step(u.carry, TextEvent(unit)).Some?
  {
    var batch := [CharacterRelease(BACKSPACE), CharacterPress(unit)];
    assert ClampTo(p, u.edit, batch, 0) == Some(ClampStart(u.edit));
    assert ClampTo(p, u.edit, batch, 1) == Some(ClampStart(u.edit));
    assert [] + [TextEvent(unit)] == [TextEvent(unit)];
    var a := ClampStart(u.edit).(state := CreditUnit(u.edit, unit), events := [TextEvent(unit)]);
    assert ClampTo(p, u.edit, batch, 2) == Some(a);
    assert DeskTo(Desk(u.carry, u.doc), a.events, 0) == Some(Desk(u.carry, u.doc));
  }

  /** A press and its release in two batches, both reported as delivered: the
      release is left out and the X server still holds Backspace down. */
  method SplitPress(b: Broker, unit: Word, now: nat, later: nat) returns (first: Route, second: Route)
    requires b.Valid() && StandardBackspace(b.platform) && unit != BACKSPACE && Expire(b.edit, now).removable > 0
    modifies b`connected, b`requests, b`edit, b.helper, b.helper.pressedKeys, b.helper.pressedButtons
    ensures b.Valid()
    ensures first.Success? && second.Success? && b.helper.PlainChord() ==> b.helper.BackspaceHeld()
  {
    hide BackspaceAfter, ClampTo, ForwardedPresses, TextOrBackspace;
    var press, release := [CharacterPress(BACKSPACE)], [CharacterRelease(BACKSPACE), CharacterPress(unit)];
    assert press[..1] == press && release[..2] == release;
    ghost var s := Expire(b.edit, now);
    ghost var h := b.helper.BackspaceHeld();
    var clamped;
    ghost var attempt;
    first, clamped, attempt := b.SendX11ClipboardText(press, now, later);
    ghost var t := Expire(b.edit, later);
    SplitPressClamped(b.platform, s, t, unit);
    if first.Success? {
      HeldAfterBatch(b.platform, b.helper.keymap, s, press, 1, h);
      h := b.helper.BackspaceHeld();
    }
    second, clamped, attempt := b.SendX11ClipboardText(release, later, later);
    if second.Success? {
      HeldAfterBatch(b.platform, b.helper.keymap, t, release, 2, h);
    }
  }
}
