/** The broker's allowance for revision Backspaces: it credits the characters it
    inserted itself and forwards no more Backspaces than it has credit for. */
module SemanticEdit {
  import opened InputTypes
  import opened Basics
  import opened Utf16Text

  const EDIT_WINDOW_MS := 2000

  /** semantic_edit_state. */
  datatype EditState = EditState(removable: Dword, updatedMs: nat, pending: Word, endedCr: bool)

  const CLEARED := EditState(0, 0, 0, false)

  /** VkKeyScanW: a virtual key and the shift-state bits to hold with it, or -1. */
  datatype KeyScan = NoKey | OnKey(vk: Word, shift: Flags)

  /** What Windows tells the broker about keys: MapVirtualKeyW and VkKeyScanW. */
  datatype Platform = Platform(mapVirtualKey: Word -> Dword, vkKeyScan: Word -> KeyScan)

  function Expire(s: EditState, now: nat): EditState {
    if s.updatedMs == 0 || now < s.updatedMs || now - s.updatedMs > EDIT_WINDOW_MS then CLEARED else s
  }

  predicate IsBackspace(input: Input) {
    input.Keyboard?
    && if input.Unicode() then input.scan == BACKSPACE
       else input.vk == VK_BACK || (KEYEVENTF_SCANCODE in input.flags && input.scan == 0x0E)
  }

  function Increment(n: Dword): Dword { if n < MAXDWORD then n + 1 else n }

  function CreditUnit(s: EditState, unit: Word): EditState {
    if unit == BACKSPACE then s
    else if s.pending != 0 then
      s.(removable := if LowSurrogate(unit) then Increment(s.removable) else s.removable,
         pending := 0, endedCr := false)
    else if HighSurrogate(unit) then s.(pending := unit, endedCr := false)
    else if LowSurrogate(unit) then s.(endedCr := false)
    else if unit == LF && s.endedCr then s.(endedCr := false)
    else s.(endedCr := unit == CR, removable := Increment(s.removable))
  }

  function CreditInput(s: EditState, input: Input): EditState {
    if input.UnicodePress() then CreditUnit(s, input.scan) else s
  }

  function CreditTo(s: EditState, inputs: seq<Input>, n: nat): EditState
    requires n <= |inputs|
  {
    if n == 0 then s else CreditInput(CreditTo(s, inputs, n - 1), inputs[n - 1])
  }

  /** credit_semantic_text. */
  method CreditSemanticText(state: EditState, inputs: seq<Input>) returns (next: EditState)
    ensures next == CreditTo(state, inputs, |inputs|)
  {
    next := state;
    for index := 0 to |inputs|
      invariant next == CreditTo(state, inputs, index)
    {
      var input := inputs[index];
      if !input.Unicode() || input.KeyUp() {
        continue;
      }
      var unit := input.scan;
      if unit == BACKSPACE {
        continue;
      }
      if next.pending != 0 {
        if 0xDC00 <= unit <= 0xDFFF && next.removable < MAXDWORD {
          next := next.(removable := next.removable + 1);
        }
        next := next.(pending := 0, endedCr := false);
        continue;
      }
      if 0xD800 <= unit <= 0xDBFF {
        next := next.(pending := unit, endedCr := false);
        continue;
      }
      if 0xDC00 <= unit <= 0xDFFF {
        next := next.(endedCr := false);
        continue;
      }
      if unit == LF && next.endedCr {
        next := next.(endedCr := false);
        continue;
      }
      next := next.(endedCr := unit == CR);
      if next.removable < MAXDWORD {
        next := next.(removable := next.removable + 1);
      }
    }
  }

  /** input_to_x11_event. */
  function ToX11Event(p: Platform, input: Input): Option<Event> {
    match input
    case Hardware => None
    case Mouse(flags, dx, dy, data) => Some(Event(X11_INPUT_MOUSE, flags, dx, dy, data, 0, 0))
    case Keyboard(vk, scan, flags) =>
      if input.Unicode() then None
      else if KEYEVENTF_SCANCODE in flags then
        if scan == 0 then None else Some(Event(X11_INPUT_KEYBOARD, flags, 0, 0, 0, vk, scan))
      else
        var mapped := p.mapVirtualKey(vk);
        var extended := if mapped / 256 % 256 == 0xE0 then {KEYEVENTF_EXTENDED} else {};
        if mapped % 256 == 0 then None
        else Some(Event(X11_INPUT_KEYBOARD, flags + extended, 0, 0, 0, vk, mapped % 256))
  }

  /** The virtual-key form of a Backspace that arrived as a character. */
  function EditingKey(input: Input): Input
    requires input.Keyboard?
  {
    Keyboard(VK_BACK, 0, input.flags * {KEYEVENTF_KEYUP})
  }

  // ----- The clamp: what send_x11_clipboard_text keeps of a batch -----

  datatype Clamp = Clamp(state: EditState, events: seq<Event>, clamped: nat, pressForwarded: bool)

  function ClampStart(s: EditState): Clamp { Clamp(s, [], 0, false) }

  /** The allowance decision for one input: skip it, or go on with this state. */
  function Allow(a: Clamp, input: Input): (r: (bool, Clamp)) {
    if !IsBackspace(input) then (true, a)
    else if input.KeyUp() then (a.pressForwarded, a.(pressForwarded := false))
    else if a.state.removable == 0 then (false, a.(clamped := a.clamped + 1))
    else (true, a.(state := a.state.(removable := a.state.removable - 1), pressForwarded := true))
  }

  /** The event an allowed input becomes; the character ups disappear. */
  datatype Forward = Untranslatable | Dropped | Forwarded(event: Event)

  function ForwardOf(p: Platform, input: Input): Forward {
    if input.Unicode() then
      if input.scan == BACKSPACE then
        match ToX11Event(p, EditingKey(input)) case None => Untranslatable case Some(e) => Forwarded(e)
      else if input.KeyUp() then Dropped
      else Forwarded(TextEvent(input.scan))
    else match ToX11Event(p, input) case None => Untranslatable case Some(e) => Forwarded(e)
  }

  function ClampInput(p: Platform, a: Clamp, input: Input): Option<Clamp> {
    var (allowed, b) := Allow(a, input);
    if !allowed then Some(b)
    else match ForwardOf(p, input)
      case Untranslatable => None
      case Dropped => Some(b)
      case Forwarded(e) => Some(b.(events := b.events + [e], state := CreditInput(b.state, input)))
  }

  /** The first n inputs of a batch, or None once an input cannot be translated. */
  function ClampTo(p: Platform, s: EditState, inputs: seq<Input>, n: nat): Option<Clamp>
    requires n <= |inputs|
  {
    if n == 0 then Some(ClampStart(s))
    else match ClampTo(p, s, inputs, n - 1)
      case None => None
      case Some(a) => ClampInput(p, a, inputs[n - 1])
  }

  lemma {:induction false} ClampStuck(p: Platform, s: EditState, inputs: seq<Input>, i: nat, n: nat)
    requires i <= n <= |inputs| && ClampTo(p, s, inputs, i).None?
    ensures ClampTo(p, s, inputs, n).None?
    decreases n
  {
    if i < n { ClampStuck(p, s, inputs, i, n - 1); }
  }

  lemma {:induction false} ClampPrefix(p: Platform, s: EditState, inputs: seq<Input>, i: nat, n: nat)
    requires i <= n <= |inputs| && ClampTo(p, s, inputs, n).Some?
    ensures ClampTo(p, s, inputs, i).Some?
  {
    if ClampTo(p, s, inputs, i).None? { ClampStuck(p, s, inputs, i, n); }
  }

  // ----- Balance of the clamp -----

  predicate Press(input: Input) { IsBackspace(input) && !input.KeyUp() }

  predicate Release(input: Input) { IsBackspace(input) && input.KeyUp() }

  function Presses(inputs: seq<Input>, n: nat): nat
    requires n <= |inputs|
  {
    if n == 0 then 0 else Presses(inputs, n - 1) + (if Press(inputs[n - 1]) then 1 else 0)
  }

  /** Input n - 1 left an event behind. */
  predicate Emitted(p: Platform, s: EditState, inputs: seq<Input>, n: nat)
    requires 0 < n <= |inputs|
  {
    && ClampTo(p, s, inputs, n).Some?
    && ClampTo(p, s, inputs, n - 1).Some?
    && |ClampTo(p, s, inputs, n).value.events| > |ClampTo(p, s, inputs, n - 1).value.events|
  }

  function ForwardedPresses(p: Platform, s: EditState, inputs: seq<Input>, n: nat): nat
    requires n <= |inputs|
  {
    if n == 0 then 0
    else ForwardedPresses(p, s, inputs, n - 1) + (if Press(inputs[n - 1]) && Emitted(p, s, inputs, n) then 1 else 0)
  }

  function ForwardedReleases(p: Platform, s: EditState, inputs: seq<Input>, n: nat): nat
    requires n <= |inputs|
  {
    if n == 0 then 0
    else ForwardedReleases(p, s, inputs, n - 1) + (if Release(inputs[n - 1]) && Emitted(p, s, inputs, n) then 1 else 0)
  }

  /** How often the clamp's credit has grown in the first n inputs. */
  function Credited(p: Platform, s: EditState, inputs: seq<Input>, n: nat): nat
    requires n <= |inputs|
  {
    if n == 0 then 0
    else
      var grew := ClampTo(p, s, inputs, n).Some? && ClampTo(p, s, inputs, n - 1).Some?
        && ClampTo(p, s, inputs, n).value.state.removable > ClampTo(p, s, inputs, n - 1).value.state.removable;
      Credited(p, s, inputs, n - 1) + (if grew then 1 else 0)
  }

  /** How far the presses have run ahead of the credit after n inputs. */
  function Excess(p: Platform, s: EditState, inputs: seq<Input>, n: nat): int
    requires n <= |inputs|
  {
    Presses(inputs, n) - Credited(p, s, inputs, n) - s.removable
  }

  predicate IsMaximum(p: Platform, s: EditState, inputs: seq<Input>, n: nat, m: int)
    requires n <= |inputs|
  {
    && m >= 0
    && (forall k :: 0 <= k <= n ==> Excess(p, s, inputs, k) <= m)
    && (m == 0 || exists k :: 0 <= k <= n && Excess(p, s, inputs, k) == m)
  }

  lemma BackspaceNeverCredits(s: EditState, input: Input)
    ensures IsBackspace(input) ==> CreditInput(s, input) == s
    ensures s.removable <= CreditInput(s, input).removable <= s.removable + 1
  {}

  lemma ClampInputFacts(p: Platform, a: Clamp, input: Input)
    requires ClampInput(p, a, input).Some?
    ensures var b := ClampInput(p, a, input).value;
            && (Press(input) && a.state.removable == 0 ==> b == a.(clamped := a.clamped + 1))
            && (Press(input) && a.state.removable > 0 ==>
                  && b.state == a.state.(removable := a.state.removable - 1) && b.clamped == a.clamped
                  && b.pressForwarded && |b.events| == |a.events| + 1)
            && (Release(input) ==>
                  && b.state == a.state && b.clamped == a.clamped && !b.pressForwarded
                  && |b.events| == |a.events| + (if a.pressForwarded then 1 else 0))
            && (!IsBackspace(input) ==>
                  && b.clamped == a.clamped && b.pressForwarded == a.pressForwarded
                  && a.state.removable <= b.state.removable <= a.state.removable + 1)
  {
    BackspaceNeverCredits(Allow(a, input).1.state, input);
  }

  /** Also when the counter saturates: every press is forwarded or clamped, the
      credit is conserved, releases never overtake presses, and the number
      clamped is the largest excess of presses over credit at any prefix, or zero. */
  lemma {:induction false} ClampBalance(p: Platform, s: EditState, inputs: seq<Input>, n: nat)
    requires n <= |inputs| && ClampTo(p, s, inputs, n).Some?
    ensures var a := ClampTo(p, s, inputs, n).value;
            var forwarded := ForwardedPresses(p, s, inputs, n);
            && forwarded + a.clamped == Presses(inputs, n)
            && a.state.removable == s.removable + Credited(p, s, inputs, n) - forwarded
            && IsMaximum(p, s, inputs, n, a.clamped)
            && ForwardedReleases(p, s, inputs, n) + (if a.pressForwarded then 1 else 0) <= forwarded
  {
    if n > 0 {
      ClampPrefix(p, s, inputs, n - 1, n);
      ClampBalance(p, s, inputs, n - 1);
      ClampInputFacts(p, ClampTo(p, s, inputs, n - 1).value, inputs[n - 1]);
      var a, b := ClampTo(p, s, inputs, n - 1).value, ClampTo(p, s, inputs, n).value;
      assert Excess(p, s, inputs, n) == b.clamped - b.state.removable;
      assert b.clamped != a.clamped ==> Excess(p, s, inputs, n) == b.clamped;
    } else {
      assert Excess(p, s, inputs, 0) <= 0;
    }
  }

  // ----- Closed form of the clamp -----

  /** Whether a unit completes a character, by the units before it alone. */
  predicate Completes(pending: Word, endedCr: bool, unit: Word) {
    unit != BACKSPACE
    && if pending != 0 then LowSurrogate(unit)
       else !HighSurrogate(unit) && !LowSurrogate(unit) && !(unit == LF && endedCr)
  }

  /** The characters that the first n inputs press; no Backspace has a part in it. */
  function Characters(s: EditState, inputs: seq<Input>, n: nat): nat
    requires n <= |inputs|
  {
    if n == 0 then 0
    else
      var before := CreditTo(s, inputs, n - 1);
      var more := inputs[n - 1].UnicodePress() && Completes(before.pending, before.endedCr, inputs[n - 1].scan);
      Characters(s, inputs, n - 1) + (if more then 1 else 0)
  }

  /** How far the presses have run ahead of the characters after n inputs, and
      the furthest they ever have. */
  function Lead(s: EditState, inputs: seq<Input>, n: nat): int
    requires n <= |inputs|
  {
    Presses(inputs, n) - Characters(s, inputs, n) - s.removable
  }

  function Peak(s: EditState, inputs: seq<Input>, n: nat): nat
    requires n <= |inputs|
  {
    if n == 0 then 0
    else if Lead(s, inputs, n) > Peak(s, inputs, n - 1) then Lead(s, inputs, n)
    else Peak(s, inputs, n - 1)
  }

  lemma InputFollowsText(p: Platform, a: Clamp, t: EditState, input: Input)
    requires ClampInput(p, a, input).Some? && a.state.pending == t.pending && a.state.endedCr == t.endedCr
    ensures var b, u := ClampInput(p, a, input).value.state, CreditInput(t, input);
            b.pending == u.pending && b.endedCr == u.endedCr
    ensures !IsBackspace(input) && a.state.removable < MAXDWORD ==>
              ClampInput(p, a, input).value.state.removable
              == a.state.removable
                 + if input.UnicodePress() && Completes(t.pending, t.endedCr, input.scan) then 1 else 0
  {
    BackspaceNeverCredits(Allow(a, input).1.state, input);
  }

  /** Surrogate and CR state follow the text, whatever the clamp does. */
  lemma {:induction false} ClampFollowsText(p: Platform, s: EditState, inputs: seq<Input>, n: nat)
    requires n <= |inputs| && ClampTo(p, s, inputs, n).Some?
    ensures var a, t := ClampTo(p, s, inputs, n).value.state, CreditTo(s, inputs, n);
            a.pending == t.pending && a.endedCr == t.endedCr
  {
    if n > 0 {
      ClampPrefix(p, s, inputs, n - 1, n);
      ClampFollowsText(p, s, inputs, n - 1);
      InputFollowsText(p, ClampTo(p, s, inputs, n - 1).value, CreditTo(s, inputs, n - 1), inputs[n - 1]);
    }
  }

  /** Final credit, number clamped and number forwarded, from the starting credit
      and the batch alone: as long as the counter cannot saturate, the number
      clamped is the furthest lead of presses over characters. */
  lemma {:induction false} ClampClosedForm(p: Platform, s: EditState, inputs: seq<Input>, n: nat)
    requires n <= |inputs| && ClampTo(p, s, inputs, n).Some?
    requires s.removable + Characters(s, inputs, n) <= MAXDWORD
    ensures var a := ClampTo(p, s, inputs, n).value;
            && a.clamped == Peak(s, inputs, n)
            && ForwardedPresses(p, s, inputs, n) == Presses(inputs, n) - Peak(s, inputs, n)
            && a.state.removable == s.removable + Characters(s, inputs, n) - ForwardedPresses(p, s, inputs, n)
  {
    hide CreditInput, ClampInput, IsMaximum;
    ClampBalance(p, s, inputs, n);
    if n > 0 {
      ClampPrefix(p, s, inputs, n - 1, n);
      ClampClosedForm(p, s, inputs, n - 1);
      ClampBalance(p, s, inputs, n - 1);
      ClampFollowsText(p, s, inputs, n - 1);
      InputFollowsText(p, ClampTo(p, s, inputs, n - 1).value, CreditTo(s, inputs, n - 1), inputs[n - 1]);
      ClampInputFacts(p, ClampTo(p, s, inputs, n - 1).value, inputs[n - 1]);
    }
  }

  // ----- Credit and decoder agree -----

  /** Code points the units stand for, by the broker's reading. */
  lemma CreditFollowsDecoder(s: EditState, c: Carry, unit: Word)
    requires c.Valid() && c == Carry(s.pending, s.endedCr) && (c.pending != 0 ==> !c.endedCr)
    requires unit != BACKSPACE && Step(c, TextEvent(unit)).Some? && s.removable < MAXDWORD
    ensures var d := Step(c, TextEvent(unit)).value;
            var next := CreditUnit(s, unit);
            && d.carry == Carry(next.pending, next.endedCr)
            && (d.carry.pending != 0 ==> !d.carry.endedCr)
            && next.removable == s.removable + |d.cps|
  {}
}
