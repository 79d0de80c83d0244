/** One session of the native helper: it decodes and pastes text requests,
    injects key and pointer requests through XTEST, and remembers what it holds
    down so that it can let go when the client leaves. */
module X11Helper {
  import opened InputTypes
  import opened Basics
  import opened Utf8
  import opened Utf16Text

  const ERROR_NONE: Dword := 0
  const ERROR_UNSUPPORTED: Dword := 0x2002
  const ERROR_INJECTION: Dword := 0x2003

  const MOUSE_MOVE := 0x0001
  const MOUSE_LEFTDOWN := 0x0002
  const MOUSE_LEFTUP := 0x0004
  const MOUSE_RIGHTDOWN := 0x0008
  const MOUSE_RIGHTUP := 0x0010
  const MOUSE_MIDDLEDOWN := 0x0020
  const MOUSE_MIDDLEUP := 0x0040
  const MOUSE_XDOWN := 0x0080
  const MOUSE_XUP := 0x0100
  const MOUSE_WHEEL := 0x0800
  const MOUSE_HWHEEL := 0x1000
  const MOUSE_MOVE_NOCOALESCE := 0x2000
  const MOUSE_VIRTUALDESK := 0x4000
  const MOUSE_ABSOLUTE := 0x8000

  const ALLOWED_MOUSE_FLAGS: Flags :=
    {MOUSE_MOVE, MOUSE_LEFTDOWN, MOUSE_LEFTUP, MOUSE_RIGHTDOWN, MOUSE_RIGHTUP, MOUSE_MIDDLEDOWN, MOUSE_MIDDLEUP,
     MOUSE_XDOWN, MOUSE_XUP, MOUSE_WHEEL, MOUSE_HWHEEL, MOUSE_MOVE_NOCOALESCE, MOUSE_VIRTUALDESK, MOUSE_ABSOLUTE}

  /** What the X server is told, in order. */
  datatype ServerEvent = KeyChange(keycode: nat, down: bool) | ButtonChange(button: nat, down: bool)
                       | Motion(x: int, y: int, absolute: bool)

  function HeldKeys(server: seq<ServerEvent>): set<nat> {
    if server == [] then {}
    else
      var before, last := HeldKeys(server[..|server| - 1]), server[|server| - 1];
      if !last.KeyChange? then before else if last.down then before + {last.keycode} else before - {last.keycode}
  }

  function HeldButtons(server: seq<ServerEvent>): set<nat> {
    if server == [] then {}
    else
      var before, last := HeldButtons(server[..|server| - 1]), server[|server| - 1];
      if !last.ButtonChange? then before else if last.down then before + {last.button} else before - {last.button}
  }

  lemma HeldSnoc(server: seq<ServerEvent>, e: ServerEvent)
    ensures HeldKeys(server + [e]) ==
            if !e.KeyChange? then HeldKeys(server)
            else if e.down then HeldKeys(server) + {e.keycode} else HeldKeys(server) - {e.keycode}
    ensures HeldButtons(server + [e]) ==
            if !e.ButtonChange? then HeldButtons(server)
            else if e.down then HeldButtons(server) + {e.button} else HeldButtons(server) - {e.button}
  {
    assert (server + [e])[..|server|] == server;
  }

  /** What the client's requests did to the desktop, in order. */
  datatype Injection = Pasted(cps: seq<int>) | Injected(event: Event)

  /** The X keyboard: keycodes of the extended keys and of the paste chord. */
  datatype Keymap = Keymap(extended: Word -> nat, shift: nat, insert: nat) {
    // Section 5 of the X Window System Protocol: keycodes lie in 8..255; 0 is "none".
    ghost predicate Valid() {
      && (forall scan :: extended(scan) == 0 || 8 <= extended(scan) <= 255)
      && (shift == 0 || 8 <= shift <= 255)
      && (insert == 0 || 8 <= insert <= 255)
    }
  }

  predicate KnownExtendedScan(scan: Word) {
    scan in {0x1C, 0x1D, 0x35, 0x37, 0x38, 0x47, 0x48, 0x49, 0x4B, 0x4D, 0x4F, 0x50, 0x51, 0x52, 0x53, 0x5B, 0x5C, 0x5D}
  }

  /** event_to_x_keycode: 0 when the helper knows no key for the event. */
  function XKeycode(keymap: Keymap, e: Event): nat {
    var scan := e.scan % 256;
    if scan == 0 || KEYEVENTF_UNICODE in e.flags then 0
    else if KEYEVENTF_EXTENDED in e.flags then
      if KnownExtendedScan(scan) then keymap.extended(scan) else 0
    else if scan > 247 then 0
    else scan + 8
  }

  function Signed(data: Dword): int { if data >= 0x8000_0000 then data - 0x1_0000_0000 else data }

  /** valid_mouse_event. */
  predicate ValidMouseEvent(e: Event) {
    && e.flags <= ALLOWED_MOUSE_FLAGS
    && !(MOUSE_WHEEL in e.flags && MOUSE_HWHEEL in e.flags)
    && (MOUSE_WHEEL in e.flags || MOUSE_HWHEEL in e.flags ==> e.data != 0)
    && (MOUSE_XDOWN in e.flags || MOUSE_XUP in e.flags ==> e.data % 65536 == 1 || e.data % 65536 == 2)
  }

  /** The preflight of a key or pointer request. */
  predicate Supported(keymap: Keymap, e: Event) {
    if e.kind == X11_INPUT_KEYBOARD then XKeycode(keymap, e) != 0
    else e.kind == X11_INPUT_MOUSE && ValidMouseEvent(e)
  }

  function WheelSteps(delta: int): (steps: nat)
    ensures steps <= 32 && (steps == 0 <==> delta == 0)
  {
    var magnitude := if delta < 0 then -delta else delta;
    var steps := (magnitude + 119) / 120;
    if steps > 32 then 32 else steps
  }

  function ButtonIf(e: Event, mask: int, button: nat, down: bool): seq<ServerEvent>
  {
    if mask in e.flags then [ButtonChange(button, down)] else []
  }

  function ExtraButton(e: Event): nat { if e.data % 65536 == 1 then 8 else 9 }

  /** The button flags in the order in which they are looked at. */
  datatype ButtonRule = ButtonRule(mask: int, button: nat, down: bool)

  function ButtonRules(e: Event): (rules: seq<ButtonRule>)
    ensures |rules| == 8 && forall r <- rules :: 1 <= r.button < 10
  {
    [ButtonRule(MOUSE_LEFTDOWN, 1, true), ButtonRule(MOUSE_LEFTUP, 1, false),
     ButtonRule(MOUSE_RIGHTDOWN, 3, true), ButtonRule(MOUSE_RIGHTUP, 3, false),
     ButtonRule(MOUSE_MIDDLEDOWN, 2, true), ButtonRule(MOUSE_MIDDLEUP, 2, false),
     ButtonRule(MOUSE_XDOWN, ExtraButton(e), true), ButtonRule(MOUSE_XUP, ExtraButton(e), false)]
  }

  function ButtonEffectTo(e: Event, n: nat): seq<ServerEvent>
    requires n <= 8
  {
    if n == 0 then []
    else
      var rule := ButtonRules(e)[n - 1];
      ButtonEffectTo(e, n - 1) + ButtonIf(e, rule.mask, rule.button, rule.down)
  }

  function ButtonEffect(e: Event): seq<ServerEvent> {
    ButtonEffectTo(e, 8)
  }

  function Clicks(button: nat, steps: nat): seq<ServerEvent> {
    if steps == 0 then [] else Clicks(button, steps - 1) + [ButtonChange(button, true), ButtonChange(button, false)]
  }

  function WheelIf(e: Event, mask: int, forward: nat, backward: nat): seq<ServerEvent>
  {
    var delta := Signed(e.data);
    if mask in e.flags then Clicks(if delta > 0 then forward else backward, WheelSteps(delta)) else []
  }

  function MotionEffect(e: Event): seq<ServerEvent> {
    if MOUSE_MOVE in e.flags then [Motion(e.x, e.y, MOUSE_ABSOLUTE in e.flags)] else []
  }

  /** What the server is told for one supported event. */
  function EventEffect(keymap: Keymap, e: Event): seq<ServerEvent> {
    if e.kind == X11_INPUT_KEYBOARD then [KeyChange(XKeycode(keymap, e), !e.KeyUp())]
    else MotionEffect(e) + ButtonEffect(e) + WheelIf(e, MOUSE_WHEEL, 4, 5) + WheelIf(e, MOUSE_HWHEEL, 7, 6)
  }

  function EventEffects(keymap: Keymap, events: seq<Event>, n: nat): seq<ServerEvent>
    requires n <= |events|
  {
    if n == 0 then [] else EventEffects(keymap, events, n - 1) + EventEffect(keymap, events[n - 1])
  }

  function InjectedAll(events: seq<Event>): seq<Injection> {
    seq(|events|, i requires 0 <= i < |events| => Injected(events[i]))
  }

  function PastedText(cps: seq<int>): seq<Injection> {
    if cps == [] then [] else [Pasted(cps)]
  }

  /** What an accepted request does, from the carry the helper had. */
  function RequestEffect(c: Carry, events: seq<Event>): (r: Option<(Carry, seq<Injection>)>)
    requires c.Valid() && events != []
    ensures r.Some? ==> r.value.0.Valid()
  {
    if events[0].kind == X11_INPUT_TEXT then
      match Run(c, events) case None => None case Some(d) => Some((d.carry, PastedText(d.cps)))
    else Some((c, InjectedAll(events)))
  }

  /** What a request may do at most: nothing if it is not accepted. */
  function Effect(c: Carry, events: seq<Event>): seq<Injection>
    requires c.Valid() && events != []
  {
    match RequestEffect(c, events) case None => [] case Some((_, done)) => done
  }

  // ----- The Backspace key -----

  /** X keycodes are scan codes plus 8. */
  const BACKSPACE_KEYCODE := 0x0E + 8

  /** Whether Backspace is down after the first n events of a request. */
  function BackspaceAfter(keymap: Keymap, held: bool, events: seq<Event>, n: nat): bool
    requires n <= |events|
  {
    if n == 0 then held
    else if events[n - 1].kind == X11_INPUT_KEYBOARD && XKeycode(keymap, events[n - 1]) == BACKSPACE_KEYCODE then
      !events[n - 1].KeyUp()
    else BackspaceAfter(keymap, held, events, n - 1)
  }

  predicate NoKeys(more: seq<ServerEvent>) {
    forall e <- more :: !e.KeyChange?
  }

  lemma {:induction false} NoKeysNoChange(server: seq<ServerEvent>, more: seq<ServerEvent>)
    requires NoKeys(more)
    ensures HeldKeys(server + more) == HeldKeys(server)
    decreases |more|
  {
    if more == [] {
      assert server + more == server;
    } else {
      var init, last := more[..|more| - 1], more[|more| - 1];
      NoKeysNoChange(server, init);
      HeldSnoc(server + init, last);
      assert server + init + [last] == server + more;
    }
  }

  lemma {:induction false} ClicksGrow(button: nat, n: nat, m: nat)
    requires n <= m
    ensures Clicks(button, n) <= Clicks(button, m)
  {
    if n < m {
      ClicksGrow(button, n, m - 1);
    }
  }

  lemma {:induction false} ClicksAreNoKeys(button: nat, steps: nat)
    ensures NoKeys(Clicks(button, steps))
  {
    if steps > 0 {
      ClicksAreNoKeys(button, steps - 1);
    }
  }

  lemma {:induction false} ButtonsGrow(e: Event, n: nat, m: nat)
    requires n <= m <= 8
    ensures ButtonEffectTo(e, n) <= ButtonEffectTo(e, m) && NoKeys(ButtonEffectTo(e, n))
    decreases m
  {
    if n < m {
      ButtonsGrow(e, n, m - 1);
    } else if n > 0 {
      ButtonsGrow(e, n - 1, n - 1);
    }
  }

  lemma PointerEventsAreNoKeys(keymap: Keymap, e: Event)
    requires e.kind != X11_INPUT_KEYBOARD
    ensures NoKeys(EventEffect(keymap, e))
  {
    var steps := WheelSteps(Signed(e.data));
    ButtonsGrow(e, 8, 8);
    ClicksAreNoKeys(4, steps);
    ClicksAreNoKeys(5, steps);
    ClicksAreNoKeys(6, steps);
    ClicksAreNoKeys(7, steps);
  }

  lemma HeldAfterEvent(keymap: Keymap, server: seq<ServerEvent>, e: Event)
    ensures (BACKSPACE_KEYCODE in HeldKeys(server + EventEffect(keymap, e)))
            == if e.kind == X11_INPUT_KEYBOARD && XKeycode(keymap, e) == BACKSPACE_KEYCODE then !e.KeyUp()
               else BACKSPACE_KEYCODE in HeldKeys(server)
  {
    if e.kind == X11_INPUT_KEYBOARD {
      HeldSnoc(server, EventEffect(keymap, e)[0]);
    } else {
      PointerEventsAreNoKeys(keymap, e);
      NoKeysNoChange(server, EventEffect(keymap, e));
    }
  }

  /** The server's log and the request agree on the Backspace key. */
  lemma {:induction false} HeldAfterEffects(keymap: Keymap, server: seq<ServerEvent>, events: seq<Event>, n: nat)
    requires n <= |events|
    ensures (BACKSPACE_KEYCODE in HeldKeys(server + EventEffects(keymap, events, n)))
            == BackspaceAfter(keymap, BACKSPACE_KEYCODE in HeldKeys(server), events, n)
  {
    hide EventEffect, HeldKeys, XKeycode;
    if n == 0 {
      assert server + [] == server;
    } else {
      HeldAfterEffects(keymap, server, events, n - 1);
      var before, more := server + EventEffects(keymap, events, n - 1), EventEffect(keymap, events[n - 1]);
      assert before + more == server + EventEffects(keymap, events, n);
      HeldAfterEvent(keymap, before, events[n - 1]);
    }
  }

  lemma {:induction false} TextLeavesBackspace(keymap: Keymap, held: bool, events: seq<Event>, n: nat)
    requires n <= |events| && forall i :: 0 <= i < n ==> events[i].kind != X11_INPUT_KEYBOARD
    ensures BackspaceAfter(keymap, held, events, n) == held
  {
    if n > 0 {
      TextLeavesBackspace(keymap, held, events, n - 1);
    }
  }

  lemma {:induction false} AcceptedAreText(c: Carry, events: seq<Event>, n: nat)
    requires c.Valid() && n <= |events| && RunTo(c, events, n).Some?
    ensures forall i :: 0 <= i < n ==> events[i].kind == X11_INPUT_TEXT
  {
    if n > 0 {
      AcceptedAreText(c, events, n - 1);
    }
  }

  lemma InjectedPart(events: seq<Event>, n: nat)
    requires n <= |events|
    ensures InjectedAll(events[..n]) <= InjectedAll(events)
  {
  }

  lemma Gather(start: seq<ServerEvent>, a: seq<ServerEvent>, b: seq<ServerEvent>, c: seq<ServerEvent>,
               d: seq<ServerEvent>)
    ensures start + a + b + c + d == start + (a + b + c + d)
  {}

  lemma WithinParts(server: seq<ServerEvent>, start: seq<ServerEvent>, a: seq<ServerEvent>, b: seq<ServerEvent>,
                    c: seq<ServerEvent>, d: seq<ServerEvent>)
    requires server <= start + a || server <= start + a + b || server <= start + a + b + c
             || server <= start + a + b + c + d
    ensures server <= start + (a + b + c + d)
  {
    Gather(start, a, b, c, d);
  }

  lemma NoEffect(keymap: Keymap, start: seq<ServerEvent>, events: seq<Event>)
    ensures start + EventEffects(keymap, events, 0) == start
  {
    assert start + [] == start;
  }

  lemma {:induction false} EffectsGrow(keymap: Keymap, start: seq<ServerEvent>, events: seq<Event>, n: nat, m: nat)
    requires n <= m <= |events|
    ensures start + EventEffects(keymap, events, n) <= start + EventEffects(keymap, events, m)
    decreases m
  {
    hide EventEffect;
    if n < m {
      EffectsGrow(keymap, start, events, n, m - 1);
      Associate(start, EventEffects(keymap, events, m - 1), EventEffect(keymap, events[m - 1]));
    }
  }

  lemma Associate(a: seq<ServerEvent>, b: seq<ServerEvent>, c: seq<ServerEvent>)
    ensures a + b + c == a + (b + c)
  {}

  lemma InjectedSnoc(events: seq<Event>, index: nat)
    requires index < |events|
    ensures InjectedAll(events[..index + 1]) == InjectedAll(events[..index]) + [Injected(events[index])]
  {}

  class Session {
    const keymap: Keymap
    const pressedKeys: array<bool>
    const pressedButtons: array<bool>
    var previousEndedCr: bool
    var pendingHighSurrogate: Word
    ghost var server: seq<ServerEvent>
    ghost var injected: seq<Injection>

    function CarryNow(): Carry
      reads this
    {
      Carry(pendingHighSurrogate, previousEndedCr)
    }

    /** The keys of the paste chord are not the Backspace key. */
    predicate PlainChord() {
      keymap.shift != BACKSPACE_KEYCODE && keymap.insert != BACKSPACE_KEYCODE
    }

    ghost predicate BackspaceHeld()
      reads this`server
    {
      BACKSPACE_KEYCODE in HeldKeys(server)
    }

    ghost predicate Valid()
      reads this, pressedKeys, pressedButtons
    {
      && keymap.Valid()
      && pressedKeys != pressedButtons && pressedKeys.Length == 256 && pressedButtons.Length == 10
      && CarryNow().Valid()
      && Recorded()
    }

    /** Whatever the session holds down on the X server is on record. */
    ghost predicate Recorded()
      requires pressedKeys.Length == 256 && pressedButtons.Length == 10
      reads this, pressedKeys, pressedButtons
    {
      && (forall k :: k in HeldKeys(server) ==> 8 <= k < 256 && pressedKeys[k])
      && (forall b :: b in HeldButtons(server) ==> 1 <= b < 10 && pressedButtons[b])
    }

    /** A session that has just been accepted. */
    ghost predicate Idle()
      reads this
    {
      CarryNow() == START && HeldKeys(server) == {} && HeldButtons(server) == {}
    }

    constructor (keymap: Keymap)
      requires keymap.Valid()
      ensures Valid() && Idle() && injected == []
      ensures fresh(pressedKeys) && fresh(pressedButtons) && this.keymap == keymap
    {
      this.keymap := keymap;
      pressedKeys, pressedButtons := new bool[256](_ => false), new bool[10](_ => false);
      previousEndedCr, pendingHighSurrogate := false, 0;
      server, injected := [], [];
    }

    /** XTestFakeKeyEvent: it fails without effect, or the server takes the change. */
    method FakeKeyEvent(keycode: nat, down: bool) returns (ok: bool)
      modifies this`server
      ensures server == if ok then old(server) + [KeyChange(keycode, down)] else old(server)
      ensures HeldButtons(server) == HeldButtons(old(server))
      ensures ok ==>
                HeldKeys(server)
                == if down then HeldKeys(old(server)) + {keycode} else HeldKeys(old(server)) - {keycode}
    {
      ok := *;
      if ok {
        HeldSnoc(server, KeyChange(keycode, down));
        server := server + [KeyChange(keycode, down)];
      }
    }

    /** A key release whose outcome the helper does not check; it is taken to succeed. */
    method ReleaseKey(keycode: nat)
      modifies this`server
      ensures server == old(server) + [KeyChange(keycode, false)]
      ensures HeldButtons(server) == HeldButtons(old(server)) && HeldKeys(server) == HeldKeys(old(server)) - {keycode}
    {
      HeldSnoc(server, KeyChange(keycode, false));
      server := server + [KeyChange(keycode, false)];
    }

    /** The clean-up after a chord that broke off. */
    method ReleaseChord(insertPressed: bool, shiftPressedHere: bool)
      requires keymap.Valid() && pressedKeys.Length == 256 && pressedButtons.Length == 10
      requires forall k :: k in HeldKeys(server) ==>
                 (8 <= k < 256 && pressedKeys[k])
                 || (insertPressed && k == keymap.insert) || (shiftPressedHere && k == keymap.shift)
      requires forall b :: b in HeldButtons(server) ==> 1 <= b < 10 && pressedButtons[b]
      modifies this`server
      ensures Recorded() && old(server) <= server
      ensures !insertPressed && !shiftPressedHere ==> server == old(server)
      ensures HeldKeys(server) == HeldKeys(old(server)) - (if insertPressed then {keymap.insert} else {})
                                  - (if shiftPressedHere then {keymap.shift} else {})
    {
      if insertPressed {
        ReleaseKey(keymap.insert);
      }
      if shiftPressedHere {
        ReleaseKey(keymap.shift);
      }
    }

    /** The Shift+Insert chord of inject_clipboard_text; a Shift that is already
        held is left alone. */
    method PasteChord() returns (ok: bool)
      requires Valid() && keymap.shift != 0 && keymap.insert != 0
      modifies this`server
      ensures Valid() && old(server) <= server
      ensures ok && pressedKeys[keymap.shift] ==>
                server == old(server) + [KeyChange(keymap.insert, true), KeyChange(keymap.insert, false)]
      ensures ok && !pressedKeys[keymap.shift] ==>
                server == old(server) + [KeyChange(keymap.shift, true), KeyChange(keymap.insert, true),
                                         KeyChange(keymap.insert, false), KeyChange(keymap.shift, false)]
      ensures forall k :: k != keymap.shift && k != keymap.insert ==>
                (k in HeldKeys(server) <==> k in HeldKeys(old(server)))
      ensures pressedKeys[keymap.shift] && keymap.shift != keymap.insert ==>
                (keymap.shift in HeldKeys(server) <==> keymap.shift in HeldKeys(old(server)))
    {
      hide HeldKeys, HeldButtons;
      var shiftWasPressed := pressedKeys[keymap.shift];
      var shiftPressedHere, insertPressed := false, false;
      if !shiftWasPressed {
        ok := FakeKeyEvent(keymap.shift, true);
        if !ok { return; }
        shiftPressedHere := true;
      }
      ok := FakeKeyEvent(keymap.insert, true);
      if ok {
        ok := FakeKeyEvent(keymap.insert, false);
        insertPressed := !ok;
      }
      if ok && shiftPressedHere {
        ok := FakeKeyEvent(keymap.shift, false);
        shiftPressedHere := !ok;
      }
      ReleaseChord(insertPressed, shiftPressedHere);
    }

    /** inject_clipboard_text: on failure the target may or may not have pasted. */
    method InjectClipboardText(ghost cps: seq<int>, size: nat) returns (ok: bool)
      requires Valid() && AllScalar(cps) && size == |Encode(cps)|
      modifies this`server, this`injected
      ensures Valid() && old(server) <= server
      ensures ok ==> injected == old(injected) + PastedText(cps)
      ensures !ok ==> injected == old(injected) || injected == old(injected) + PastedText(cps)
      ensures PlainChord() ==> BackspaceHeld() == old(BackspaceHeld())
    {
      if size == 0 {
        assert cps == [];
        assert injected + [] == injected;
        return true;
      }
      if keymap.shift == 0 || keymap.insert == 0 {
        return false;
      }
      var owned: bool := *;
      if !owned {
        return false;
      }
      ok := PasteChord();
      if !ok { return; }
      var requested: bool := *;
      ghost var pasted: bool := *;
      if requested || pasted {
        injected := injected + [Pasted(cps)];
      }
      assert cps != [];
      return requested;
    }

    method FakeButton(button: nat, press: bool) returns (ok: bool)
      requires Valid() && 1 <= button < 10
      modifies this`server, pressedButtons
      ensures Valid()
      ensures server == if ok then old(server) + [ButtonChange(button, press)] else old(server)
    {
      ok := *;
      if ok {
        HeldSnoc(server, ButtonChange(button, press));
        server := server + [ButtonChange(button, press)];
        pressedButtons[button] := press;
      }
    }

    method FakeWheel(button: nat, steps: nat) returns (ok: bool)
      requires Valid() && 1 <= button < 10
      modifies this`server, pressedButtons
      ensures Valid() && old(server) <= server
      ensures ok ==> server == old(server) + Clicks(button, steps)
      ensures server <= old(server) + Clicks(button, steps)
    {
      for index := 0 to steps
        invariant Valid() && server == old(server) + Clicks(button, index)
      {
        ClicksGrow(button, index, steps);
        ClicksGrow(button, index + 1, steps);
        ok := FakeButton(button, true);
        if !ok { return; }
        ok := FakeButton(button, false);
        if !ok { return; }
      }
      return true;
    }

    /** One XTEST call if the flag is set. */
    method FakeButtonIf(e: Event, n: nat, ghost start: seq<ServerEvent>) returns (ok: bool)
      requires Valid() && n < 8 && server == start + ButtonEffectTo(e, n)
      modifies this`server, pressedButtons
      ensures Valid() && old(server) <= server
      ensures server == start + ButtonEffectTo(e, if ok then n + 1 else n)
    {
      var rule := ButtonRules(e)[n];
      assert rule in ButtonRules(e);
      ok := true;
      if rule.mask in e.flags {
        ok := FakeButton(rule.button, rule.down);
      } else {
        assert ButtonEffectTo(e, n) + [] == ButtonEffectTo(e, n);
      }
    }

    /** The button part of a pointer event: one call per flag, stopping at the first failure. */
    method InjectButtons(e: Event) returns (ok: bool)
      requires Valid()
      modifies this`server, pressedButtons
      ensures Valid() && old(server) <= server <= old(server) + ButtonEffect(e)
      ensures ok ==> server == old(server) + ButtonEffect(e)
    {
      assert server + [] == server;
      ok := true;
      for n := 0 to 8
        invariant Valid() && server == old(server) + ButtonEffectTo(e, n)
      {
        ok := FakeButtonIf(e, n, old(server));
        if !ok {
          ButtonsGrow(e, n, 8);
          return;
        }
      }
    }

    /** Motion, buttons and wheels of a pointer event; a refusal leaves a first part. */
    method InjectMouseEvent(e: Event) returns (ok: bool)
      requires Valid() && e.kind != X11_INPUT_KEYBOARD
      modifies this`server, pressedButtons
      ensures Valid() && old(server) <= server <= old(server) + EventEffect(keymap, e)
      ensures ok ==> server == old(server) + EventEffect(keymap, e)
    {
      hide ButtonEffect, Clicks, HeldKeys, HeldButtons, WheelSteps, MotionEffect, WheelIf;
      ghost var start := server;
      ghost var motion, buttons := MotionEffect(e), ButtonEffect(e);
      ghost var wheel, hwheel := WheelIf(e, MOUSE_WHEEL, 4, 5), WheelIf(e, MOUSE_HWHEEL, 7, 6);
      assert server <= start + motion;
      WithinParts(server, start, motion, buttons, wheel, hwheel);
      ok := InjectMotion(e);
      if !ok { return; }
      ok := InjectButtons(e);
      WithinParts(server, start, motion, buttons, wheel, hwheel);
      if !ok { return; }
      ok := InjectWheel(e, MOUSE_WHEEL, 4, 5);
      WithinParts(server, start, motion, buttons, wheel, hwheel);
      if !ok { return; }
      ok := InjectWheel(e, MOUSE_HWHEEL, 7, 6);
      WithinParts(server, start, motion, buttons, wheel, hwheel);
      Gather(start, motion, buttons, wheel, hwheel);
    }

    method InjectMotion(e: Event) returns (ok: bool)
      requires Valid()
      modifies this`server
      ensures Valid()
      ensures server == if ok then old(server) + MotionEffect(e) else old(server)
    {
      if MOUSE_MOVE in e.flags {
        ok := *;
        if !ok { return; }
        HeldSnoc(server, MotionEffect(e)[0]);
        server := server + MotionEffect(e);
      } else {
        assert server + MotionEffect(e) == server;
        ok := true;
      }
    }

    /** The wheel that this flag asks for, turned as far as the event says. */
    method InjectWheel(e: Event, mask: int, forward: nat, backward: nat) returns (ok: bool)
      requires Valid() && 1 <= forward < 10 && 1 <= backward < 10
      modifies this`server, pressedButtons
      ensures Valid() && old(server) <= server <= old(server) + WheelIf(e, mask, forward, backward)
      ensures ok ==> server == old(server) + WheelIf(e, mask, forward, backward)
    {
      hide Clicks, HeldKeys, HeldButtons, WheelSteps;
      if mask in e.flags {
        var delta := Signed(e.data);
        ok := FakeWheel(if delta > 0 then forward else backward, WheelSteps(delta));
      } else {
        assert server + WheelIf(e, mask, forward, backward) == server;
        ok := true;
      }
    }

    /** A text request. The pending surrogate is updated even when the request
        fails, the CR flag only when it succeeds. */
    method ServeText(events: seq<Event>) returns (result: nat, error: Dword)
      requires Valid() && 0 < |events| <= MAX_EVENTS && events[0].kind == X11_INPUT_TEXT
      modifies this
      ensures Valid() && old(server) <= server
      ensures error == ERROR_NONE || error == ERROR_UNSUPPORTED || error == ERROR_INJECTION
      ensures error == ERROR_NONE ==>
                && result == |events|
                && RequestEffect(old(CarryNow()), events).Some?
                && RequestEffect(old(CarryNow()), events).value.0 == CarryNow()
                && injected == old(injected) + RequestEffect(old(CarryNow()), events).value.1
      ensures error == ERROR_UNSUPPORTED ==> server == old(server) && injected == old(injected)
      ensures error == ERROR_UNSUPPORTED <==> Run(old(CarryNow()), events).None?
      ensures error != ERROR_NONE ==> result == 0 && previousEndedCr == old(previousEndedCr)
      ensures error == ERROR_UNSUPPORTED ==> pendingHighSurrogate == 0
      ensures error == ERROR_INJECTION ==> pendingHighSurrogate == Run(old(CarryNow()), events).value.carry.pending
      ensures old(injected) <= injected <= old(injected) + Effect(old(CarryNow()), events)
      ensures PlainChord() ==> BackspaceHeld() == old(BackspaceHeld())
    {
      var text := new Byte[MAX_EVENTS * 4 + 1];
      var ok, length, next := TextEventsToUtf8(events, text, CarryNow());
      pendingHighSurrogate := next.pending;
      if !ok {
        return 0, ERROR_UNSUPPORTED;
      }
      var pasted := InjectClipboardText(Run(old(CarryNow()), events).value.cps, length);
      if !pasted {
        return 0, ERROR_INJECTION;
      }
      previousEndedCr := next.endedCr;
      return |events|, ERROR_NONE;
    }

    method InjectKey(e: Event) returns (ok: bool)
      requires Valid() && e.kind == X11_INPUT_KEYBOARD && Supported(keymap, e)
      modifies this`server, pressedKeys
      ensures Valid()
      ensures server == if ok then old(server) + EventEffect(keymap, e) else old(server)
      ensures pressedKeys[..]
              == if ok then old(pressedKeys[..])[XKeycode(keymap, e) := !e.KeyUp()] else old(pressedKeys[..])
    {
      var keycode := XKeycode(keymap, e);
      ok := FakeKeyEvent(keycode, !e.KeyUp());
      if ok {
        pressedKeys[keycode] := !e.KeyUp();
      }
    }

    method InjectEvent(e: Event, ghost start: seq<ServerEvent>, ghost done: seq<ServerEvent>) returns (ok: bool)
      requires Valid() && Supported(keymap, e) && server == start + done
      modifies this`server, pressedKeys, pressedButtons
      ensures Valid() && old(server) <= server <= start + (done + EventEffect(keymap, e))
      ensures ok ==> server == start + (done + EventEffect(keymap, e))
    {
      if e.kind == X11_INPUT_KEYBOARD {
        ok := InjectKey(e);
      } else {
        ok := InjectMouseEvent(e);
      }
      Associate(start, done, EventEffect(keymap, e));
    }

    /** The injection loop: stops at the first event XTEST refuses, of which the
        server may have been told a first part. */
    method InjectEvents(events: seq<Event>) returns (count: nat)
      requires Valid() && forall i :: 0 <= i < |events| ==> Supported(keymap, events[i])
      modifies this`server, this`injected, pressedKeys, pressedButtons
      ensures Valid() && count <= |events| && injected == old(injected) + InjectedAll(events[..count])
      ensures old(server) + EventEffects(keymap, events, count) <= server
      ensures server <= old(server) + EventEffects(keymap, events, if count < |events| then count + 1 else count)
    {
      hide EventEffect, HeldKeys, HeldButtons;
      assert injected == injected + InjectedAll(events[..0]);
      ghost var start, done := server, [];
      for index := 0 to |events|
        invariant Valid() && done == EventEffects(keymap, events, index) && server == start + done
        invariant injected == old(injected) + InjectedAll(events[..index])
      {
        var ok := InjectEvent(events[index], start, done);
        if !ok {
          return index;
        }
        done := done + EventEffect(keymap, events[index]);
        InjectedSnoc(events, index);
        injected := injected + [Injected(events[index])];
      }
      return |events|;
    }

    /** A key and pointer request: nothing is injected unless every event is supported. */
    method ServeInputs(events: seq<Event>) returns (result: nat, error: Dword)
      requires Valid() && 0 < |events| <= MAX_EVENTS && events[0].kind != X11_INPUT_TEXT
      modifies this`server, this`injected, pressedKeys, pressedButtons
      ensures Valid() && old(server) <= server <= old(server) + EventEffects(keymap, events, |events|)
      ensures error == ERROR_NONE || error == ERROR_UNSUPPORTED || error == ERROR_INJECTION
      ensures error == ERROR_UNSUPPORTED <==> exists i :: 0 <= i < |events| && !Supported(keymap, events[i])
      ensures error == ERROR_UNSUPPORTED ==> result == 0 && server == old(server) && injected == old(injected)
      ensures error == ERROR_NONE ==>
                result == |events| && server == old(server) + EventEffects(keymap, events, |events|)
      ensures result <= |events|
              && (error != ERROR_UNSUPPORTED ==> injected == old(injected) + InjectedAll(events[..result]))
      ensures error == ERROR_INJECTION ==>
                && result < |events| && old(server) + EventEffects(keymap, events, result) <= server
                && server <= old(server) + EventEffects(keymap, events, result + 1)
    {
      hide EventEffects, HeldKeys, HeldButtons;
      EffectsGrow(keymap, server, events, 0, |events|);
      NoEffect(keymap, server, events);
      for index := 0 to |events|
        invariant forall i :: 0 <= i < index ==> Supported(keymap, events[i])
      {
        if !Supported(keymap, events[index]) {
          return 0, ERROR_UNSUPPORTED;
        }
      }
      result := InjectEvents(events);
      EffectsGrow(keymap, old(server), events, 0, result);
      EffectsGrow(keymap, old(server), events, if result < |events| then result + 1 else result, |events|);
      error := if result == |events| then ERROR_NONE else ERROR_INJECTION;
    }

    /** One request of serve_client. */
    method Serve(events: seq<Event>) returns (result: nat, error: Dword)
      requires Valid() && 0 < |events| <= MAX_EVENTS
      modifies this, pressedKeys, pressedButtons
      ensures Valid() && old(server) <= server
      ensures error == ERROR_NONE ==>
                && result == |events|
                && RequestEffect(old(CarryNow()), events).Some?
                && RequestEffect(old(CarryNow()), events).value.0 == CarryNow()
                && injected == old(injected) + RequestEffect(old(CarryNow()), events).value.1
      ensures error == ERROR_UNSUPPORTED ==> server == old(server) && injected == old(injected)
      ensures events[0].kind != X11_INPUT_TEXT ==> server <= old(server) + EventEffects(keymap, events, |events|)
      ensures old(injected) <= injected <= old(injected) + Effect(old(CarryNow()), events)
      ensures error == ERROR_NONE && PlainChord() ==>
                BackspaceHeld() == BackspaceAfter(keymap, old(BackspaceHeld()), events, |events|)
    {
      if events[0].kind == X11_INPUT_TEXT {
        result, error := ServeText(events);
        if error == ERROR_NONE {
          AcceptedAreText(old(CarryNow()), events, |events|);
          TextLeavesBackspace(keymap, old(BackspaceHeld()), events, |events|);
        }
      } else {
        result, error := ServeInputs(events);
        assert events[..|events|] == events;
        InjectedPart(events, result);
        HeldAfterEffects(keymap, old(server), events, |events|);
      }
    }

    /** release_pressed_inputs, when the client has gone; the next session starts idle. */
    method EndSession()
      requires Valid()
      modifies this, pressedKeys, pressedButtons
      ensures Valid() && Idle() && injected == old(injected) && old(server) <= server
      ensures forall k :: 0 <= k < 256 ==> pressedKeys[k] ==> k < 8
    {
      for keycode := 8 to 256
        invariant Valid() && injected == old(injected) && old(server) <= server
        invariant forall k :: 8 <= k < keycode ==> !pressedKeys[k]
      {
        if !pressedKeys[keycode] {
          continue;
        }
        ReleaseKey(keycode);
        pressedKeys[keycode] := false;
      }
      for button := 1 to 10
        invariant Valid() && injected == old(injected) && old(server) <= server
        invariant forall k :: 8 <= k < 256 ==> !pressedKeys[k]
        invariant forall b :: 1 <= b < button ==> !pressedButtons[b]
      {
        if !pressedButtons[button] {
          continue;
        }
        HeldSnoc(server, ButtonChange(button, false));
        server := server + [ButtonChange(button, false)];
        pressedButtons[button] := false;
      }
      previousEndedCr, pendingHighSurrogate := false, 0;
    }
  }
}
