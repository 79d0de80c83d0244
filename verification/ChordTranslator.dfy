/** The broker's translation of phone text into key chords, cut into segments
    that SendInput receives one at a time. */
module ChordTranslator {
  import opened InputTypes
  import opened Basics
  import opened SemanticEdit

  const MAX_TRANSLATED := MAX_EVENTS * 8
  const MAX_SEGMENTS := MAX_EVENTS + 1

  datatype Segment = Segment(offset: nat, count: nat, text: bool)

  /** key_mapping_for_character. */
  function KeyMapping(p: Platform, character: Word): KeyScan {
    if character == BACKSPACE then OnKey(VK_BACK, {})
    else if character == TAB then OnKey(VK_TAB, {})
    else if character == LF || character == CR then OnKey(VK_RETURN, {})
    else p.vkKeyScan(character)
  }

  const SHIFT_BIT := 1
  const CONTROL_BIT := 2
  const ALT_BIT := 4

  predicate Mappable(p: Platform, character: Word) {
    var mapping := KeyMapping(p, character);
    mapping.OnKey? && mapping.shift <= {SHIFT_BIT, CONTROL_BIT, ALT_BIT}
  }

  function Key(vk: Word, flags: Flags): Input { Keyboard(vk, 0, flags) }

  const DOWN: Flags := {}
  const UP: Flags := {KEYEVENTF_KEYUP}

  // ----- append_character_chord -----

  function If(condition: bool, input: Input): seq<Input> { if condition then [input] else [] }

  datatype Modifiers = Modifiers(control: bool, alt: bool, shift: bool)

  function ModifiersOf(mapping: KeyScan): Modifiers
    requires mapping.OnKey?
  {
    Modifiers(CONTROL_BIT in mapping.shift, ALT_BIT in mapping.shift, SHIFT_BIT in mapping.shift)
  }

  function ModifiersDown(m: Modifiers): (keys: seq<Input>)
    ensures |keys| <= 3
  {
    If(m.control, Key(VK_CONTROL, DOWN)) + If(m.alt, Key(VK_MENU, DOWN)) + If(m.shift, Key(VK_SHIFT, DOWN))
  }

  function ModifiersUp(m: Modifiers): (keys: seq<Input>)
    ensures |keys| <= 3
  {
    If(m.shift, Key(VK_SHIFT, UP)) + If(m.alt, Key(VK_MENU, UP))
    + If(m.control, Key(VK_CONTROL, UP))
  }

  /** The chord of one character: modifiers down, key down and up, modifiers up
      in reverse order. */
  function Chord(mapping: KeyScan): (chord: seq<Input>)
    requires mapping.OnKey?
    ensures 2 <= |chord| <= 8
  {
    var vk := mapping.vk;
    ModifiersDown(ModifiersOf(mapping)) + [Key(vk, DOWN), Key(vk, UP)] + ModifiersUp(ModifiersOf(mapping))
  }

  method AppendKeyEvent(inputs: array<Input>, count: nat, vk: Word, flags: Flags) returns (ok: bool, newCount: nat)
    requires count <= inputs.Length
    modifies inputs
    ensures ok <==> count < inputs.Length
    ensures ok ==> newCount == count + 1 && inputs[..newCount] == old(inputs[..count]) + [Key(vk, flags)]
    ensures !ok ==> newCount == count && inputs[..count] == old(inputs[..count])
  {
    if count >= inputs.Length {
      return false, count;
    }
    inputs[count] := Key(vk, flags);
    return true, count + 1;
  }

  method AppendModifier(inputs: array<Input>, count: nat, held: bool, vk: Word, flags: Flags)
    returns (ok: bool, newCount: nat)
    requires count <= inputs.Length
    modifies inputs
    ensures count < inputs.Length ==> ok
    ensures ok ==> newCount == count + |If(held, Key(vk, flags))| && newCount <= inputs.Length
                   && inputs[..newCount] == old(inputs[..count]) + If(held, Key(vk, flags))
  {
    if held {
      ok, newCount := AppendKeyEvent(inputs, count, vk, flags);
    } else {
      ok, newCount := true, count;
      assert inputs[..count] == inputs[..count] + [];
    }
  }

  method AppendModifiersDown(inputs: array<Input>, count: nat, m: Modifiers) returns (ok: bool, newCount: nat)
    requires count <= inputs.Length
    modifies inputs
    ensures count + 3 <= inputs.Length ==> ok
    ensures ok ==> newCount == count + |ModifiersDown(m)| && newCount <= inputs.Length
                   && inputs[..newCount] == old(inputs[..count]) + ModifiersDown(m)
  {
    ok, newCount := AppendModifier(inputs, count, m.control, VK_CONTROL, DOWN);
    if !ok { return; }
    ok, newCount := AppendModifier(inputs, newCount, m.alt, VK_MENU, DOWN);
    if !ok { return; }
    ok, newCount := AppendModifier(inputs, newCount, m.shift, VK_SHIFT, DOWN);
  }

  method AppendModifiersUp(inputs: array<Input>, count: nat, m: Modifiers) returns (ok: bool, newCount: nat)
    requires count <= inputs.Length
    modifies inputs
    ensures count + 3 <= inputs.Length ==> ok
    ensures ok ==> newCount == count + |ModifiersUp(m)| && newCount <= inputs.Length
                   && inputs[..newCount] == old(inputs[..count]) + ModifiersUp(m)
  {
    ok, newCount := AppendModifier(inputs, count, m.shift, VK_SHIFT, UP);
    if !ok { return; }
    ok, newCount := AppendModifier(inputs, newCount, m.alt, VK_MENU, UP);
    if !ok { return; }
    ok, newCount := AppendModifier(inputs, newCount, m.control, VK_CONTROL, UP);
  }

  lemma Regroup(a: seq<Input>, b: seq<Input>, c: seq<Input>, d: seq<Input>)
    ensures a + b + c + d == a + (b + c + d)
  {}

  method AppendCharacterChord(p: Platform, character: Word, inputs: array<Input>, count: nat)
    returns (ok: bool, newCount: nat)
    requires count <= inputs.Length
    modifies inputs
    ensures ok ==> Mappable(p, character)
    ensures ok ==> newCount == count + |Chord(KeyMapping(p, character))| && newCount <= inputs.Length
                   && inputs[..newCount] == old(inputs[..count]) + Chord(KeyMapping(p, character))
    ensures Mappable(p, character) && count + 8 <= inputs.Length ==> ok
  {
    newCount := count;
    var mapping := KeyMapping(p, character);
    if mapping.NoKey? {
      return false, newCount;
    }
    if !(mapping.shift <= {SHIFT_BIT, CONTROL_BIT, ALT_BIT}) {
      return false, newCount;
    }
    var vk, m := mapping.vk, ModifiersOf(mapping);
    ghost var start, down, up := inputs[..count], ModifiersDown(m), ModifiersUp(m);
    ok, newCount := AppendModifiersDown(inputs, newCount, m);
    if !ok { return; }
    ok, newCount := AppendKeyEvent(inputs, newCount, vk, DOWN);
    if !ok { return; }
    ok, newCount := AppendKeyEvent(inputs, newCount, vk, UP);
    if !ok { return; }
    assert inputs[..newCount] == start + down + [Key(vk, DOWN), Key(vk, UP)];
    ok, newCount := AppendModifiersUp(inputs, newCount, m);
    Regroup(start, down, [Key(vk, DOWN), Key(vk, UP)], up);
  }

  // ----- translate_inputs -----

  /** A translation in progress: the inputs so far, the finished segments, and
      how many ordinary inputs at the end are not yet in one. */
  datatype Translation = Translation(inputs: seq<Input>, segments: seq<Segment>, ordinary: nat) {
    function Close(): (t: Translation)
      requires ordinary <= |inputs|
      ensures t.ordinary == 0
    {
      if ordinary == 0 then this
      else Translation(inputs, segments + [Segment(|inputs| - ordinary, ordinary, false)], 0)
    }

    function AddOrdinary(input: Input): Translation {
      Translation(inputs + [input], segments, ordinary + 1)
    }

    function AddChord(chord: seq<Input>): Translation {
      Translation(inputs + chord, segments + [Segment(|inputs|, |chord|, true)], 0)
    }
  }

  function TranslateInput(p: Platform, t: Translation, input: Input): (r: Option<Translation>)
    requires t.ordinary <= |t.inputs|
    ensures r.Some? ==> r.value.ordinary <= |r.value.inputs|
  {
    if !input.Unicode() then Some(t.AddOrdinary(input))
    else if input.KeyUp() then Some(t.Close())
    else if Mappable(p, input.scan) then Some(t.Close().AddChord(Chord(KeyMapping(p, input.scan))))
    else None
  }

  /** The first n inputs, or None once a pressed character has no chord. */
  function TranslateTo(p: Platform, source: seq<Input>, n: nat): (r: Option<Translation>)
    requires n <= |source|
    ensures r.Some? ==> r.value.ordinary <= |r.value.inputs|
  {
    if n == 0 then Some(Translation([], [], 0))
    else match TranslateTo(p, source, n - 1)
      case None => None
      case Some(t) => TranslateInput(p, t, source[n - 1])
  }

  lemma {:induction false} TranslateStuck(p: Platform, source: seq<Input>, i: nat, n: nat)
    requires i <= n <= |source| && TranslateTo(p, source, i).None?
    ensures TranslateTo(p, source, n).None?
    decreases n
  {
    if i < n { TranslateStuck(p, source, i, n - 1); }
  }

  /** The translation fails exactly on a pressed character without a chord. */
  lemma {:induction false} FailsOnlyOnUnmappable(p: Platform, source: seq<Input>, n: nat)
    requires n <= |source|
    ensures TranslateTo(p, source, n).Some? <==>
            forall i :: 0 <= i < n && source[i].UnicodePress() ==> Mappable(p, source[i].scan)
  {
    if n > 0 { FailsOnlyOnUnmappable(p, source, n - 1); }
  }

  /** Eight events an input and one segment an input are always enough: a
      segment is paid for by the first input in it. */
  lemma {:induction false} TranslationFits(p: Platform, source: seq<Input>, n: nat)
    requires n <= |source| && TranslateTo(p, source, n).Some?
    ensures var t := TranslateTo(p, source, n).value;
            && |t.inputs| <= 8 * n
            && |t.segments| + (if t.ordinary > 0 then 1 else 0) <= n
  {
    if n > 0 { TranslationFits(p, source, n - 1); }
  }

  /** The segments lie end to end from 0 to `end`; none is empty. */
  predicate Tiles(segments: seq<Segment>, end: nat) {
    && (forall i :: 0 <= i < |segments| ==> segments[i].count > 0)
    && (forall i :: 0 <= i < |segments| ==>
          segments[i].offset == if i == 0 then 0 else segments[i - 1].offset + segments[i - 1].count)
    && end == if segments == [] then 0 else segments[|segments| - 1].offset + segments[|segments| - 1].count
  }

  lemma TilesExtend(segments: seq<Segment>, end: nat, length: nat, text: bool)
    requires Tiles(segments, end) && length > 0
    ensures Tiles(segments + [Segment(end, length, text)], end + length)
  {}

  function Part(segment: Segment, inputs: seq<Input>): seq<Input>
    requires segment.offset + segment.count <= |inputs|
  {
    inputs[segment.offset..segment.offset + segment.count]
  }

  /** A text segment is one whole chord; any other holds no character event. */
  ghost predicate Faithful(p: Platform, segment: Segment, inputs: seq<Input>) {
    && segment.offset + segment.count <= |inputs|
    && if segment.text then exists c: Word :: Mappable(p, c) && Part(segment, inputs) == Chord(KeyMapping(p, c))
       else forall i :: segment.offset <= i < segment.offset + segment.count ==> !inputs[i].Unicode()
  }

  lemma FaithfulGrows(p: Platform, segments: seq<Segment>, inputs: seq<Input>, more: seq<Input>)
    requires forall s <- segments :: Faithful(p, s, inputs)
    ensures forall s <- segments :: Faithful(p, s, inputs + more)
  {
    forall s <- segments ensures Faithful(p, s, inputs + more) {
      assert Faithful(p, s, inputs);
      assert Part(s, inputs + more) == Part(s, inputs);
    }
  }

  ghost predicate WellCut(p: Platform, t: Translation) {
    && t.ordinary <= |t.inputs|
    && Tiles(t.segments, |t.inputs| - t.ordinary)
    && (forall s <- t.segments :: Faithful(p, s, t.inputs))
    && (forall i :: |t.inputs| - t.ordinary <= i < |t.inputs| ==> !t.inputs[i].Unicode())
  }

  lemma CloseKeepsWellCut(p: Platform, t: Translation)
    requires WellCut(p, t)
    ensures WellCut(p, t.Close()) && t.Close().ordinary == 0
  {
    if t.ordinary > 0 {
      var start := |t.inputs| - t.ordinary;
      TilesExtend(t.segments, start, t.ordinary, false);
      assert Faithful(p, Segment(start, t.ordinary, false), t.inputs);
    }
  }

  lemma ChordKeepsWellCut(p: Platform, t: Translation, c: Word)
    requires WellCut(p, t) && t.ordinary == 0 && Mappable(p, c)
    ensures WellCut(p, t.AddChord(Chord(KeyMapping(p, c))))
  {
    var chord := Chord(KeyMapping(p, c));
    var segment := Segment(|t.inputs|, |chord|, true);
    TilesExtend(t.segments, |t.inputs|, |chord|, true);
    FaithfulGrows(p, t.segments, t.inputs, chord);
    assert Part(segment, t.inputs + chord) == chord;
    assert Faithful(p, segment, t.inputs + chord);
  }

  lemma OrdinaryKeepsWellCut(p: Platform, t: Translation, input: Input)
    requires WellCut(p, t) && !input.Unicode()
    ensures WellCut(p, t.AddOrdinary(input))
  {
    FaithfulGrows(p, t.segments, t.inputs, [input]);
  }

  /** The finished segments cover the translation without gap or overlap, each
      one whole chord or a run of untouched inputs. */
  lemma {:induction false} SegmentsTile(p: Platform, source: seq<Input>, n: nat)
    requires n <= |source| && TranslateTo(p, source, n).Some?
    ensures WellCut(p, TranslateTo(p, source, n).value)
  {
    if n > 0 {
      SegmentsTile(p, source, n - 1);
      var t, input := TranslateTo(p, source, n - 1).value, source[n - 1];
      if !input.Unicode() {
        OrdinaryKeepsWellCut(p, t, input);
      } else {
        CloseKeepsWellCut(p, t);
        if !input.KeyUp() { ChordKeepsWellCut(p, t.Close(), input.scan); }
      }
    }
  }

  /** append_segment. */
  method AppendSegment(segments: array<Segment>, count: nat, offset: nat, length: nat, text: bool)
    returns (ok: bool, newCount: nat)
    requires count <= segments.Length
    modifies segments
    ensures ok <==> length == 0 || count < segments.Length
    ensures ok ==> newCount == count + (if length == 0 then 0 else 1) && newCount <= segments.Length
                   && segments[..newCount]
                      == old(segments[..count]) + (if length == 0 then [] else [Segment(offset, length, text)])
  {
    if length == 0 {
      assert segments[..count] == segments[..count] + [];
      return true, count;
    }
    if count >= segments.Length {
      return false, count;
    }
    segments[count] := Segment(offset, length, text);
    return true, count + 1;
  }

  /** The branch for a character event: it ends the ordinary run and, for a
      press, adds the chord as a segment of its own. */
  method AppendCharacter(p: Platform, input: Input, ghost t: Translation, translated: array<Input>, count: nat,
                         segments: array<Segment>, segmentCount: nat, ordinaryOffset: nat, ordinaryCount: nat)
    returns (ok: bool, newCount: nat, newSegmentCount: nat)
    requires input.Unicode() && count <= translated.Length && segmentCount <= segments.Length
    requires t == Translation(translated[..count], segments[..segmentCount], ordinaryCount) && ordinaryCount <= count
    requires ordinaryCount > 0 ==> ordinaryOffset == count - ordinaryCount
    modifies translated, segments
    ensures ok ==> newCount <= translated.Length && newSegmentCount <= segments.Length
                   && TranslateInput(p, t, input)
                      == Some(Translation(translated[..newCount], segments[..newSegmentCount], 0))
    ensures !ok ==> TranslateInput(p, t, input).None? || count + 8 > translated.Length
                    || segmentCount + (if ordinaryCount > 0 then 1 else 0) >= segments.Length
  {
    newCount, newSegmentCount := count, segmentCount;
    ok, newSegmentCount := AppendSegment(segments, newSegmentCount, ordinaryOffset, ordinaryCount, false);
    if !ok { return; }
    assert t.Close() == Translation(translated[..count], segments[..newSegmentCount], 0);
    if input.KeyUp() {
      return;
    }
    ok, newCount := AppendCharacterChord(p, input.scan, translated, newCount);
    if !ok { return; }
    ok, newSegmentCount := AppendSegment(segments, newSegmentCount, count, newCount - count, true);
  }

  predicate AnyUnicode(source: seq<Input>, n: nat)
    requires n <= |source|
  {
    n > 0 && (source[n - 1].Unicode() || AnyUnicode(source, n - 1))
  }

  /** translate_inputs: for a batch the broker admits it fails only on a
      character without a chord, never for lack of room. */
  method TranslateInputs(p: Platform, source: seq<Input>, translated: array<Input>, segments: array<Segment>)
    returns (ok: bool, translatedCount: nat, segmentCount: nat, normalizedUnicode: bool)
    requires translated.Length == MAX_TRANSLATED && segments.Length == MAX_SEGMENTS
    modifies translated, segments
    ensures |source| <= MAX_EVENTS ==> (ok <==> TranslateTo(p, source, |source|).Some?)
    ensures ok ==>
              && translatedCount <= translated.Length && segmentCount <= segments.Length
              && TranslateTo(p, source, |source|).Some?
              && TranslateTo(p, source, |source|).value.Close()
                 == Translation(translated[..translatedCount], segments[..segmentCount], 0)
    ensures ok ==> normalizedUnicode == AnyUnicode(source, |source|)
  {
    translatedCount, segmentCount, normalizedUnicode := 0, 0, false;
    var ordinaryCount, ordinaryOffset := 0, 0;
    for index := 0 to |source|
      invariant translatedCount <= translated.Length && segmentCount <= segments.Length
      invariant TranslateTo(p, source, index)
                == Some(Translation(translated[..translatedCount], segments[..segmentCount], ordinaryCount))
      invariant ordinaryCount > 0 ==> ordinaryOffset == translatedCount - ordinaryCount
      invariant normalizedUnicode == AnyUnicode(source, index)
    {
      var input := source[index];
      TranslationFits(p, source, index);
      ghost var t := TranslateTo(p, source, index).value;
      if input.Unicode() {
        normalizedUnicode := true;
        ok, translatedCount, segmentCount :=
          AppendCharacter(p, input, t, translated, translatedCount, segments, segmentCount, ordinaryOffset,
                          ordinaryCount);
        if !ok {
          if TranslateInput(p, t, input).None? { TranslateStuck(p, source, index + 1, |source|); }
          return;
        }
        ordinaryCount := 0;
        continue;
      }
      if translatedCount >= MAX_TRANSLATED {
        return false, translatedCount, segmentCount, normalizedUnicode;
      }
      if ordinaryCount == 0 {
        ordinaryOffset := translatedCount;
      }
      translated[translatedCount] := input;
      translatedCount := translatedCount + 1;
      assert translated[..translatedCount] == t.inputs + [input];
      ordinaryCount := ordinaryCount + 1;
    }
    TranslationFits(p, source, |source|);
    ok, segmentCount := AppendSegment(segments, segmentCount, ordinaryOffset, ordinaryCount, false);
  }

  // ----- Meaning: replaying the chords types the text -----

  const RELEASED := Modifiers(false, false, false)

  /** What a key types while the given modifiers are held. */
  type Layout = (Word, Modifiers) -> Word

  datatype Typed = Typed(held: Modifiers, text: seq<Word>)

  predicate IsModifier(vk: Word) { vk == VK_CONTROL || vk == VK_MENU || vk == VK_SHIFT }

  function Hold(m: Modifiers, vk: Word, down: bool): Modifiers {
    if vk == VK_CONTROL then m.(control := down)
    else if vk == VK_MENU then m.(alt := down)
    else if vk == VK_SHIFT then m.(shift := down)
    else m
  }

  function ReplayKey(layout: Layout, t: Typed, input: Input): Typed {
    if !input.Keyboard? then t
    else if IsModifier(input.vk) then t.(held := Hold(t.held, input.vk, !input.KeyUp()))
    else if input.KeyUp() then t
    else t.(text := t.text + [layout(input.vk, t.held)])
  }

  function Replay(layout: Layout, t: Typed, inputs: seq<Input>): Typed
    decreases |inputs|
  {
    if inputs == [] then t else Replay(layout, ReplayKey(layout, t, inputs[0]), inputs[1..])
  }

  /** CR and LF are both the Enter key. */
  function Enter(character: Word): Word { if character == LF then CR else character }

  /** The layout types each character on the keys its mapping names. */
  predicate Inverts(p: Platform, layout: Layout, character: Word) {
    var mapping := KeyMapping(p, character);
    mapping.OnKey? && !IsModifier(mapping.vk) && layout(mapping.vk, ModifiersOf(mapping)) == Enter(character)
  }

  function Pressed(source: seq<Input>, n: nat): seq<Word>
    requires n <= |source|
  {
    if n == 0 then []
    else Pressed(source, n - 1) + (if source[n - 1].UnicodePress() then [Enter(source[n - 1].scan)] else [])
  }

  lemma {:induction false} ReplayAppend(layout: Layout, t: Typed, a: seq<Input>, b: seq<Input>)
    ensures Replay(layout, t, a + b) == Replay(layout, Replay(layout, t, a), b)
    decreases |a|
  {
    if a == [] {
      assert a + b == b;
    } else {
      assert (a + b)[1..] == a[1..] + b;
      ReplayAppend(layout, ReplayKey(layout, t, a[0]), a[1..], b);
    }
  }

  lemma ReplayIf(layout: Layout, t: Typed, held: bool, input: Input)
    ensures Replay(layout, t, If(held, input)) == if held then ReplayKey(layout, t, input) else t
  {
    if held {
      assert [input][1..] == [];
    }
  }

  lemma ReplayModifiersDown(layout: Layout, m: Modifiers, text: seq<Word>)
    ensures Replay(layout, Typed(RELEASED, text), ModifiersDown(m))
            == Typed(m, text)
  {
    var c, a := If(m.control, Key(VK_CONTROL, DOWN)), If(m.alt, Key(VK_MENU, DOWN));
    var s := If(m.shift, Key(VK_SHIFT, DOWN));
    var t := Typed(RELEASED, text);
    ReplayAppend(layout, t, c + a, s);
    ReplayAppend(layout, t, c, a);
    ReplayIf(layout, t, m.control, Key(VK_CONTROL, DOWN));
    var t1 := Replay(layout, t, c);
    ReplayIf(layout, t1, m.alt, Key(VK_MENU, DOWN));
    ReplayIf(layout, Replay(layout, t1, a), m.shift, Key(VK_SHIFT, DOWN));
  }

  lemma ReplayModifiersUp(layout: Layout, m: Modifiers, text: seq<Word>)
    ensures Replay(layout, Typed(m, text), ModifiersUp(m))
            == Typed(RELEASED, text)
  {
    var s, a, c := If(m.shift, Key(VK_SHIFT, UP)), If(m.alt, Key(VK_MENU, UP)),
                   If(m.control, Key(VK_CONTROL, UP));
    var t := Typed(m, text);
    ReplayAppend(layout, t, s + a, c);
    ReplayAppend(layout, t, s, a);
    ReplayIf(layout, t, m.shift, Key(VK_SHIFT, UP));
    var t1 := Replay(layout, t, s);
    ReplayIf(layout, t1, m.alt, Key(VK_MENU, UP));
    ReplayIf(layout, Replay(layout, t1, a), m.control, Key(VK_CONTROL, UP));
  }

  lemma ReplayKeyPair(layout: Layout, t: Typed, vk: Word)
    requires !IsModifier(vk)
    ensures Replay(layout, t, [Key(vk, DOWN), Key(vk, UP)]) == t.(text := t.text + [layout(vk, t.held)])
  {
    var pair := [Key(vk, DOWN), Key(vk, UP)];
    assert pair[1..] == [Key(vk, UP)] && pair[1..][1..] == [];
    assert !pair[0].KeyUp() && pair[1].KeyUp();
    var down := ReplayKey(layout, t, pair[0]);
    assert Replay(layout, down, pair[1..]) == Replay(layout, ReplayKey(layout, down, pair[1]), []);
  }

  lemma ReplayChord(p: Platform, layout: Layout, character: Word, text: seq<Word>)
    requires Mappable(p, character) && Inverts(p, layout, character)
    ensures Replay(layout, Typed(RELEASED, text), Chord(KeyMapping(p, character)))
            == Typed(RELEASED, text + [Enter(character)])
  {
    var mapping := KeyMapping(p, character);
    var m, vk := ModifiersOf(mapping), mapping.vk;
    var t, pair := Typed(RELEASED, text), [Key(vk, DOWN), Key(vk, UP)];
    ReplayAppend(layout, t, ModifiersDown(m) + pair, ModifiersUp(m));
    ReplayAppend(layout, t, ModifiersDown(m), pair);
    ReplayModifiersDown(layout, m, text);
    ReplayKeyPair(layout, Typed(m, text), vk);
    ReplayModifiersUp(layout, m, text + [Enter(character)]);
  }

  /** A batch of characters, replayed from released modifiers, types exactly the
      pressed characters and leaves every modifier released. */
  lemma {:induction false} ReplayTypesTheText(p: Platform, layout: Layout, source: seq<Input>, n: nat)
    requires n <= |source|
    requires forall i :: 0 <= i < n ==> source[i].Unicode()
    requires forall i :: 0 <= i < n && source[i].UnicodePress() ==> Inverts(p, layout, source[i].scan)
    requires TranslateTo(p, source, n).Some?
    ensures Replay(layout, Typed(RELEASED, []), TranslateTo(p, source, n).value.inputs)
            == Typed(RELEASED, Pressed(source, n))
  {
    if n > 0 {
      ReplayTypesTheText(p, layout, source, n - 1);
      var t, input := TranslateTo(p, source, n - 1).value.inputs, source[n - 1];
      if input.UnicodePress() {
        var chord := Chord(KeyMapping(p, input.scan));
        ReplayAppend(layout, Typed(RELEASED, []), t, chord);
        ReplayChord(p, layout, input.scan, Pressed(source, n - 1));
      }
    }
  }
}
