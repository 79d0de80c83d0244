/** The streaming UTF-16 to UTF-8 decoder of the X11 helper. */
module Utf16Text {
  import opened InputTypes
  import opened Basics
  import opened Utf8

  /** What the helper carries from one text request to the next. */
  datatype Carry = Carry(pending: Word, endedCr: bool) {
    predicate Valid() { pending == 0 || HighSurrogate(pending) }
  }

  datatype Decoded = Decoded(carry: Carry, cps: seq<int>)

  predicate ValidTextEvent(e: Event) {
    e.kind == X11_INPUT_TEXT && e.flags == {} && e.x == 0 && e.y == 0 && e.vk == 0 && e.scan == 0 && e.data <= 0xFFFF
  }

  function Combine(high: int, low: int): int {
    0x10000 + (high - 0xD800) * 0x400 + (low - 0xDC00)
  }

  /** One code unit at a time, without looking ahead. */
  function Step(c: Carry, e: Event): (r: Option<Decoded>)
    requires c.Valid()
    ensures r.Some? ==> r.value.carry.Valid() && AllScalar(r.value.cps)
  {
    var u := e.data;
    if !ValidTextEvent(e) then None
    else if c.pending != 0 then
      if LowSurrogate(u) then Some(Decoded(Carry(0, c.endedCr), [Combine(c.pending, u)])) else None
    else if u == LF && c.endedCr then Some(Decoded(Carry(0, false), []))
    else if u == CR then Some(Decoded(Carry(0, true), [LF]))
    else if HighSurrogate(u) then Some(Decoded(Carry(u, false), []))
    else if LowSurrogate(u) || u == 0 then None
    else Some(Decoded(Carry(0, false), [u]))
  }

  /** The first n events, one after the other. */
  function RunTo(c: Carry, es: seq<Event>, n: nat): (r: Option<Decoded>)
    requires c.Valid() && n <= |es|
    ensures r.Some? ==> r.value.carry.Valid() && AllScalar(r.value.cps)
  {
    if n == 0 then Some(Decoded(c, []))
    else match RunTo(c, es, n - 1)
      case None => None
      case Some(d) => AddStep(d, es[n - 1])
  }

  function AddStep(d: Decoded, e: Event): (r: Option<Decoded>)
    requires d.carry.Valid() && AllScalar(d.cps)
    ensures r.Some? ==> r.value.carry.Valid() && AllScalar(r.value.cps)
  {
    match Step(d.carry, e)
    case None => None
    case Some(n) => Some(Decoded(n.carry, d.cps + n.cps))
  }

  /** A whole request. */
  function Run(c: Carry, es: seq<Event>): (r: Option<Decoded>)
    requires c.Valid()
    ensures r.Some? ==> r.value.carry.Valid() && AllScalar(r.value.cps)
  {
    RunTo(c, es, |es|)
  }

  /** A whole request after an earlier one gave `d`. */
  function RunAfter(d: Decoded, es: seq<Event>, n: nat): (r: Option<Decoded>)
    requires d.carry.Valid() && n <= |es|
  {
    match RunTo(d.carry, es, n)
    case None => None
    case Some(m) => Some(Decoded(m.carry, d.cps + m.cps))
  }

  lemma {:induction false} RunPrefix(c: Carry, a: seq<Event>, es: seq<Event>, n: nat)
    requires c.Valid() && n <= |a| && a <= es
    ensures RunTo(c, es, n) == RunTo(c, a, n)
  {
    if n > 0 { RunPrefix(c, a, es, n - 1); }
  }

  lemma {:induction false} RunAppendTo(c: Carry, a: seq<Event>, b: seq<Event>, n: nat)
    requires c.Valid() && n <= |b|
    ensures RunTo(c, a + b, |a| + n) == match Run(c, a) case None => None case Some(d) => RunAfter(d, b, n)
  {
    if n == 0 {
      RunPrefix(c, a, a + b, |a|);
      if Run(c, a).Some? { assert Run(c, a).value.cps + [] == Run(c, a).value.cps; }
    } else {
      RunAppendTo(c, a, b, n - 1);
      assert (a + b)[|a| + n - 1] == b[n - 1];
      if Run(c, a).Some? {
        var d := Run(c, a).value;
        if RunTo(d.carry, b, n - 1).Some? {
          var m := RunTo(d.carry, b, n - 1).value;
          if Step(m.carry, b[n - 1]).Some? {
            var last := Step(m.carry, b[n - 1]).value;
            assert d.cps + m.cps + last.cps == d.cps + (m.cps + last.cps);
          }
        }
      }
    }
  }

  /** Where the stream is cut into requests does not matter. */
  lemma RunAppend(c: Carry, a: seq<Event>, b: seq<Event>)
    requires c.Valid()
    ensures Run(c, a + b) == match Run(c, a) case None => None case Some(d) => RunAfter(d, b, |b|)
  {
    RunAppendTo(c, a, b, |b|);
  }

  lemma {:induction false} RunStuck(c: Carry, es: seq<Event>, i: nat, n: nat)
    requires c.Valid() && i <= n <= |es| && RunTo(c, es, i).None?
    ensures RunTo(c, es, n).None?
    decreases n
  {
    if i < n { RunStuck(c, es, i, n - 1); }
  }

  /** How long the output of a request can get: three bytes a unit, and one more
      when its first unit completes a character begun before. */
  lemma {:induction false} RunLength(c: Carry, es: seq<Event>, n: nat)
    requires c.Valid() && n <= |es| && RunTo(c, es, n).Some?
    ensures var d := RunTo(c, es, n).value;
            |Encode(d.cps)| + (if d.carry.pending != 0 && n > 0 then 3 else 0)
            <= 3 * n + (if c.pending != 0 && n > 0 then 1 else 0)
  {
    if n > 0 {
      RunLength(c, es, n - 1);
      var d := RunTo(c, es, n - 1).value;
      var added := Step(d.carry, es[n - 1]).value;
      EncodeAppend(d.cps, added.cps);
      if added.cps != [] {
        assert added.cps[1..] == [] && Encode(added.cps) == EncodeScalar(added.cps[0]) + Encode([]);
      }
    }
  }

  // ----- Meaning: RFC 2781 code points with line ends normalised -----

  /** Section 2.1 of RFC 2781. */
  function Utf16Units(cp: int): seq<int> {
    if cp < 0x10000 then [cp] else [0xD800 + (cp - 0x10000) / 0x400, 0xDC00 + (cp - 0x10000) % 0x400]
  }

  function Utf16(cps: seq<int>): seq<int> {
    if cps == [] then [] else Utf16(cps[..|cps| - 1]) + Utf16Units(cps[|cps| - 1])
  }

  /** CR LF and CR are both one line feed. */
  function Normalize(cps: seq<int>): seq<int>
    decreases |cps|
  {
    if cps == [] then []
    else if |cps| >= 2 && cps[0] == CR && cps[1] == LF then [LF] + Normalize(cps[2..])
    else if cps[0] == CR then [LF] + Normalize(cps[1..])
    else [cps[0]] + Normalize(cps[1..])
  }

  predicate EndsCr(cps: seq<int>) { cps != [] && cps[|cps| - 1] == CR }

  // What a character adds to the output, by what stands before it.
  function Contribution(cp: int, afterCr: bool): seq<int> {
    if cp == LF && afterCr then [] else if cp == CR then [LF] else [cp]
  }

  lemma {:induction false} NormalizeSnoc(cps: seq<int>, cp: int)
    ensures Normalize(cps + [cp]) ==
            Normalize(cps) + Contribution(cp, EndsCr(cps))
    decreases |cps|
  {
    var all := cps + [cp];
    if cps == [] {
      assert all[1..] == [];
    } else if |cps| >= 2 && cps[0] == CR && cps[1] == LF {
      assert all[2..] == cps[2..] + [cp];
      NormalizeSnoc(cps[2..], cp);
    } else if |cps| == 1 {
      assert all[2..] == [] && cps[1..] == [] && all[1..] == [cp] && [cp][1..] == [];
    } else {
      assert all[1..] == cps[1..] + [cp] && EndsCr(cps[1..]) == EndsCr(cps);
      NormalizeSnoc(cps[1..], cp);
    }
  }

  function Units(es: seq<Event>): seq<int> {
    seq(|es|, i requires 0 <= i < |es| => es[i].data)
  }

  predicate AllTextEvents(es: seq<Event>) {
    forall i :: 0 <= i < |es| ==> ValidTextEvent(es[i])
  }

  const START := Carry(0, false)

  lemma RunOneScalar(es: seq<Event>, n: nat, cp: int, d: Decoded)
    requires IsScalar(cp) && n + |Utf16Units(cp)| == |es|
    requires forall i :: n <= i < |es| ==> ValidTextEvent(es[i]) && es[i].data == Utf16Units(cp)[i - n]
    requires RunTo(START, es, n) == Some(d) && d.carry.pending == 0
    ensures Run(START, es) == Some(Decoded(Carry(0, cp == CR), d.cps + Contribution(cp, d.carry.endedCr)))
  {
    if cp >= 0x10000 {
      var high := es[n].data;
      assert d.cps + [] == d.cps;
      assert RunTo(START, es, n + 1) == Some(Decoded(Carry(high, false), d.cps));
      assert Combine(high, es[n + 1].data) == cp;
    } else {
      assert RunTo(START, es, n + 1) == AddStep(d, es[n]);
    }
  }

  lemma SplitUnits(es: seq<Event>, a: seq<int>, b: seq<int>)
    requires Units(es) == a + b
    ensures |a| + |b| == |es|
    ensures Units(es[..|a|]) == a
    ensures forall i :: |a| <= i < |es| ==> es[i].data == b[i - |a|]
  {
    assert |Units(es)| == |es|;
    forall i | 0 <= i < |es| ensures es[i].data == (a + b)[i] {
      assert Units(es)[i] == es[i].data;
    }
  }

  lemma {:induction false} ExtendWellFormed(es: seq<Event>, before: seq<int>, cp: int, n: nat)
    requires AllTextEvents(es) && IsScalar(cp) && n == |Utf16(before)|
    requires Units(es) == Utf16(before) + Utf16Units(cp) && n <= |es|
    requires RunTo(START, es, n) == Some(Decoded(Carry(0, EndsCr(before)), Normalize(before)))
    ensures Run(START, es) == Some(Decoded(Carry(0, cp == CR), Normalize(before + [cp])))
  {
    SplitUnits(es, Utf16(before), Utf16Units(cp));
    RunOneScalar(es, n, cp, Decoded(Carry(0, EndsCr(before)), Normalize(before)));
    NormalizeSnoc(before, cp);
  }

  /** Every well-formed UTF-16 text without NUL decodes to its normalised code points. */
  lemma {:induction false} DecodesWellFormed(es: seq<Event>, cps: seq<int>)
    requires AllTextEvents(es) && AllScalar(cps) && Units(es) == Utf16(cps)
    ensures Run(START, es) == Some(Decoded(Carry(0, EndsCr(cps)), Normalize(cps)))
    decreases |cps|
  {
    if cps == [] {
      assert |Units(es)| == |es|;
    } else {
      var before, cp := cps[..|cps| - 1], cps[|cps| - 1];
      var a := Utf16(before);
      SplitUnits(es, a, Utf16Units(cp));
      DecodesWellFormed(es[..|a|], before);
      RunPrefix(START, es[..|a|], es, |a|);
      ExtendWellFormed(es, before, cp, |a|);
      assert before + [cp] == cps;
    }
  }

  // The carry agrees with the code points read so far and the last unit, if it waits.
  predicate Explains(carry: Carry, out: seq<int>, units: seq<int>, cps: seq<int>) {
    && AllScalar(cps)
    && units == Utf16(cps) + (if carry.pending != 0 then [carry.pending] else [])
    && carry.endedCr == (carry.pending == 0 && EndsCr(cps))
    && out == Normalize(cps)
  }

  lemma ExplainWaiting(d: Decoded, units: seq<int>, cps: seq<int>, e: Event)
    requires d.carry.pending == 0 && Explains(d.carry, d.cps, units, cps) && ValidTextEvent(e)
             && HighSurrogate(e.data)
    ensures Explains(Carry(e.data, false), d.cps, units + [e.data], cps)
  {
    assert Utf16(cps) + [] == Utf16(cps);
  }

  lemma Utf16Snoc(cps: seq<int>, cp: int)
    ensures Utf16(cps + [cp]) == Utf16(cps) + Utf16Units(cp)
  {
    assert (cps + [cp])[..|cps|] == cps;
  }

  lemma ExplainCharacter(d: Decoded, units: seq<int>, cps: seq<int>, e: Event)
    requires d.carry.pending == 0 && Explains(d.carry, d.cps, units, cps) && IsScalar(e.data) && e.data <= 0xFFFF
    ensures Explains(Carry(0, e.data == CR), d.cps + Contribution(e.data, d.carry.endedCr), units + [e.data],
                     cps + [e.data])
  {
    NormalizeSnoc(cps, e.data);
    Utf16Snoc(cps, e.data);
    assert Utf16(cps) + [] == Utf16(cps) && Utf16(cps + [e.data]) + [] == Utf16(cps + [e.data]);
  }

  lemma ExplainPair(d: Decoded, units: seq<int>, cps: seq<int>, e: Event)
    requires d.carry.Valid() && d.carry.pending != 0 && Explains(d.carry, d.cps, units, cps) && LowSurrogate(e.data)
    ensures var cp := Combine(d.carry.pending, e.data);
            Explains(Carry(0, false), d.cps + [cp], units + [e.data], cps + [cp])
  {
    var cp := Combine(d.carry.pending, e.data);
    NormalizeSnoc(cps, cp);
    Utf16Snoc(cps, cp);
    assert Utf16Units(cp) == [d.carry.pending, e.data];
    assert Utf16(cps) + [d.carry.pending] + [e.data] == Utf16(cps) + [d.carry.pending, e.data];
    assert Utf16(cps + [cp]) + [] == Utf16(cps + [cp]);
  }

  lemma UnitsSnoc(es: seq<Event>, n: nat)
    requires 0 < n <= |es|
    ensures Units(es[..n]) == Units(es[..n - 1]) + [es[n - 1].data]
    ensures AllTextEvents(es[..n - 1]) && ValidTextEvent(es[n - 1]) ==> AllTextEvents(es[..n])
  {
    assert es[..n] == es[..n - 1] + [es[n - 1]];
  }

  /** Whatever is accepted is well-formed UTF-16 without NUL, save that a last
      high surrogate may still be waiting for its partner. */
  lemma {:induction false} AcceptsOnlyWellFormed(es: seq<Event>, n: nat) returns (cps: seq<int>)
    requires n <= |es| && RunTo(START, es, n).Some?
    ensures AllTextEvents(es[..n])
    ensures Explains(RunTo(START, es, n).value.carry, RunTo(START, es, n).value.cps, Units(es[..n]), cps)
    decreases n
  {
    if n == 0 {
      cps := [];
    } else {
      var e, units := es[n - 1], Units(es[..n - 1]);
      var before := AcceptsOnlyWellFormed(es, n - 1);
      var d := RunTo(START, es, n - 1).value;
      UnitsSnoc(es, n);
      if d.carry.pending != 0 {
        ExplainPair(d, units, before, e);
        cps := before + [Combine(d.carry.pending, e.data)];
      } else if HighSurrogate(e.data) {
        assert d.cps + [] == d.cps;
        ExplainWaiting(d, units, before, e);
        cps := before;
      } else {
        ExplainCharacter(d, units, before, e);
        cps := before + [e.data];
      }
    }
  }

  /** The decoder, from a fresh connection, finishes a request with nothing
      pending exactly on well-formed UTF-16 without NUL. */
  lemma AcceptsExactlyWellFormed(es: seq<Event>)
    ensures (Run(START, es).Some? && Run(START, es).value.carry.pending == 0) <==>
            (AllTextEvents(es) && exists cps: seq<int> :: AllScalar(cps) && Units(es) == Utf16(cps))
  {
    if Run(START, es).Some? && Run(START, es).value.carry.pending == 0 {
      var cps := AcceptsOnlyWellFormed(es, |es|);
      assert es[..|es|] == es && Utf16(cps) + [] == Utf16(cps);
    }
    if AllTextEvents(es) && exists cps: seq<int> :: AllScalar(cps) && Units(es) == Utf16(cps) {
      var cps: seq<int> :| AllScalar(cps) && Units(es) == Utf16(cps);
      DecodesWellFormed(es, cps);
    }
  }

  // ----- text_events_to_utf8 -----

  datatype Item = Reject | Nothing | Emit(cp: int)

  /** One round of the decoding loop: reads one event, or two when a CR or a high
      surrogate is followed by its partner in the same request. */
  method ReadItem(events: seq<Event>, index: nat, carry: Carry, ghost first: Carry, ghost cps: seq<int>)
    returns (item: Item, newIndex: nat, next: Carry)
    requires index < |events| && carry.pending == 0 && first.Valid() && AllScalar(cps)
    requires RunTo(first, events, index) == Some(Decoded(carry, cps))
    ensures item.Reject? ==> Run(first, events).None?
    ensures !item.Reject? ==> index < newIndex <= |events| && next.Valid()
    ensures item.Nothing? ==> RunTo(first, events, newIndex) == Some(Decoded(next, cps))
    ensures item.Emit? && IsScalar(item.cp) ==> RunTo(first, events, newIndex) == Some(Decoded(next, cps + [item.cp]))
    ensures item.Emit? && !IsScalar(item.cp) ==> Run(first, events).None?
    ensures item.Emit? && item.cp >= 0x10000 ==> newIndex == index + 2
    ensures item.Emit? ==> next.pending == 0
    ensures item.Nothing? && next.pending != 0 ==> newIndex == |events|
    ensures item.Reject? ==> next.pending == 0
  {
    next := Carry(0, false);
    newIndex := index + 1;
    assert cps + [] == cps;
    if !ValidTextEvent(events[index]) {
      RunStuck(first, events, index + 1, |events|);
      return Reject, newIndex, next;
    }
    var unit := events[index].data;
    if unit == LF && carry.endedCr {
      return Nothing, newIndex, next;
    }
    if unit == CR {
      if index + 1 < |events| && ValidTextEvent(events[index + 1]) && events[index + 1].data == LF {
        assert (cps + [LF]) + [] == cps + [LF];
        assert RunTo(first, events, index + 1) == Some(Decoded(Carry(0, true), cps + [LF]));
        return Emit(LF), index + 2, next;
      }
      return Emit(LF), newIndex, Carry(0, true);
    }
    if HighSurrogate(unit) {
      if index + 1 >= |events| {
        return Nothing, newIndex, Carry(unit, false);
      }
      assert RunTo(first, events, index + 1) == Some(Decoded(Carry(unit, false), cps));
      if !ValidTextEvent(events[index + 1]) || !LowSurrogate(events[index + 1].data) {
        RunStuck(first, events, index + 2, |events|);
        return Reject, newIndex, next;
      }
      return Emit(Combine(unit, events[index + 1].data)), index + 2, next;
    }
    if LowSurrogate(unit) {
      RunStuck(first, events, index + 1, |events|);
      return Reject, newIndex, next;
    }
    if unit == 0 {
      RunStuck(first, events, index + 1, |events|);
    }
    return Emit(unit), newIndex, next;
  }

  /** The helper's decoder works on a whole request, looks one event ahead and
      writes into a fixed buffer; it computes what `Run` computes, and with room
      for three bytes a unit, one more and the NUL it never fails for lack of
      space. */
  method TextEventsToUtf8(events: seq<Event>, output: array<Byte>, carry: Carry)
    returns (ok: bool, length: nat, next: Carry)
    requires events != [] && carry.Valid() && output.Length > 0
    modifies output
    ensures ok ==>
              && Run(carry, events).Some?
              && next == Run(carry, events).value.carry
              && length < output.Length && output[length] == 0
              && output[..length] == Encode(Run(carry, events).value.cps)
              && IsText(output[..length])
    ensures output.Length >= 3 * |events| + 2 ==> (ok <==> Run(carry, events).Some?)
    ensures !ok ==> next.pending == 0
  {
    var index := 0;
    length := 0;
    next := carry;
    ghost var cps: seq<int> := [];
    if carry.pending != 0 {
      var low := events[0].data;
      next := Carry(0, carry.endedCr);
      if !ValidTextEvent(events[0]) || !LowSurrogate(low) {
        RunStuck(carry, events, 1, |events|);
        return false, 0, next;
      }
      var joined := Combine(carry.pending, low);
      var written;
      written, length := AppendUtf8(output, 0, joined);
      if !written {
        return false, length, next;
      }
      EncodeSnoc(cps, joined);
      cps := cps + [joined];
      assert RunTo(carry, events, 0) == Some(Decoded(carry, []));
      index := 1;
    }
    while index < |events|
      invariant 0 <= index <= |events| && length < output.Length
      invariant next.pending == 0 || index == |events|
      invariant next.Valid() && AllScalar(cps)
      invariant RunTo(carry, events, index) == Some(Decoded(next, cps))
      invariant output[..length] == Encode(cps)
      invariant length <= 3 * index + 1
    {
      var item;
      item, index, next := ReadItem(events, index, next, carry, cps);
      if item.Reject? {
        return false, length, next;
      }
      if item.Emit? {
        var written;
        written, length := AppendUtf8(output, length, item.cp);
        if !written {
          return false, length, next;
        }
        EncodeSnoc(cps, item.cp);
        cps := cps + [item.cp];
      }
    }
    output[length] := 0;
    return true, length, next;
  }
}
