/** The terminal protocol's frames and the end that receives them: a parser on a
    TCP stream that feeds a pseudo terminal. */
module TerminalBridge {
  import opened Basics

  const MAX_FRAME := 65536
  const DATA := 1
  const RESIZE := 2
  const EOF := 3
  const END_OF_INPUT: Byte := 4

  datatype Frame = Data(bytes: seq<Byte>) | Resize(columns: nat, rows: nat) | Eof

  /** What the sender's buffers and integer widths allow. */
  predicate Proper(f: Frame) {
    match f
    case Data(bytes) => 0 < |bytes| <= MAX_FRAME
    case Resize(columns, rows) => columns < 0x1_0000 && rows < 0x1_0000
    case Eof => true
  }

  // ----- Wire format -----

  function Be16(n: nat): (b: seq<Byte>)
    requires n < 0x1_0000
    ensures |b| == 2
  {
    [n / 256, n % 256]
  }

  function Be32(n: nat): (b: seq<Byte>)
    requires n <= MAX_FRAME
    ensures |b| == 4
  {
    [0, n / 65536, n / 256 % 256, n % 256]
  }

  function Word16(s: seq<Byte>, at: nat): nat
    requires at + 2 <= |s|
  {
    var high: int, low: int := s[at], s[at + 1];
    high * 256 + low
  }

  function Word32(s: seq<Byte>, at: nat): nat
    requires at + 4 <= |s|
  {
    Word16(s, at) * 65536 + Word16(s, at + 2)
  }

  function Type(f: Frame): Byte {
    match f case Data(_) => DATA case Resize(_, _) => RESIZE case Eof => EOF
  }

  function Payload(f: Frame): (p: seq<Byte>)
    requires Proper(f)
    ensures |p| <= MAX_FRAME
  {
    match f case Data(bytes) => bytes case Resize(columns, rows) => Be16(columns) + Be16(rows) case Eof => []
  }

  function Header(kind: Byte, length: nat): (h: seq<Byte>)
    requires length <= MAX_FRAME
    ensures |h| == 8
  {
    [kind, 0, 0, 0] + Be32(length)
  }

  function EncodeFrame(f: Frame): (e: seq<Byte>)
    requires Proper(f)
    ensures |e| == 8 + |Payload(f)|
  {
    Header(Type(f), |Payload(f)|) + Payload(f)
  }

  predicate AllProper(fs: seq<Frame>) {
    forall f <- fs :: Proper(f)
  }

  function EncodeTo(fs: seq<Frame>, n: nat): seq<Byte>
    requires AllProper(fs) && n <= |fs|
  {
    if n == 0 then [] else EncodeTo(fs, n - 1) + EncodeFrame(fs[n - 1])
  }

  // ----- Parsing -----

  datatype Parsed = Short | Bad | Good(frame: Frame, next: nat)

  /** The frame a complete header and payload stand for; Bad where the bridge
      closes the connection whatever the payload says. */
  function FrameOf(kind: Byte, payload: seq<Byte>, next: nat): Parsed {
    if kind == DATA && payload != [] then Good(Data(payload), next)
    else if kind == RESIZE && |payload| == 4 then Good(Resize(Word16(payload, 0), Word16(payload, 2)), next)
    else if kind == EOF && payload == [] then Good(Eof, next)
    else Bad
  }

  /** One round of the frame loop, for a stream that ends where s ends. */
  function ParseAt(s: seq<Byte>, at: nat): (r: Parsed)
    ensures r.Good? ==> at + 8 <= r.next <= |s| && Proper(r.frame)
  {
    if at + 8 > |s| then Short
    else if s[at + 1] != 0 || s[at + 2] != 0 || s[at + 3] != 0 then Bad
    else
      var length := Word32(s, at + 4);
      if length > MAX_FRAME then Bad
      else if at + 8 + length > |s| then Short
      else FrameOf(s[at], s[at + 8..at + 8 + length], at + 8 + length)
  }

  lemma LengthWord(e: seq<Byte>, kind: Byte, n: nat)
    requires n <= MAX_FRAME && |e| >= 8 && e[..8] == Header(kind, n)
    ensures Word32(e, 4) == n && e[0] == kind && e[1] == e[2] == e[3] == 0
  {
    assert forall k :: 0 <= k < 8 ==> e[k] == e[..8][k];
  }

  /** In front of anything, an encoded frame parses as itself. */
  lemma {:induction false} ParseEncoded(s: seq<Byte>, at: nat, f: Frame)
    requires Proper(f) && at + |EncodeFrame(f)| <= |s| && s[at..at + |EncodeFrame(f)|] == EncodeFrame(f)
    ensures ParseAt(s, at) == Good(f, at + |EncodeFrame(f)|)
  {
    var e, p := EncodeFrame(f), Payload(f);
    var piece := s[at..at + |e|];
    assert forall k :: 0 <= k < |e| ==> piece[k] == s[at + k];
    assert e[8..] == p && s[at + 8..at + 8 + |p|] == piece[8..];
    LengthWord(e, Type(f), |p|);
    assert piece[0] == s[at] && piece[1] == s[at + 1] && piece[2] == s[at + 2] && piece[3] == s[at + 3];
    assert piece[4] == s[at + 4] && piece[5] == s[at + 5] && piece[6] == s[at + 6] && piece[7] == s[at + 7];
  }

  /** A frame cut short is waited for, not rejected. */
  lemma {:induction false} ParseCut(s: seq<Byte>, at: nat, f: Frame)
    requires Proper(f) && at <= |s| < at + |EncodeFrame(f)| && s[at..] == EncodeFrame(f)[..|s| - at]
    ensures ParseAt(s, at) == Short
  {
    var e := EncodeFrame(f);
    if at + 8 <= |s| {
      var piece := s[at..];
      assert forall k :: 0 <= k < |piece| ==> piece[k] == e[k];
      LengthWord(e, Type(f), |Payload(f)|);
      assert piece[0] == s[at] && piece[1] == s[at + 1] && piece[2] == s[at + 2] && piece[3] == s[at + 3];
      assert piece[4] == s[at + 4] && piece[5] == s[at + 5] && piece[6] == s[at + 6] && piece[7] == s[at + 7];
    }
  }

  // ----- The terminal -----

  datatype Terminal = Terminal(pty: seq<Byte>, columns: nat, rows: nat)

  predicate InRange(f: Frame) {
    f.Resize? ==> 1 <= f.columns <= 1000 && 1 <= f.rows <= 1000
  }

  /** What a frame does; None if it is refused. */
  function Apply(t: Terminal, f: Frame): Option<Terminal> {
    if !InRange(f) then None
    else match f
      case Data(bytes) => Some(t.(pty := t.pty + bytes))
      case Resize(columns, rows) => Some(t.(columns := columns, rows := rows))
      case Eof => Some(t.(pty := t.pty + [END_OF_INPUT]))
  }

  datatype Ending = EndOfStream | Rejected | Stopped

  /** Everything the bridge does with a stream that ends where s ends. */
  function Relay(s: seq<Byte>, at: nat, t: Terminal): (Terminal, Ending)
    decreases |s| - at
  {
    match ParseAt(s, at)
    case Short => (t, EndOfStream)
    case Bad => (t, Rejected)
    case Good(f, next) => if Apply(t, f).None? then (t, Rejected) else Relay(s, next, Apply(t, f).value)
  }

  /** The bytes that the first n frames type. */
  function Typed(fs: seq<Frame>, n: nat): seq<Byte>
    requires n <= |fs|
  {
    if n == 0 then []
    else Typed(fs, n - 1) + Keys(fs[n - 1])
  }

  function Keys(f: Frame): seq<Byte> {
    match f case Data(bytes) => bytes case Resize(_, _) => [] case Eof => [END_OF_INPUT]
  }

  /** The last size the first n frames set. */
  function Size(fs: seq<Frame>, n: nat, initial: (nat, nat)): (nat, nat)
    requires n <= |fs|
  {
    if n == 0 then initial
    else if fs[n - 1].Resize? then (fs[n - 1].columns, fs[n - 1].rows)
    else Size(fs, n - 1, initial)
  }

  function After(t: Terminal, fs: seq<Frame>, n: nat): Terminal
    requires n <= |fs|
  {
    var size := Size(fs, n, (t.columns, t.rows));
    Terminal(t.pty + Typed(fs, n), size.0, size.1)
  }

  lemma AfterNext(t: Terminal, fs: seq<Frame>, n: nat)
    requires n < |fs|
    ensures InRange(fs[n]) ==> Apply(After(t, fs, n), fs[n]) == Some(After(t, fs, n + 1))
    ensures !InRange(fs[n]) ==> Apply(After(t, fs, n), fs[n]).None?
  {
    assert t.pty + Typed(fs, n) + Keys(fs[n]) == t.pty + (Typed(fs, n) + Keys(fs[n]));
    assert t.pty + Typed(fs, n) + [] == t.pty + Typed(fs, n);
  }

  lemma {:induction false} EncodeToPrefix(fs: seq<Frame>, k: nat, n: nat)
    requires AllProper(fs) && k <= n <= |fs|
    ensures |EncodeTo(fs, k)| <= |EncodeTo(fs, n)| && EncodeTo(fs, n)[..|EncodeTo(fs, k)|] == EncodeTo(fs, k)
  {
    if k < n {
      EncodeToPrefix(fs, k, n - 1);
    }
  }

  /** s is the encoding of the first n frames, and behind it a part of one more,
      or nothing. */
  predicate CarriesTo(s: seq<Byte>, fs: seq<Frame>, n: nat, cut: Frame)
    requires AllProper(fs) && n <= |fs|
  {
    && Proper(cut) && |EncodeTo(fs, n)| <= |s| < |EncodeTo(fs, n)| + |EncodeFrame(cut)|
    && s[..|EncodeTo(fs, n)|] == EncodeTo(fs, n)
    && s[|EncodeTo(fs, n)|..] == EncodeFrame(cut)[..|s| - |EncodeTo(fs, n)|]
  }

  predicate Carries(s: seq<Byte>, fs: seq<Frame>, cut: Frame) {
    AllProper(fs) && CarriesTo(s, fs, |fs|, cut)
  }

  lemma {:induction false} FrameInStream(s: seq<Byte>, fs: seq<Frame>, cut: Frame, k: nat)
    requires Carries(s, fs, cut) && k < |fs|
    ensures ParseAt(s, |EncodeTo(fs, k)|) == Good(fs[k], |EncodeTo(fs, k + 1)|)
  {
    var at, next := |EncodeTo(fs, k)|, |EncodeTo(fs, k + 1)|;
    EncodeToPrefix(fs, k + 1, |fs|);
    assert s[..next] == EncodeTo(fs, k + 1);
    assert s[at..next] == s[..next][at..];
    ParseEncoded(s, at, fs[k]);
  }

  predicate AllInRange(fs: seq<Frame>, k: nat) {
    forall i :: k <= i < |fs| ==> InRange(fs[i])
  }

  /** The first frame at or behind k with a size out of range, or the end. */
  function FirstRefused(fs: seq<Frame>, k: nat): (i: nat)
    requires k <= |fs|
    ensures k <= i <= |fs| && (i == |fs| <==> AllInRange(fs, k))
    ensures i < |fs| ==> !InRange(fs[i])
    decreases |fs| - k
  {
    if k == |fs| || !InRange(fs[k]) then k else FirstRefused(fs, k + 1)
  }

  /** From any frame boundary on: the remaining frames are applied in order up to
      the first whose size is out of range, which ends the session. */
  lemma {:induction false} RelayFrom(s: seq<Byte>, fs: seq<Frame>, cut: Frame, k: nat, t: Terminal)
    requires Carries(s, fs, cut) && k <= |fs|
    ensures var i := FirstRefused(fs, k);
            Relay(s, |EncodeTo(fs, k)|, After(t, fs, k))
            == (After(t, fs, i), if i == |fs| then EndOfStream else Rejected)
    decreases |fs| - k
  {
    hide ParseAt, Apply, After, EncodeTo, EncodeFrame, InRange;
    if k == |fs| {
      ParseCut(s, |EncodeTo(fs, k)|, cut);
    } else {
      FrameInStream(s, fs, cut, k);
      AfterNext(t, fs, k);
      if InRange(fs[k]) {
        RelayFrom(s, fs, cut, k + 1, t);
      }
    }
  }

  /** A stream of proper frames is accepted exactly when every size is in range;
      whatever its sizes, the frames in front of the first one refused are done. */
  lemma {:induction false} StreamAcceptedIff(s: seq<Byte>, fs: seq<Frame>, cut: Frame, t: Terminal)
    requires Carries(s, fs, cut)
    ensures Relay(s, 0, t).1 != Rejected <==> AllInRange(fs, 0)
    ensures Relay(s, 0, t).0 == After(t, fs, FirstRefused(fs, 0))
    ensures AllInRange(fs, 0) ==> Relay(s, 0, t) == (After(t, fs, |fs|), EndOfStream)
  {
    assert After(t, fs, 0) == t;
    RelayFrom(s, fs, cut, 0, t);
  }

  /** What has reached the shell stays there. */
  lemma {:induction false} RelayGrows(s: seq<Byte>, at: nat, t: Terminal)
    ensures t.pty <= Relay(s, at, t).0.pty
    decreases |s| - at
  {
    match ParseAt(s, at)
    case Good(f, next) =>
      if Apply(t, f).Some? {
        assert t.pty <= Apply(t, f).value.pty;
        RelayGrows(s, next, Apply(t, f).value);
      }
    case _ =>
  }

  // ----- The bridge -----

  /** One session; the stream arrives in pieces of any size. */
  class Bridge {
    const stream: seq<Byte>
    var position: nat
    var terminal: Terminal

    ghost predicate Valid()
      reads this
    {
      position <= |stream|
    }

    constructor (stream: seq<Byte>, columns: nat, rows: nat)
      ensures Valid() && this.stream == stream && position == 0
      ensures terminal == Terminal([], if columns == 0 || columns > 1000 then 80 else columns,
                                   if rows == 0 || rows > 1000 then 24 else rows)
    {
      this.stream, position := stream, 0;
      terminal := Terminal([], if columns == 0 || columns > 1000 then 80 else columns,
                           if rows == 0 || rows > 1000 then 24 else rows);
    }

    /** recv: some bytes, at least one unless the stream is at its end. */
    method Recv(size: nat) returns (chunk: seq<Byte>)
      requires Valid() && size > 0
      modifies this`position
      ensures Valid() && position == old(position) + |chunk| && |chunk| <= size
              && chunk == stream[old(position)..position]
      ensures chunk == [] <==> old(position) == |stream|
    {
      var available := if |stream| - position < size then |stream| - position else size;
      var count: int := *;
      count := if count < 1 then 1 else count;
      count := if count > available then available else count;
      chunk := stream[position..position + count];
      position := position + count;
    }

    /** read_exact: as many rounds as the fragmentation takes. */
    method ReadExact(size: nat) returns (ok: bool, buffer: seq<Byte>)
      requires Valid()
      modifies this`position
      ensures Valid()
      ensures ok <==> old(position) + size <= |stream|
      ensures ok ==> position == old(position) + size && buffer == stream[old(position)..position]
    {
      buffer := [];
      while |buffer| < size
        invariant Valid() && |buffer| <= size && position == old(position) + |buffer|
        invariant buffer == stream[old(position)..position]
        decreases size - |buffer|
      {
        var chunk := Recv(size - |buffer|);
        if chunk == [] {
          return false, buffer;
        }
        buffer := buffer + chunk;
      }
      ok := true;
    }

    /** apply_resize, with an ioctl that succeeds. */
    method ApplyResize(payload: seq<Byte>) returns (ok: bool)
      requires |payload| == 4
      modifies this`terminal
      ensures var f := Resize(Word16(payload, 0), Word16(payload, 2));
              ok == InRange(f) && (ok ==> Apply(old(terminal), f) == Some(terminal))
              && (!ok ==> terminal == old(terminal))
    {
      var columns, rows := Word16(payload, 0), Word16(payload, 2);
      if columns == 0 || columns > 1000 || rows == 0 || rows > 1000 {
        return false;
      }
      terminal := terminal.(columns := columns, rows := rows);
      return true;
    }

    /** One frame off the stream; anything but None ends the session. */
    method ReadFrame() returns (ending: Option<Ending>)
      requires Valid()
      modifies this`position, this`terminal
      ensures Valid() && ending != Some(Stopped)
      ensures ending.None? ==>
                position > old(position)
                && Relay(stream, old(position), old(terminal)) == Relay(stream, position, terminal)
      ensures ending.Some? ==> Relay(stream, old(position), old(terminal)) == (terminal, ending.value)
    {
      var at := position;
      var ok, header := ReadExact(8);
      if !ok {
        return Some(EndOfStream);
      }
      assert forall k :: 0 <= k < 8 ==> header[k] == stream[at + k];
      if header[1] != 0 || header[2] != 0 || header[3] != 0 {
        return Some(Rejected);
      }
      var length := Word32(header, 4);
      assert length == Word32(stream, at + 4);
      if length > MAX_FRAME {
        return Some(Rejected);
      }
      var payload;
      ok, payload := ReadExact(length);
      if !ok {
        return Some(EndOfStream);
      }
      var accepted;
      if header[0] == DATA {
        accepted := length > 0;
        if accepted {
          terminal := terminal.(pty := terminal.pty + payload);
        }
      } else if header[0] == RESIZE {
        accepted := length == 4;
        if accepted {
          accepted := ApplyResize(payload);
        }
      } else if header[0] == EOF {
        accepted := length == 0;
        if accepted {
          terminal := terminal.(pty := terminal.pty + [END_OF_INPUT]);
        }
      } else {
        accepted := false;
      }
      return if accepted then None else Some(Rejected);
    }

    /** The frame loop of relay_session, which a signal, the shell's end or a
        failing descriptor may stop between two frames. */
    method RelaySession() returns (ending: Ending)
      requires Valid()
      modifies this`position, this`terminal
      ensures Valid()
      ensures !ending.Stopped? ==> Relay(stream, old(position), old(terminal)) == (terminal, ending)
      ensures ending.Stopped? ==> Relay(stream, old(position), old(terminal)) == Relay(stream, position, terminal)
    {
      while true
        invariant Valid() && Relay(stream, old(position), old(terminal)) == Relay(stream, position, terminal)
        decreases |stream| - position
      {
        var stop: bool := *;
        if stop {
          return Stopped;
        }
        var result := ReadFrame();
        if result.Some? {
          return result.value;
        }
      }
    }
  }
}
