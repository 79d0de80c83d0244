/** The sending end of the terminal protocol: two workers that share a socket
    under a lock, and what their interleavings leave on the wire. */
module TerminalProxy {
  import opened Basics
  import opened TerminalBridge

  const BUFFER_SIZE := 16384

  datatype Worker = InputWorker | ResizeWorker

  /** Between two frames, with a frame to send (waiting for the lock or holding
      it), or returned. */
  datatype Progress = Idle | Sending(frame: Frame) | Returned

  /** A conversion to a signed 16-bit integer. */
  function ToShort(n: int): int {
    (n + 0x8000) % 0x1_0000 - 0x8000
  }

  /** console_size: the width and height of the window, or 80 by 24. */
  function ConsoleSize(info: Option<(int, int)>): (r: (nat, nat))
    ensures 1 <= r.0 <= 32767 && 1 <= r.1 <= 32767
  {
    match info
    case None => (80, 24)
    case Some(size) =>
      (if ToShort(size.0) > 0 then ToShort(size.0) else 80, if ToShort(size.1) > 0 then ToShort(size.1) else 24)
  }

  function KeysOf(p: Progress): seq<Byte> {
    if p.Sending? then Keys(p.frame) else []
  }

  class Proxy {
    var wire: seq<Byte>        // all bytes the socket has taken
    var broken: bool           // a send has failed, and so will every later one
    var owner: Option<Worker>  // who is inside the critical section
    var rest: seq<Byte>        // what the owner has still to send
    var input: Progress
    var resize: Progress
    var previous: (nat, nat)   // previous_columns, previous_rows
    ghost var log: seq<Frame>  // the frames that are completely on the wire
    ghost var cut: Frame       // the frame of which a part may follow them
    ghost var typed: seq<Byte> // what the console has delivered so far

    ghost predicate Valid()
      reads this
    {
      && Carries(wire, log, cut)
      && (input.Sending? ==> Proper(input.frame) && !input.frame.Resize?)
      && (resize.Sending? ==>
            && Proper(resize.frame) && resize.frame.Resize?
            && previous == (resize.frame.columns, resize.frame.rows))
      && Typed(log, |log|) <= typed
      && (owner.Some? ==> Of(owner.value).Sending?)
      && (!broken ==>
            && typed == Typed(log, |log|) + KeysOf(input)
            && (!resize.Sending? ==> previous == Size(log, |log|, (0, 0)))
            && match owner
               case None => wire == EncodeTo(log, |log|)
               case Some(w) =>
                 && cut == Of(w).frame && rest != []
                 && rest == EncodeFrame(cut)[|wire| - |EncodeTo(log, |log|)|..])
    }

    function Of(w: Worker): Progress
      reads this`input, this`resize
    {
      match w case InputWorker => input case ResizeWorker => resize
    }

    constructor ()
      ensures Valid() && log == [] && typed == [] && !broken && input.Idle? && resize.Idle? && owner.None?
              && previous == (0, 0)
    {
      wire, broken, owner, rest := [], false, None, [];
      input, resize, previous := Idle, Idle, (0, 0);
      log, cut, typed := [], Eof, [];
    }

    method SetProgress(w: Worker, p: Progress)
      modifies this`input, this`resize
      ensures match w
              case InputWorker => input == p && resize == old(resize)
              case ResizeWorker => resize == p && input == old(input)
    {
      match w
      case InputWorker => input := p;
      case ResizeWorker => resize := p;
    }

    /** ReadFile in input_worker: a piece of input, or its end. */
    method ReadConsole(data: seq<Byte>)
      requires Valid() && input.Idle? && owner != Some(InputWorker) && |data| <= BUFFER_SIZE
      modifies this`input, this`typed
      ensures Valid() && typed == old(typed) + if data == [] then [END_OF_INPUT] else data
      ensures input == Sending(if data == [] then Eof else Data(data))
    {
      input := Sending(if data == [] then Eof else Data(data));
      typed := typed + Keys(input.frame);
      assert Typed(log, |log|) + [] == Typed(log, |log|);
    }

    /** One round of resize_worker. */
    method PollConsole(info: Option<(int, int)>)
      requires Valid() && resize.Idle? && owner != Some(ResizeWorker)
      modifies this`resize, this`previous
      ensures Valid() && previous == ConsoleSize(info)
      ensures resize == if ConsoleSize(info) == old(previous) then Idle else Sending(Resize(previous.0, previous.1))
    {
      var size := ConsoleSize(info);
      if size == previous {
        return;
      }
      previous := size;
      resize := Sending(Resize(size.0, size.1));
    }

    /** EnterCriticalSection in send_frame. */
    method Enter(w: Worker)
      requires Valid() && owner.None? && Of(w).Sending?
      modifies this`owner, this`rest, this`cut
      ensures Valid() && owner == Some(w)
    {
      owner, rest := Some(w), EncodeFrame(Of(w).frame);
      if !broken {
        cut := Of(w).frame;
      }
    }

    /** A send that fails: the frame stays cut, and its worker returns. */
    method Fail(w: Worker)
      requires Valid() && owner == Some(w)
      modifies this`broken, this`owner, this`input, this`resize
      ensures Valid() && broken && owner.None? && Of(w).Returned?
    {
      hide Carries, EncodeTo, EncodeFrame, Typed, Size;
      broken, owner := true, None;
      SetProgress(w, Returned);
    }

    /** One call of send within send_frame: first the header, then the payload.
        The last byte of the frame, or a failure, leaves the critical section. */
    method Send()
      requires Valid() && owner.Some?
      modifies this`wire, this`broken, this`owner, this`rest, this`input, this`resize, this`log, this`cut
      ensures Valid() && old(log) <= log && old(wire) <= wire
      ensures old(broken) ==> broken && wire == old(wire) && log == old(log)
    {
      hide Carries, EncodeTo, EncodeFrame, Typed, Size, Payload;
      var w, fails: bool := owner.value, *;
      if broken || fails {
        Fail(w);
        return;
      }
      var frame := Of(w).frame;
      var header := |rest| - |Payload(frame)|;
      var limit := if header > 0 then header else |rest|;
      var count: int := *;
      count := if count < 1 then 1 else if count > limit then limit else count;
      if count < |rest| {
        MoreOfFrame(wire, log, cut, rest, count);
        wire, rest := wire + rest[..count], rest[count..];
      } else {
        Complete(w);
      }
    }

    /** The last bytes of a frame: the worker leaves the critical section. */
    method Complete(w: Worker)
      requires Valid() && owner == Some(w) && !broken
      modifies this`wire, this`owner, this`rest, this`input, this`resize, this`log, this`cut
      ensures Valid() && log == old(log) + [old(Of(w).frame)] && old(wire) <= wire && owner.None?
    {
      hide Carries, EncodeTo, EncodeFrame, Typed, Size;
      var frame := Of(w).frame;
      FrameDone(wire, log, cut, rest);
      assert Typed(log, |log|) + [] == Typed(log, |log|);
      wire, rest := wire + rest, [];
      log, cut, owner := log + [frame], Eof, None;
      SetProgress(w, if frame.Eof? then Returned else Idle);
    }

    /** Any interleaving of both workers, whatever the console does and wherever
        the connection fails; steps that are not enabled are skipped. */
    method AnyRun(steps: seq<Step>)
      requires Valid()
      modifies this
      ensures Valid() && old(log) <= log && old(wire) <= wire
    {
      hide Carries, EncodeTo, EncodeFrame, Typed, Size;
      for i := 0 to |steps|
        invariant Valid() && old(log) <= log && old(wire) <= wire
      {
        match steps[i]
        case Read(data) =>
          if input.Idle? && |data| <= BUFFER_SIZE {
            ReadConsole(data);
          }
        case Poll(info) =>
          if resize.Idle? {
            PollConsole(info);
          }
        case Lock(w) =>
          if owner.None? && Of(w).Sending? {
            Enter(w);
          }
        case SendSome =>
          if owner.Some? {
            Send();
          }
      }
    }

    /** A whole session: the workers run, the connection delivers any first part
        of what they sent, in pieces of any size, and the bridge reads it until
        something ends it. What the shell gets is a first part of what was typed,
        however the session ends. With sizes in range no frame is rejected, and
        the shell has all of it, with the last size, when everything was
        delivered and nothing is left to send. */
    method Session(steps: seq<Step>, delivered: nat) returns (bridge: Bridge, ending: Ending)
      requires Valid() && log == [] && typed == [] && previous == (0, 0)
      modifies this
      ensures AllInRange(log, 0) ==> ending != Rejected
      ensures bridge.terminal.pty <= typed
      ensures AllInRange(log, 0) && !ending.Stopped? && delivered >= |wire| && !broken && input.Returned?
              && resize.Idle? ==>
                bridge.terminal.pty == typed
                && (previous != (0, 0) ==> (bridge.terminal.columns, bridge.terminal.rows) == previous)
    {
      hide Carries, EncodeTo, EncodeFrame, Typed, Size, Relay;
      AnyRun(steps);
      assert Typed(log, |log|) + [] == Typed(log, |log|);
      var stream := if delivered < |wire| then wire[..delivered] else wire;
      var columns: int, rows: int := *, *;
      bridge := new Bridge(stream, if columns < 0 then 0 else columns, if rows < 0 then 0 else rows);
      ghost var t := bridge.terminal;
      ending := bridge.RelaySession();
      assert stream == wire[..|stream|];
      Delivered(wire, log, cut, |stream|, t, bridge.position, bridge.terminal, ending);
    }
  }

  datatype Step = Read(data: seq<Byte>) | Poll(info: Option<(int, int)>) | Lock(w: Worker) | SendSome

  lemma {:induction false} EncodeToAgrees(a: seq<Frame>, b: seq<Frame>, n: nat)
    requires AllProper(a) && AllProper(b) && n <= |a| && n <= |b| && a[..n] == b[..n]
    ensures EncodeTo(a, n) == EncodeTo(b, n) && Typed(a, n) == Typed(b, n)
    ensures forall initial :: Size(a, n, initial) == Size(b, n, initial)
  {
    if n > 0 {
      assert a[n - 1] == a[..n][n - 1] && b[n - 1] == b[..n][n - 1];
      assert a[..n - 1] == a[..n][..n - 1] && b[..n - 1] == b[..n][..n - 1];
      EncodeToAgrees(a, b, n - 1);
    }
  }

  lemma {:induction false} EncodeToSnoc(log: seq<Frame>, f: Frame, n: nat)
    requires AllProper(log) && Proper(f) && n <= |log|
    ensures AllProper(log + [f]) && EncodeTo(log + [f], n) == EncodeTo(log, n)
    ensures n == |log| ==> EncodeTo(log + [f], n + 1) == EncodeTo(log, n) + EncodeFrame(f)
    ensures Typed(log + [f], n) == Typed(log, n)
    ensures forall initial :: Size(log + [f], n, initial) == Size(log, n, initial)
  {
    assert (log + [f])[..n] == log[..n];
    EncodeToAgrees(log, log + [f], n);
  }

  /** More bytes of the cut frame extend the part of it that is on the wire ... */
  lemma MoreOfFrame(wire: seq<Byte>, log: seq<Frame>, cut: Frame, rest: seq<Byte>, count: nat)
    requires Carries(wire, log, cut) && 0 < count < |rest|
    requires rest == EncodeFrame(cut)[|wire| - |EncodeTo(log, |log|)|..]
    ensures Carries(wire + rest[..count], log, cut)
    ensures rest[count..] == EncodeFrame(cut)[|wire + rest[..count]| - |EncodeTo(log, |log|)|..]
  {
    hide EncodeTo, EncodeFrame;
    Lengthen(wire, |EncodeTo(log, |log|)|, EncodeFrame(cut), rest, count);
  }

  lemma Lengthen(wire: seq<Byte>, at: nat, e: seq<Byte>, rest: seq<Byte>, count: nat)
    requires at <= |wire| <= at + |e| && wire[at..] == e[..|wire| - at] && rest == e[|wire| - at..] && count <= |rest|
    ensures var longer := wire + rest[..count];
            longer[..at] == wire[..at] && longer[at..] == e[..|longer| - at] && rest[count..] == e[|longer| - at..]
  {
    assert (wire + rest[..count])[at..] == wire[at..] + rest[..count];
  }

  /** ... and the last ones complete it. */
  lemma FrameDone(wire: seq<Byte>, log: seq<Frame>, cut: Frame, rest: seq<Byte>)
    requires Carries(wire, log, cut) && rest == EncodeFrame(cut)[|wire| - |EncodeTo(log, |log|)|..]
    ensures Carries(wire + rest, log + [cut], Eof) && wire + rest == EncodeTo(log + [cut], |log| + 1)
    ensures Typed(log + [cut], |log| + 1) == Typed(log, |log|) + Keys(cut)
    ensures Size(log + [cut], |log| + 1, (0, 0))
            == if cut.Resize? then (cut.columns, cut.rows) else Size(log, |log|, (0, 0))
  {
    hide EncodeTo, EncodeFrame;
    EncodeToSnoc(log, cut, |log|);
    Join(wire, |EncodeTo(log, |log|)|, EncodeFrame(cut), rest);
  }

  lemma Join(wire: seq<Byte>, at: nat, e: seq<Byte>, rest: seq<Byte>)
    requires at <= |wire| <= at + |e| && wire[at..] == e[..|wire| - at] && rest == e[|wire| - at..]
    ensures wire + rest == wire[..at] + e
  {
    assert e == e[..|wire| - at] + e[|wire| - at..];
  }

  lemma ShorterPart(wire: seq<Byte>, log: seq<Frame>, n: nat, cut: Frame, size: nat)
    requires AllProper(log) && n <= |log| && CarriesTo(wire, log, n, cut) && |EncodeTo(log, n)| <= size <= |wire|
    ensures AllProper(log[..n]) && Carries(wire[..size], log[..n], cut)
  {
    hide EncodeTo, EncodeFrame;
    EncodeToSlice(log, n);
    assert wire[..size][|EncodeTo(log, n)|..] == wire[|EncodeTo(log, n)|..][..size - |EncodeTo(log, n)|];
  }

  lemma LastFrameCut(wire: seq<Byte>, log: seq<Frame>, n: nat, cut: Frame)
    requires AllProper(log) && 0 < n <= |log| && CarriesTo(wire, log, n, cut)
    ensures CarriesTo(wire[..|EncodeTo(log, n)| - 1], log, n - 1, log[n - 1])
  {
    hide EncodeFrame;
    var at, shorter := |EncodeTo(log, n)|, wire[..|EncodeTo(log, n)| - 1];
    assert shorter == EncodeTo(log, n)[..at - 1];
    assert EncodeTo(log, n) == EncodeTo(log, n - 1) + EncodeFrame(log[n - 1]);
  }

  /** Any first part of the wire carries some first frames. */
  lemma {:induction false} PartCarries(wire: seq<Byte>, log: seq<Frame>, n: nat, cut: Frame, size: nat)
    returns (k: nat, c: Frame)
    requires AllProper(log) && n <= |log| && CarriesTo(wire, log, n, cut) && size <= |wire|
    ensures k <= n && Carries(wire[..size], log[..k], c) && (size == |wire| ==> k == n)
    decreases n
  {
    hide EncodeFrame, Carries;
    var at := |EncodeTo(log, n)|;
    if size >= at {
      k, c := n, cut;
      ShorterPart(wire, log, n, cut, size);
    } else {
      LastFrameCut(wire, log, n, cut);
      k, c := PartCarries(wire[..at - 1], log, n - 1, log[n - 1], size);
      assert wire[..at - 1][..size] == wire[..size];
    }
  }

  lemma {:induction false} EncodeToSlice(log: seq<Frame>, n: nat)
    requires AllProper(log) && n <= |log|
    ensures AllProper(log[..n]) && EncodeTo(log[..n], n) == EncodeTo(log, n)
  {
    EncodeToAgrees(log, log[..n], n);
  }

  lemma {:induction false} TypedPrefix(log: seq<Frame>, k: nat, n: nat)
    requires k <= n <= |log|
    ensures Typed(log, k) <= Typed(log, n)
  {
    if k < n {
      TypedPrefix(log, k, n - 1);
    }
  }

  /** The size that was set last does not depend on the first one, if any was set. */
  lemma {:induction false} SizeWasSet(log: seq<Frame>, n: nat, initial: (nat, nat))
    requires n <= |log| && Size(log, n, (0, 0)) != (0, 0)
    ensures Size(log, n, initial) == Size(log, n, (0, 0))
  {
    if !log[n - 1].Resize? {
      SizeWasSet(log, n - 1, initial);
    }
  }

  /** What the bridge has after any first part of the wire. */
  lemma {:induction false} Delivered(wire: seq<Byte>, log: seq<Frame>, cut: Frame, size: nat, t: Terminal,
                                     position: nat, result: Terminal, ending: Ending)
    requires Carries(wire, log, cut) && size <= |wire| && t.pty == []
    requires if ending.Stopped?
             then position <= size && Relay(wire[..size], 0, t) == Relay(wire[..size], position, result)
             else Relay(wire[..size], 0, t) == (result, ending)
    ensures AllInRange(log, 0) ==> ending != Rejected
    ensures result.pty <= Typed(log, |log|)
    ensures AllInRange(log, 0) && !ending.Stopped? && size == |wire| ==>
              result.pty == Typed(log, |log|)
              && (Size(log, |log|, (0, 0)) != (0, 0) ==> (result.columns, result.rows) == Size(log, |log|, (0, 0)))
  {
    hide EncodeTo, EncodeFrame, Relay;
    var k, c := PartCarries(wire, log, |log|, cut, size);
    StreamAcceptedIff(wire[..size], log[..k], c, t);
    var i := FirstRefused(log[..k], 0);
    assert log[..i] == log[..k][..i];
    EncodeToAgrees(log, log[..k], i);
    TypedPrefix(log, i, |log|);
    RelayGrows(wire[..size], position, result);
    if Size(log, |log|, (0, 0)) != (0, 0) {
      SizeWasSet(log, |log|, (t.columns, t.rows));
    }
  }
}
