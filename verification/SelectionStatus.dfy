/** The helper's view of the selection owner's diagnostics: lines from a pipe,
    collected in a small buffer, whatever pieces the reads return. */
module SelectionStatus {
  import opened Basics
  import MaskedSearch

  const CAPACITY := 512
  const LIMIT := CAPACITY - 1   // the last byte is for the NUL
  const NEWLINE: Byte := 10
  const ULONG_MAX := 0xFFFF_FFFF_FFFF_FFFF

  /** What the lines so far have told. */
  datatype Report = Report(nextRequest: nat, ownershipLost: bool, xError: bool)

  // ----- One line -----

  function Ascii(s: string): (b: seq<Byte>)
    ensures |b| == |s|
  {
    seq<Byte>(|s|, i requires 0 <= i < |s| => if s[i] < 128 as char then s[i] as int else 0)
  }

  predicate Mentions(line: seq<Byte>, needle: seq<Byte>) {
    MaskedSearch.Find(line, needle, 0).Some?
  }

  predicate IsSpace(b: Byte) {
    b == 32 || 9 <= b <= 13
  }

  predicate IsDigit(b: Byte) {
    48 <= b <= 57
  }

  function SkipSpace(s: seq<Byte>, at: nat): nat
    requires at <= |s|
    ensures at <= SkipSpace(s, at) <= |s|
    decreases |s| - at
  {
    if at < |s| && IsSpace(s[at]) then SkipSpace(s, at + 1) else at
  }

  function Digits(s: seq<Byte>, at: nat, value: nat): nat
    requires at <= |s|
    decreases |s| - at
  {
    if at < |s| && IsDigit(s[at]) then
      var digit: int := s[at];
      Digits(s, at + 1, 10 * value + digit - 48)
    else value
  }

  /** strtoul in base 10: None where it converts nothing; too much saturates and
      a minus sign wraps around. */
  function StrToUl(s: seq<Byte>, at: nat): Option<nat>
    requires at <= |s|
  {
    var start := SkipSpace(s, at);
    var signed := start < |s| && (s[start] == 43 || s[start] == 45);
    var first := if signed then start + 1 else start;
    if first >= |s| || !IsDigit(s[first]) then None
    else
      var value := Digits(s, first, 0);
      if value > ULONG_MAX then Some(ULONG_MAX)
      else if signed && s[start] == 45 && value > 0 then Some(ULONG_MAX + 1 - value)
      else Some(value)
  }

  const MARKER := Ascii("Waiting for selection request number ")
  const LOST := Ascii("Lost selection ownership")
  const X_ERROR := Ascii("X Error")

  /** What one line adds. */
  function Note(r: Report, line: seq<Byte>): Report {
    var number := match MaskedSearch.Find(line, MARKER, 0)
                  case None => None
                  case Some(p) => StrToUl(line, p + |MARKER|);
    Report(if number.Some? && number.value > r.nextRequest then number.value else r.nextRequest,
           r.ownershipLost || Mentions(line, LOST),
           r.xError || Mentions(line, X_ERROR))
  }

  // ----- The stream as a whole -----

  /** The unfinished line at the end of the first n bytes. */
  function Unfinished(s: seq<Byte>, n: nat): seq<Byte>
    requires n <= |s|
  {
    if n == 0 || s[n - 1] == NEWLINE then [] else Unfinished(s, n - 1) + [s[n - 1]]
  }

  /** The part of a complete line that the buffer still holds at its end. */
  function Seen(line: seq<Byte>): seq<Byte> {
    line[LIMIT * (|line| / LIMIT)..]
  }

  /** The fold over the complete lines of the first n bytes. */
  function Told(s: seq<Byte>, n: nat): Report
    requires n <= |s|
  {
    if n == 0 then Report(0, false, false)
    else if s[n - 1] == NEWLINE then Note(Told(s, n - 1), Seen(Unfinished(s, n - 1)))
    else Told(s, n - 1)
  }

  /** The same fold with every line in full. */
  function ToldInFull(s: seq<Byte>, n: nat): Report
    requires n <= |s|
  {
    if n == 0 then Report(0, false, false)
    else if s[n - 1] == NEWLINE then Note(ToldInFull(s, n - 1), Unfinished(s, n - 1))
    else ToldInFull(s, n - 1)
  }

  /** A line is seen in full exactly when it leaves room in the buffer. */
  lemma SeenInFullIff(line: seq<Byte>)
    ensures Seen(line) == line <==> |line| < LIMIT
  {
    assert |line| >= LIMIT ==> |Seen(line)| < |line|;
  }

  /** With lines of at most 510 bytes nothing is missed. */
  lemma {:induction false} ShortLinesAreTold(s: seq<Byte>, n: nat)
    requires n <= |s| && forall k :: 0 <= k <= n ==> |Unfinished(s, k)| < LIMIT
    ensures Told(s, n) == ToldInFull(s, n)
  {
    if n > 0 {
      ShortLinesAreTold(s, n - 1);
      SeenInFullIff(Unfinished(s, n - 1));
    }
  }

  // ----- What a long line loses -----

  /** How much of a complete line has been dropped. */
  function Dropped(line: seq<Byte>): (d: nat)
    ensures d <= |line| && (d == 0 <==> |line| < LIMIT) && Seen(line) == line[d..]
  {
    LIMIT * (|line| / LIMIT)
  }

  /** The number behind the first marker at or behind `from`; 0 stands for none. */
  function NumberFrom(line: seq<Byte>, from: nat): nat {
    match MaskedSearch.Find(line, MARKER, from)
    case None => 0
    case Some(p) => match StrToUl(line, p + |MARKER|) case None => 0 case Some(number) => number
  }

  predicate IfAtAllBehind(line: seq<Byte>, needle: seq<Byte>, d: nat) {
    MaskedSearch.Find(line, needle, 0).Some? ==> MaskedSearch.Find(line, needle, d).Some?
  }

  /** What the rest of the line tells is what the line tells. */
  predicate RestTellsAll(line: seq<Byte>) {
    && IfAtAllBehind(line, LOST, Dropped(line))
    && IfAtAllBehind(line, X_ERROR, Dropped(line))
    && NumberFrom(line, Dropped(line)) == NumberFrom(line, 0)
  }

  lemma {:induction false} FindInSuffix(line: seq<Byte>, needle: seq<Byte>, d: nat, k: nat)
    requires d + k <= |line|
    ensures MaskedSearch.Find(line, needle, d + k)
            == match MaskedSearch.Find(line[d..], needle, k) case None => None case Some(p) => Some(d + p)
    decreases |line| - k
  {
    if k + |needle| <= |line| - d {
      assert line[d..][k..k + |needle|] == line[d + k..d + k + |needle|];
      if d + k < |line| {
        FindInSuffix(line, needle, d, k + 1);
      }
    }
  }

  lemma {:induction false} SkipSpaceInSuffix(line: seq<Byte>, d: nat, at: nat)
    requires d + at <= |line|
    ensures SkipSpace(line, d + at) == d + SkipSpace(line[d..], at)
    decreases |line| - at
  {
    if d + at < |line| {
      SkipSpaceInSuffix(line, d, at + 1);
    }
  }

  lemma {:induction false} DigitsInSuffix(line: seq<Byte>, d: nat, at: nat, value: nat)
    requires d + at <= |line|
    ensures Digits(line, d + at, value) == Digits(line[d..], at, value)
    decreases |line| - at
  {
    if d + at < |line| && IsDigit(line[d + at]) {
      var digit: int := line[d + at];
      DigitsInSuffix(line, d, at + 1, 10 * value + digit - 48);
    }
  }

  lemma NumberInSuffix(line: seq<Byte>, d: nat, at: nat)
    requires d + at <= |line|
    ensures StrToUl(line, d + at) == StrToUl(line[d..], at)
  {
    hide SkipSpace, Digits;
    SkipSpaceInSuffix(line, d, at);
    var start := SkipSpace(line[d..], at);
    var signed := start < |line| - d && (line[d..][start] == 43 || line[d..][start] == 45);
    var first := if signed then start + 1 else start;
    if first < |line| - d {
      DigitsInSuffix(line, d, first, 0);
    }
  }

  lemma MentionedInRest(line: seq<Byte>, needle: seq<Byte>)
    ensures Mentions(Seen(line), needle) == MaskedSearch.Find(line, needle, Dropped(line)).Some?
    ensures Mentions(Seen(line), needle) ==> Mentions(line, needle)
    ensures Mentions(line, needle) == MaskedSearch.Find(line, needle, 0).Some?
  {
    FindInSuffix(line, needle, Dropped(line), 0);
  }

  lemma NumberInRest(line: seq<Byte>)
    ensures NumberFrom(Seen(line), 0) == NumberFrom(line, Dropped(line))
  {
    hide MARKER, StrToUl;
    var d := Dropped(line);
    FindInSuffix(line, MARKER, d, 0);
    var p := MaskedSearch.Find(line[d..], MARKER, 0);
    if p.Some? {
      NumberInSuffix(line, d, p.value + |MARKER|);
    }
  }

  /** Of a line of any length nothing is lost, whatever was told before it,
      exactly when each of its three messages lies, if it is there at all, in the
      part that is still in the buffer; a number may also lie in front of it if
      the same number comes again. */
  lemma NoteUnchangedIff(line: seq<Byte>)
    ensures (forall r :: Note(r, Seen(line)) == Note(r, line)) <==> RestTellsAll(line)
    ensures Note(Report(0, false, false), Seen(line)) == Note(Report(0, false, false), line) <==> RestTellsAll(line)
  {
    hide Seen, Ascii, MARKER, LOST, X_ERROR, NumberFrom, Note, Mentions, MaskedSearch.Find, Dropped;
    MentionedInRest(line, LOST);
    MentionedInRest(line, X_ERROR);
    NumberInRest(line);
    if RestTellsAll(line) {
      forall r ensures Note(r, Seen(line)) == Note(r, line) {
        NoteOf(r, line);
        NoteOf(r, Seen(line));
      }
    }
    NoteOf(Report(0, false, false), line);
    NoteOf(Report(0, false, false), Seen(line));
  }

  lemma NoteOf(r: Report, line: seq<Byte>)
    ensures Note(r, line) == Report(if NumberFrom(line, 0) > r.nextRequest then NumberFrom(line, 0) else r.nextRequest,
                                    r.ownershipLost || Mentions(line, LOST), r.xError || Mentions(line, X_ERROR))
  {
    hide Ascii, MARKER, LOST, X_ERROR, StrToUl;
  }

  /** Nothing is missed if the rest of every complete line tells all of it. */
  lemma {:induction false} ToldInFullIfRests(s: seq<Byte>, n: nat)
    requires n <= |s| && forall k :: 0 <= k < n && s[k] == NEWLINE ==> RestTellsAll(Unfinished(s, k))
    ensures Told(s, n) == ToldInFull(s, n)
  {
    hide RestTellsAll, Note;
    if n > 0 {
      ToldInFullIfRests(s, n - 1);
      NoteUnchangedIff(Unfinished(s, n - 1));
    }
  }

  lemma {:induction false} FirstLine(line: seq<Byte>, n: nat)
    requires NEWLINE !in line && n <= |line|
    ensures var s := line + [NEWLINE];
            && Unfinished(s, n) == line[..n]
            && Told(s, n) == ToldInFull(s, n) == Report(0, false, false)
  {
    if n > 0 {
      FirstLine(line, n - 1);
      assert line[..n - 1] + [line[n - 1]] == line[..n];
    }
  }

  /** Whatever else a first line loses shows in what is told of it. */
  lemma FirstLineToldIff(line: seq<Byte>)
    requires NEWLINE !in line
    ensures var s := line + [NEWLINE]; Told(s, |s|) == ToldInFull(s, |s|) <==> RestTellsAll(line)
  {
    hide RestTellsAll, Note, Seen;
    FirstLine(line, |line|);
    assert line[..|line|] == line;
    NoteUnchangedIff(line);
  }

  /** An error message in the first 511 bytes of a line of 511 is never seen. */
  lemma MissedError()
    ensures var line := X_ERROR + seq(LIMIT - 7, i => 46);
            var s := line + [NEWLINE];
            ToldInFull(s, |s|).xError && !Told(s, |s|).xError
  {
    hide StrToUl, MARKER;
    var error := X_ERROR;
    var line := error + seq(LIMIT - 7, i => 46);
    FirstLine(line, |line|);
    assert line[..|line|] == line;
    assert MaskedSearch.Occurs(line, error, 0) by {
      assert line[0..7] == error;
    }
    assert Mentions(line, error);
    assert Seen(line) == [];
    NothingMentioned(error);
    assert Told(line + [NEWLINE], |line| + 1) == Note(Report(0, false, false), []);
    assert ToldInFull(line + [NEWLINE], |line| + 1) == Note(Report(0, false, false), line);
  }

  lemma NothingMentioned(needle: seq<Byte>)
    ensures needle != [] ==> !Mentions([], needle)
  {
  }

  lemma {:induction false} NoNewline(s: seq<Byte>, n: nat, m: nat)
    requires n <= m <= |s| && NEWLINE !in s[n..m]
    ensures Unfinished(s, m) == Unfinished(s, n) + s[n..m] && Told(s, m) == Told(s, n)
    decreases m
  {
    if n < m {
      assert s[n..m] == s[n..m - 1] + [s[m - 1]];
      NoNewline(s, n, m - 1);
    }
  }

  lemma {:induction false} OnlyThePast(a: seq<Byte>, b: seq<Byte>, n: nat)
    requires n <= |a| && n <= |b| && a[..n] == b[..n]
    ensures Unfinished(a, n) == Unfinished(b, n) && Told(a, n) == Told(b, n)
  {
    if n > 0 {
      assert a[n - 1] == a[..n][n - 1] && b[n - 1] == b[..n][n - 1];
      assert a[..n - 1] == a[..n][..n - 1] && b[..n - 1] == b[..n][..n - 1];
      OnlyThePast(a, b, n - 1);
    }
  }

  // ----- What the buffer holds -----

  /** The rest of an unfinished line in the buffer; a full one is dropped only by
      the next read. */
  function Held(tail: seq<Byte>): seq<Byte> {
    if tail == [] then [] else tail[LIMIT * ((|tail| - 1) / LIMIT)..]
  }

  lemma DropIfFull(tail: seq<Byte>)
    ensures |Held(tail)| <= LIMIT
    ensures Seen(tail) == if |Held(tail)| == LIMIT then [] else Held(tail)
  {
  }

  lemma MoreHeld(tail: seq<Byte>, more: seq<Byte>)
    requires |Seen(tail)| + |more| <= LIMIT
    ensures more != [] ==> Held(tail + more) == Seen(tail) + more
    ensures |Seen(tail)| + |more| < LIMIT ==> Seen(tail + more) == Seen(tail) + more
  {
    var q := |tail| / LIMIT;
    assert (tail + more)[LIMIT * q..] == tail[LIMIT * q..] + more;
    assert |tail| == LIMIT * q + |Seen(tail)|;
    SameQuotient(q, |Seen(tail)| + |more|);
  }

  lemma SameQuotient(q: nat, r: nat)
    ensures r < LIMIT ==> (LIMIT * q + r) / LIMIT == q
    ensures 0 < r <= LIMIT ==> (LIMIT * q + r - 1) / LIMIT == q
  {
  }

  // ----- The reader -----

  class Status {
    const stream: seq<Byte>        // everything the owner will ever print
    const buffer: array<Byte>
    var length: nat
    var report: Report
    var position: nat              // how much of it has been read

    ghost predicate Shape()
      reads this
    {
      buffer.Length == CAPACITY && length <= LIMIT && position <= |stream| && forall b <- stream :: b != 0
    }

    /** The buffer and the report are functions of what has been printed, not of
        the pieces in which it was read. */
    ghost predicate Valid()
      reads this, buffer
    {
      && Shape() && report == Told(stream, position)
      && (|| buffer[..length] == Held(Unfinished(stream, position))
          || buffer[..length] == Seen(Unfinished(stream, position)))
    }

    constructor (stream: seq<Byte>)
      requires forall b <- stream :: b != 0
      ensures Valid() && this.stream == stream && position == 0
    {
      this.stream := stream;
      buffer := new Byte[CAPACITY](_ => 0);
      length, report, position := 0, Report(0, false, false), 0;
      new;
      assert buffer[..0] == [];
    }

    /** read: between one byte and `size` bytes of what is left, into the buffer. */
    method Read(size: nat) returns (received: nat)
      requires Shape() && 0 < size <= LIMIT - length
      modifies buffer, this`position
      ensures Shape() && received <= size && position == old(position) + received
      ensures buffer[..length + received] == old(buffer[..length]) + stream[old(position)..position]
    {
      var available := if |stream| - position < size then |stream| - position else size;
      var count: int := *;
      received := if count < 0 then 0 else if count > available then available else count;
      for i := 0 to received
        invariant position == old(position)
                  && buffer[..length + i] == old(buffer[..length]) + stream[position..position + i]
      {
        buffer[length + i] := stream[position + i];
      }
      position := position + received;
    }

    /** strchr for a newline in buffer[start..length]. */
    method FindNewline(start: nat) returns (newline: Option<nat>)
      requires Shape() && start <= length
      ensures match newline
              case Some(q) => start <= q < length && buffer[q] == NEWLINE && NEWLINE !in buffer[start..q]
              case None => NEWLINE !in buffer[start..length]
    {
      for q := start to length
        invariant NEWLINE !in buffer[start..q]
      {
        if buffer[q] == NEWLINE {
          return Some(q);
        }
      }
      return None;
    }

    /** The inner loop: notes every complete line in the buffer. `base` bytes had
        been read before, and what was left of them is the first `held` bytes. */
    method NoteLines(ghost base: nat, ghost held: nat) returns (lineStart: nat)
      requires Shape() && Loaded(stream, buffer[..length], base, held) && position == base + length - held
      requires report == Told(stream, base)
      modifies this`report
      ensures Shape() && report == Told(stream, position)
      ensures lineStart == 0 || held < lineStart <= length
      ensures if lineStart == 0 then NEWLINE !in stream[base..position]
              else Unfinished(stream, position) == buffer[lineStart..length]
    {
      hide Told, Unfinished, Note, Seen;
      ghost var b := buffer[..length];
      lineStart := 0;
      var newline := FindNewline(lineStart);
      while newline.Some?
        invariant buffer[..length] == b && (lineStart == 0 || held < lineStart <= length)
        invariant report == Told(stream, From(base, held, lineStart))
        invariant lineStart > 0 ==> Unfinished(stream, From(base, held, lineStart)) == []
        invariant match newline
                  case Some(q) => lineStart <= q < length && b[q] == NEWLINE && NEWLINE !in b[lineStart..q]
                  case None => NEWLINE !in b[lineStart..]
        decreases length - lineStart
      {
        var q := newline.value;
        LineAt(stream, b, base, held, lineStart, q);
        PartOfBuffer(buffer, length, lineStart, q);
        report := Note(report, buffer[lineStart..q]);
        lineStart := q + 1;
        newline := FindNewline(lineStart);
      }
      RestAt(stream, b, base, held, lineStart);
    }

    /** Moves the rest of the buffer to its front. */
    method MoveToFront(start: nat)
      requires Shape() && start <= length
      modifies buffer, this`length
      ensures Shape() && length == old(length) - start && buffer[..length] == old(buffer[start..length])
    {
      var remaining := length - start;
      for i := 0 to remaining
        invariant forall j :: 0 <= j < i ==> buffer[j] == old(buffer[start + j])
        invariant forall j :: i <= j < buffer.Length ==> buffer[j] == old(buffer[j])
      {
        buffer[i] := buffer[start + i];
      }
      length := remaining;
    }

    /** One round of update_selection_status; it goes on while bytes come. */
    method Round() returns (more: bool)
      requires Valid()
      modifies this`length, this`report, this`position, buffer
      ensures Valid() && position >= old(position) && (more <==> position > old(position))
    {
      hide Told, Unfinished, Held, Seen;
      ghost var base := position;
      DropIfFull(Unfinished(stream, base));
      if length == LIMIT {
        length := 0;
      }
      ghost var held := length;
      assert buffer[..held] == Seen(Unfinished(stream, base));
      SeenHasNoNewline(stream, base);
      var received := Read(LIMIT - length);
      if received == 0 {
        return false;
      }
      length := length + received;
      var lineStart := NoteLines(base, held);
      Settle(stream, buffer[..length], base, held, lineStart);
      if lineStart != 0 {
        MoveToFront(lineStart);
      }
      return true;
    }

    /** update_selection_status: rounds until nothing is there to be read, with
        any number of interrupted reads in between. */
    method Update()
      requires Valid()
      modifies this`length, this`report, this`position, buffer
      ensures Valid() && position >= old(position)
    {
      var more := true;
      while more
        invariant Valid() && position >= old(position)
        decreases |stream| - position, more
      {
        more := Round();
      }
    }
  }

  lemma PartOfBuffer(a: array<Byte>, length: nat, start: nat, q: nat)
    requires start <= q <= length <= a.Length
    ensures a[..length][start..q] == a[start..q]
  {
  }

  /** Where in the stream the line at `start` of the buffer began, or what has
      been noted before it. */
  function From(base: nat, held: nat, start: nat): nat {
    if start <= held then base else base + start - held
  }

  /** A buffer with the rest of an unfinished line and the bytes just read. */
  predicate Loaded(s: seq<Byte>, b: seq<Byte>, base: nat, held: nat) {
    && held <= |b| <= LIMIT && base + |b| - held <= |s|
    && b[..held] == Seen(Unfinished(s, base)) && b[held..] == s[base..base + |b| - held] && NEWLINE !in b[..held]
  }

  lemma {:induction false} UnfinishedHasNoNewline(s: seq<Byte>, n: nat)
    requires n <= |s|
    ensures NEWLINE !in Unfinished(s, n)
  {
    if n > 0 && s[n - 1] != NEWLINE {
      UnfinishedHasNoNewline(s, n - 1);
    }
  }

  lemma SeenHasNoNewline(s: seq<Byte>, n: nat)
    requires n <= |s|
    ensures NEWLINE !in Seen(Unfinished(s, n))
  {
    UnfinishedHasNoNewline(s, n);
  }

  lemma ReadBytes(s: seq<Byte>, b: seq<Byte>, base: nat, held: nat, first: nat, q: nat)
    requires held <= first <= q <= |b| && base + |b| - held <= |s| && b[held..] == s[base..base + |b| - held]
    ensures b[first..q] == s[base + first - held..base + q - held]
  {
    forall i | 0 <= i < q - first ensures b[first..q][i] == s[base + first - held..base + q - held][i] {
      assert b[held..][first - held + i] == s[base..base + |b| - held][first - held + i];
    }
  }

  lemma NoneIn(b: seq<Byte>, start: nat, q: nat, first: nat)
    requires start <= first <= q <= |b| && NEWLINE !in b[start..q]
    ensures NEWLINE !in b[first..q] && forall i :: start <= i < q ==> b[i] != NEWLINE
  {
    assert forall i :: start <= i < q ==> b[i] == b[start..q][i - start];
  }

  /** The bytes of the buffer from `start` to q follow what was noted before. */
  lemma Followed(s: seq<Byte>, b: seq<Byte>, base: nat, held: nat, start: nat, q: nat)
    requires Loaded(s, b, base, held) && (start == 0 || held < start) && start <= q <= |b| && held <= q
             && NEWLINE !in b[start..q]
    ensures s[From(base, held, start)..base + q - held] == b[if start == 0 then held else start..q]
    ensures NEWLINE !in s[From(base, held, start)..base + q - held]
  {
    hide Seen, Unfinished;
    var first := if start == 0 then held else start;
    ReadBytes(s, b, base, held, first, q);
    NoneIn(b, start, q, first);
  }

  /** What of the line the buffer still holds is its part of the buffer. */
  lemma SeenInBuffer(s: seq<Byte>, b: seq<Byte>, base: nat, held: nat, start: nat, q: nat)
    requires Loaded(s, b, base, held) && (start == 0 || held < start) && start <= q < |b| && held <= q
             && NEWLINE !in b[start..q]
    requires start > 0 ==> Unfinished(s, From(base, held, start)) == []
    ensures Seen(Unfinished(s, base + q - held)) == b[start..q]
    ensures Told(s, base + q - held) == Told(s, From(base, held, start))
  {
    hide Unfinished, Told;
    var from, n := From(base, held, start), base + q - held;
    Followed(s, b, base, held, start, q);
    NoNewline(s, from, n);
    hide Seen;
    MoreHeld(Unfinished(s, from), s[from..n]);
    assert b[..held] + b[held..q] == b[..q];
  }

  lemma NewlineIsNew(s: seq<Byte>, b: seq<Byte>, base: nat, held: nat, q: nat)
    requires Loaded(s, b, base, held) && q < |b| && b[q] == NEWLINE
    ensures held <= q && base + q - held < |s| && s[base + q - held] == NEWLINE
  {
    hide Seen, Unfinished;
    NoneIn(b, 0, held, 0);
    if held <= q {
      assert b[held..][q - held] == s[base..base + |b| - held][q - held];
    }
  }

  /** The newline at q ends the line that starts at `start` in the buffer. */
  lemma LineAt(s: seq<Byte>, b: seq<Byte>, base: nat, held: nat, start: nat, q: nat)
    requires Loaded(s, b, base, held) && (start == 0 || held < start) && start <= q < |b| && b[q] == NEWLINE
             && NEWLINE !in b[start..q]
    requires start > 0 ==> Unfinished(s, From(base, held, start)) == []
    ensures held <= q && base + q - held < |s|
    ensures Told(s, From(base, held, q + 1)) == Note(Told(s, From(base, held, start)), b[start..q])
    ensures Unfinished(s, From(base, held, q + 1)) == []
  {
    hide Seen, Note, Loaded;
    NewlineIsNew(s, b, base, held, q);
    SeenInBuffer(s, b, base, held, start, q);
  }

  lemma RestAt(s: seq<Byte>, b: seq<Byte>, base: nat, held: nat, start: nat)
    requires Loaded(s, b, base, held) && (start == 0 || held < start) && start <= |b| && NEWLINE !in b[start..]
    requires start > 0 ==> Unfinished(s, From(base, held, start)) == []
    ensures Told(s, base + |b| - held) == Told(s, From(base, held, start))
    ensures if start == 0 then NEWLINE !in s[base..base + |b| - held]
            else Unfinished(s, base + |b| - held) == b[start..]
  {
    assert b[start..|b|] == b[start..];
    Followed(s, b, base, held, start, |b|);
    NoNewline(s, From(base, held, start), base + |b| - held);
  }

  /** What is left behind the last complete line is what the buffer has to hold. */
  lemma Settle(s: seq<Byte>, b: seq<Byte>, base: nat, held: nat, start: nat)
    requires Loaded(s, b, base, held) && held < |b| && start <= |b|
    requires if start == 0 then NEWLINE !in s[base..base + |b| - held]
             else Unfinished(s, base + |b| - held) == b[start..]
    ensures Held(Unfinished(s, base + |b| - held)) == b[start..]
  {
    hide Unfinished, Told, Seen;
    if start == 0 {
      NoNewline(s, base, base + |b| - held);
      MoreHeld(Unfinished(s, base), s[base..base + |b| - held]);
      assert b[..held] + b[held..] == b;
    }
  }
}
