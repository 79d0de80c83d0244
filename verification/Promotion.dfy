/** The login-preserving promotion transaction and the manager that drives it.
    Every file-system step is atomic and the machine may stop after each. */
module Promotion {
  import opened Basics
  import opened LoginDigest

  /** A Wine prefix: its account state, its release manifest, whether both
      runtime verifications pass on it, and the rest. */
  datatype Prefix = Prefix(login: LoginState, manifest: Digest, healthy: bool, rest: nat)

  /** One transaction's work directory. */
  datatype WorkDir = WorkDir(partial: Option<Prefix>, snapshot: Option<Prefix>, failed: seq<Prefix>)

  datatype Marker = Marker(work: nat, bridgeWasActive: bool)

  datatype Phase = Queued | Deferred | WaitingIdle | Running | Promoted | Blocked

  /** How a command ends; a crash may hit the helper or the whole machine. */
  datatype Outcome = Completed | Raised | Crashed

  /** The accepted release: the digest of its manifest, and whatever its installer
      will make of the prefix before it ends or is stopped. */
  datatype Candidate = Candidate(manifest: Digest, installed: Option<Prefix>)

  /** What may be run, by a timer or by hand, in any order. */
  datatype Command =
    | RunMonitor(release: Candidate, quiet: bool) | RunPromoteNow(task: nat, release: Candidate, quiet: bool)
    | RunQueue(task: nat) | RunApply(work: nat, release: Candidate) | RunRecover(work: nat)

  // ----- The log of transactions -----

  datatype Entry = Begin(work: nat) | Install(work: nat) | Commit(work: nat) | Rollback(work: nat)

  datatype Open = Idle | InProgress(work: nat, installed: bool)

  /** The open transaction and the work directories used so far. */
  datatype Ledger = Ledger(open: Open, used: set<nat>)

  function Next(l: Ledger, e: Entry): Option<Ledger> {
    match e
    case Begin(w) => if l.open.Idle? && w !in l.used then Some(Ledger(InProgress(w, false), l.used + {w})) else None
    case Install(w) => if l.open == InProgress(w, false) then Some(l.(open := InProgress(w, true))) else None
    case Commit(w) => if l.open == InProgress(w, true) then Some(l.(open := Idle)) else None
    case Rollback(w) => if l.open.InProgress? && l.open.work == w then Some(l.(open := Idle)) else None
  }

  /** A serial log: transactions never overlap, each work directory is used
      once, and only an installed transaction commits. */
  function Serial(log: seq<Entry>): Option<Ledger> {
    if log == [] then Some(Ledger(Idle, {}))
    else match Serial(log[..|log| - 1])
      case None => None
      case Some(l) => Next(l, log[|log| - 1])
  }

  lemma SerialSnoc(log: seq<Entry>, e: Entry)
    requires Serial(log).Some?
    ensures Serial(log + [e]) == Next(Serial(log).value, e)
  {
    assert (log + [e])[..|log|] == log;
  }

  function Count(log: seq<Entry>, e: Entry): nat {
    if log == [] then 0 else Count(log[..|log| - 1], e) + (if log[|log| - 1] == e then 1 else 0)
  }

  /** In a serial log the installer runs at most once per work directory, and
      every transaction that was begun has been closed, but for the open one. */
  lemma {:induction false} SerialCounts(log: seq<Entry>, w: nat)
    requires Serial(log).Some?
    ensures Count(log, Begin(w)) == if w in Serial(log).value.used then 1 else 0
    ensures Count(log, Install(w)) <= Count(log, Begin(w))
    ensures Count(log, Commit(w)) + Count(log, Rollback(w))
            == Count(log, Begin(w))
               - (if Serial(log).value.open.InProgress? && Serial(log).value.open.work == w then 1 else 0)
    ensures Serial(log).value.open.InProgress? ==> Serial(log).value.open.work in Serial(log).value.used
    ensures Serial(log).value.open == InProgress(w, false) ==> Count(log, Install(w)) == 0
  {
    if log != [] {
      SerialCounts(log[..|log| - 1], w);
    }
  }

  lemma {:induction false} ClosedWhenIdle(log: seq<Entry>, i: nat) returns (k: nat)
    requires Serial(log).Some? && i < |log| && log[i].Begin?
    requires Serial(log).value.open.Idle? || Serial(log).value.open.work != log[i].work
    ensures i < k < |log| && (log[k] == Commit(log[i].work) || log[k] == Rollback(log[i].work))
  {
    if log[|log| - 1] == Commit(log[i].work) || log[|log| - 1] == Rollback(log[i].work) {
      k := |log| - 1;
    } else {
      k := ClosedWhenIdle(log[..|log| - 1], i);
    }
  }

  /** Between the beginnings of two transactions lies the end of the first. */
  lemma {:induction false} ClosedBeforeNext(log: seq<Entry>, i: nat, j: nat) returns (k: nat)
    requires Serial(log).Some? && i < j < |log| && log[i].Begin? && log[j].Begin?
    ensures i < k < j && (log[k] == Commit(log[i].work) || log[k] == Rollback(log[i].work))
  {
    var before := log[..|log| - 1];
    if j < |log| - 1 {
      k := ClosedBeforeNext(before, i, j);
    } else {
      k := ClosedWhenIdle(before, i);
    }
  }

  /** The transactions that have committed, in order. */
  function Works(log: seq<Entry>): seq<nat> {
    if log == [] then []
    else Works(log[..|log| - 1]) + (if log[|log| - 1].Commit? then [log[|log| - 1].work] else [])
  }

  /** How many had committed when a transaction began, if it ever did. */
  function BeganAt(log: seq<Entry>, w: nat): Option<nat> {
    if log == [] then None
    else if log[|log| - 1] == Begin(w) then Some(|Works(log[..|log| - 1])|)
    else BeganAt(log[..|log| - 1], w)
  }

  /** The transaction that began last. */
  function Latest(log: seq<Entry>): Option<nat> {
    if log == [] then None
    else if log[|log| - 1].Begin? then Some(log[|log| - 1].work)
    else Latest(log[..|log| - 1])
  }

  /** Some transaction has committed since this one began. */
  predicate CommittedSince(log: seq<Entry>, w: nat) {
    log != [] && log[|log| - 1] != Begin(w) && (log[|log| - 1].Commit? || CommittedSince(log[..|log| - 1], w))
  }

  lemma LogSnoc(log: seq<Entry>, e: Entry)
    ensures Works(log + [e]) == Works(log) + (if e.Commit? then [e.work] else [])
    ensures forall w :: BeganAt(log + [e], w) == if e == Begin(w) then Some(|Works(log)|) else BeganAt(log, w)
    ensures Latest(log + [e]) == if e.Begin? then Some(e.work) else Latest(log)
  {
    assert (log + [e])[..|log|] == log;
  }

  lemma {:induction false} SinceIff(log: seq<Entry>, w: nat)
    requires BeganAt(log, w).Some?
    ensures BeganAt(log, w).value <= |Works(log)|
    ensures CommittedSince(log, w) <==> BeganAt(log, w).value < |Works(log)|
  {
    if log[|log| - 1] != Begin(w) {
      SinceIff(log[..|log| - 1], w);
    }
  }

  lemma {:induction false} InLast(log: seq<Entry>, e: Entry)
    requires log != []
    ensures e in log <==> log[|log| - 1] == e || e in log[..|log| - 1]
  {
    assert log == log[..|log| - 1] + [log[|log| - 1]];
  }

  /** In a serial log the open transaction is the latest, nothing has committed
      since it began, and whatever committed had begun. */
  lemma {:induction false} OpenIsLatest(log: seq<Entry>, w: nat)
    requires Serial(log).Some?
    ensures BeganAt(log, w).Some? <==> w in Serial(log).value.used
    ensures Serial(log).value.open.InProgress? ==>
              && Latest(log) == Some(Serial(log).value.open.work)
              && BeganAt(log, Serial(log).value.open.work) == Some(|Works(log)|)
    ensures Commit(w) in log ==> w in Serial(log).value.used
  {
    if log != [] {
      InLast(log, Commit(w));
      OpenIsLatest(log[..|log| - 1], w);
    }
  }

  /** A committed transaction is numbered by where it began: its release follows
      directly on the prefix it began from. */
  lemma {:induction false} CommitIsNumbered(log: seq<Entry>, w: nat)
    requires Serial(log).Some?
    ensures Commit(w) in log ==>
              && BeganAt(log, w).Some? && BeganAt(log, w).value < |Works(log)|
              && Works(log)[BeganAt(log, w).value] == w
    ensures w in Works(log) ==> Commit(w) in log
  {
    if log != [] {
      var init := log[..|log| - 1];
      InLast(log, Commit(w));
      OpenIsLatest(init, w);
      CommitIsNumbered(init, w);
    }
  }

  /** For the latest transaction only its own commit counts. */
  lemma {:induction false} LatestCommitted(log: seq<Entry>, w: nat)
    requires Serial(log).Some? && Latest(log) == Some(w)
    ensures CommittedSince(log, w) <==> Commit(w) in log
  {
    var init := log[..|log| - 1];
    InLast(log, Commit(w));
    OpenIsLatest(init, w);
    if !log[|log| - 1].Begin? {
      LatestCommitted(init, w);
    }
  }

  /** After a rollback a later transaction may commit: then the prefix the first
      began from is no longer the live one, although it never committed. */
  lemma LaterCommit(v: nat, w: nat)
    requires v != w
    ensures var log := [Begin(v), Install(v), Rollback(v), Begin(w), Install(w), Commit(w)];
            Serial(log).Some? && BeganAt(log, v).Some? && Commit(v) !in log && CommittedSince(log, v)
  {
    var log := [Begin(v), Install(v), Rollback(v), Begin(w), Install(w), Commit(w)];
    assert log[..5][..4] == log[..4] && log[..4][..3] == log[..3];
    assert log[..3][..2] == log[..2] && log[..2][..1] == log[..1] && log[..1][..0] == [];
    assert Serial(log[..1]) == Some(Ledger(InProgress(v, false), {} + {v}));
    assert Serial(log[..2]).Some? && Serial(log[..3]).Some? && Serial(log[..4]).Some? && Serial(log[..5]).Some?;
    assert BeganAt(log[..1], v).Some? && BeganAt(log[..3], v).Some? && BeganAt(log[..5], v).Some?;
  }

  // ----- The history of accepted releases -----

  /** A promoted prefix, its transaction, and the manifest that was accepted. */
  datatype Release = Release(work: nat, prefix: Prefix, manifest: Digest)

  /** What apply checks before it commits. */
  predicate Accepted(previous: Prefix, release: Release) {
    Preserved(previous.login, release.prefix.login) && release.prefix.manifest == release.manifest
    && release.prefix.healthy
  }

  datatype History = History(origin: Prefix, releases: seq<Release>, log: seq<Entry>) {
    function Before(i: nat): Prefix
      requires i <= |releases|
    {
      if i == 0 then origin else releases[i - 1].prefix
    }

    /** The prefix that is, or is to be restored as, the live one. */
    function Current(): Prefix { Before(|releases|) }

    /** The releases are the committed transactions, in order. */
    predicate Numbered() {
      |Works(log)| == |releases| && forall i :: 0 <= i < |releases| ==> releases[i].work == Works(log)[i]
    }

    predicate Sound() {
      Serial(log).Some? && Numbered() && forall i :: 0 <= i < |releases| ==> Accepted(Before(i), releases[i])
    }

    function State(): Ledger
      requires Sound()
    {
      Serial(log).value
    }

    lemma Extend(e: Entry)
      requires Sound() && Next(State(), e).Some? && !e.Commit?
      ensures var h := this.(log := log + [e]);
              h.Sound() && h.State() == Next(State(), e).value && h.Current() == Current()
    {
      SerialSnoc(log, e);
      LogSnoc(log, e);
      var h := this.(log := log + [e]);
      forall i | 0 <= i < |releases| ensures Accepted(h.Before(i), releases[i]) {
        assert Accepted(Before(i), releases[i]);
      }
    }

    lemma Promote(r: Release)
      requires Sound() && Accepted(Current(), r) && Next(State(), Commit(r.work)).Some?
      ensures var h := History(origin, releases + [r], log + [Commit(r.work)]);
              h.Sound() && h.State() == Next(State(), Commit(r.work)).value && h.Current() == r.prefix
    {
      SerialSnoc(log, Commit(r.work));
      LogSnoc(log, Commit(r.work));
      var h := History(origin, releases + [r], log + [Commit(r.work)]);
      forall i | 0 <= i <= |releases| ensures Accepted(h.Before(i), h.releases[i]) {
        if i < |releases| {
          assert Accepted(Before(i), releases[i]);
        }
      }
    }

    /** Every accepted release carries the account state of the first prefix. */
    lemma {:induction false} LoginKept(i: nat)
      requires Sound() && 0 < i <= |releases|
      ensures Preserved(origin.login, Before(i).login)
      decreases i
    {
      assert Accepted(Before(i - 1), releases[i - 1]);
      if i > 1 {
        LoginKept(i - 1);
      }
    }

    /** The release of a committed transaction follows the prefix it began from. */
    lemma ReleaseOf(w: nat) returns (i: nat)
      requires Sound() && Commit(w) in log
      ensures BeganAt(log, w) == Some(i) && i < |releases| && releases[i].work == w
    {
      CommitIsNumbered(log, w);
      i := BeganAt(log, w).value;
    }

    /** The installer ran at most once per work directory. */
    ghost predicate InstalledOnce() {
      forall w :: Count(log, Install(w)) <= 1
    }

    /** The current prefix passed every check of its promotion and carries the
        account state of the first one. */
    predicate CurrentAccepted() {
      releases != [] ==>
        Current().healthy && Current().manifest == releases[|releases| - 1].manifest
        && Preserved(origin.login, Current().login)
    }

    lemma SoundFacts()
      requires Sound()
      ensures InstalledOnce() && CurrentAccepted()
    {
      forall w ensures Count(log, Install(w)) <= 1 {
        SerialCounts(log, w);
      }
      if releases != [] {
        LoginKept(|releases|);
        assert Accepted(Before(|releases| - 1), releases[|releases| - 1]);
      }
    }
  }

  class Host {
    const fate: nat -> Outcome       // how each step of the machine ends
    var step: nat
    var live: Option<Prefix>
    var bridgeActive: bool
    var marker: Option<Marker>
    var works: map<nat, WorkDir>
    var results: map<nat, bool>      // result.json of a work directory: promoted, or failed
    var workOf: map<nat, nat>        // the work directory inside each task's directory
    var phases: map<nat, Phase>
    var pending: Option<nat>
    var nextWork: nat
    ghost var history: History

    /** A marker with a snapshot means the snapshot is the prefix to restore, a
        marker without one that the live prefix has not been touched. */
    ghost predicate Valid()
      reads this`live, this`marker, this`works, this`results, this`history
    {
      && history.Sound()
      && history.State().used <= works.Keys && results.Keys <= works.Keys
      && match marker
         case None => history.State().open.Idle? && live == Some(history.Current())
         case Some(m) =>
           && history.State().open.InProgress? && history.State().open.work == m.work && m.work in works
           && (works[m.work].snapshot.Some? ==> works[m.work].snapshot == Some(history.Current()))
           && (works[m.work].snapshot.None? ==> live == Some(history.Current()))
    }

    /** Every task has a record and a directory of its own. */
    ghost predicate Filed()
      reads this`workOf, this`phases, this`nextWork
    {
      workOf.Keys == phases.Keys && Separate(workOf, nextWork)
    }

    constructor (prefix: Prefix, fate: nat -> Outcome)
      ensures Valid() && Filed() && Booked() && marker.None? && history == History(prefix, [], [])
      ensures live == Some(prefix) && bridgeActive && works == map[] && results == map[]
      ensures workOf == map[] && phases == map[] && pending.None? && nextWork == 0 && step == 0 && this.fate == fate
    {
      this.fate := fate;
      step, live, bridgeActive, marker := 0, Some(prefix), true, None;
      works, results, workOf, phases, pending, nextWork := map[], map[], map[], map[], None, 0;
      history := History(prefix, [], []);
    }

    /** The next `count` steps go well. */
    predicate Quiet(count: nat)
      reads this`step
    {
      forall i :: step <= i < step + count ==> fate(i).Completed?
    }

    predicate Reported(work: nat)
      reads this`results
    {
      work in results && results[work]
    }

    /** The point between two steps: go on, raise, or stop for good. */
    method Hazard() returns (h: Outcome)
      modifies this`step
      ensures step == old(step) + 1 && h == fate(old(step))
    {
      h := fate(step);
      step := step + 1;
    }

    /** Promotion.recover: puts the snapshot back if there is one; the marker
        goes last. */
    method Recover(work: nat) returns (outcome: Outcome)
      requires Valid()
      modifies this`step, this`live, this`bridgeActive, this`marker, this`works, this`history
      ensures Valid() && works.Keys == old(works.Keys)
      ensures old(marker).None? || old(marker).value.work != work ==>
                outcome.Raised? && live == old(live) && marker == old(marker) && works == old(works)
      ensures history == if old(marker).Some? && marker.None?
                         then old(history).(log := old(history).log + [Rollback(work)]) else old(history)
      ensures if outcome.Completed? then old(marker).Some? && marker.None? else marker == old(marker)
      ensures outcome.Completed? && old(marker).value.bridgeWasActive ==> bridgeActive
      ensures old(marker).Some? && old(marker).value.work == work && old(works[work].snapshot).Some?
              && !fate(old(step)).Completed? ==>
                outcome == fate(old(step)) && live == old(live) && step == old(step) + 1
    {
      if marker.None? || marker.value.work != work {
        return Raised;
      }
      if works[work].snapshot.Some? {
        outcome := RestoreSnapshot(work);
        if !outcome.Completed? { return; }
      }
      outcome := Hazard();  // start_live_uu
      if !outcome.Completed? { return; }
      if marker.value.bridgeWasActive {
        bridgeActive := true;
      }
      outcome := Hazard();
      if !outcome.Completed? { return; }
      history.Extend(Rollback(work));
      history := history.(log := history.log + [Rollback(work)]);
      marker := None;
    }

    /** The two renames, each of which may be the last step of the run. */
    method RestoreSnapshot(work: nat) returns (outcome: Outcome)
      requires Valid() && marker.Some? && marker.value.work == work && works[work].snapshot.Some?
      modifies this`step, this`live, this`bridgeActive, this`works
      ensures Valid() && works.Keys == old(works.Keys)
      ensures outcome.Completed? ==> live == Some(history.Current()) && works[work].snapshot.None?
      ensures outcome.Completed? ==>
                works[work].failed == old(works[work].failed) + (if old(live).Some? then [old(live).value] else [])
      ensures !fate(old(step)).Completed? ==> outcome == fate(old(step)) && live == old(live) && step == old(step) + 1
    {
      var w := works[work];
      outcome := Hazard();  // stop_live_uu
      if !outcome.Completed? { return; }
      bridgeActive := false;
      outcome := Hazard();
      if !outcome.Completed? { return; }
      if live.Some? {
        w := w.(failed := w.failed + [live.value]);
        live, works := None, works[work := w];
      }
      outcome := Hazard();
      if !outcome.Completed? { return; }
      live, works := w.snapshot, works[work := w.(snapshot := None)];
    }

    /** Promotion.snapshot: a copy under a temporary name, then one rename. */
    method Snapshot(work: nat) returns (outcome: Outcome, stopped: LoginState)
      requires Valid() && marker.Some? && marker.value.work == work && works[work] == WorkDir(None, None, [])
      modifies this`step, this`works
      ensures Valid() && works.Keys == old(works.Keys)
      ensures outcome.Completed? ==>
                works[work].snapshot == Some(history.Current()) && stopped == history.Current().login
      ensures old(Quiet(3)) && Usable(history.Current().login) ==> outcome.Completed? && step == old(step) + 3
    {
      stopped := live.value.login;
      if !Usable(stopped) {
        return Raised, stopped;
      }
      var copied: Option<Prefix> := *;  // as far as the copy has got
      works := works[work := WorkDir(copied, None, [])];
      outcome := Hazard();
      if !outcome.Completed? { return; }
      works := works[work := WorkDir(live, None, [])];
      outcome := Hazard();
      if !outcome.Completed? { return; }
      works := works[work := WorkDir(None, works[work].partial, [])];
      outcome := Hazard();  // snapshot.json
    }

    /** The installer: whatever it does to the prefix, and however it ends. */
    method RunInstaller(work: nat, installed: Option<Prefix>) returns (outcome: Outcome)
      requires Valid() && marker.Some? && marker.value.work == work
      requires !history.State().open.installed && works[work].snapshot.Some?
      modifies this`step, this`live, this`history
      ensures Valid() && history == old(history).(log := old(history).log + [Install(work)])
      ensures history.State().open == InProgress(work, true)
      ensures live == installed && outcome == fate(old(step)) && step == old(step) + 1
    {
      history.Extend(Install(work));
      history := history.(log := history.log + [Install(work)]);
      live := installed;
      outcome := Hazard();
    }

    /** The checks of apply after the installer, then the commit: removing the
        marker; the result file comes after it. */
    method VerifyAndCommit(work: nat, stopped: LoginState, manifest: Digest) returns (outcome: Outcome)
      requires Valid() && marker.Some? && marker.value.work == work
      requires history.State().open.installed && stopped == history.Current().login
      modifies this`step, this`live, this`bridgeActive, this`marker, this`results, this`history
      ensures Valid() && live == old(live)
      ensures marker == old(marker) || marker.None?
      ensures marker.Some? ==> !outcome.Completed? && history == old(history) && results == old(results)
      ensures marker.None? ==> live.Some? && history == Committed(old(history), Release(work, live.value, manifest))
      ensures marker.None? ==> results == if outcome.Completed? then old(results)[work := true] else old(results)
      ensures live.Some? && Accepted(old(history).Current(), Release(work, live.value, manifest)) && old(Quiet(2)) ==>
                marker.None? && outcome == fate(old(step) + 2) && step == old(step) + 3
    {
      hide Works, History.Numbered, Serial;
      if live.None? || !Preserved(stopped, live.value.login) || live.value.manifest != manifest {
        return Raised;
      }
      outcome := Hazard();  // write_marker("verifying"), start_live_uu
      if !outcome.Completed? { return; }
      bridgeActive := true;
      outcome := Hazard();  // verify_runtime, twice, and the XRDP check
      if !outcome.Completed? { return; }
      if !live.value.healthy {
        return Raised;
      }
      history.Promote(Release(work, live.value, manifest));
      history := Committed(history, Release(work, live.value, manifest));
      marker := None;
      outcome := Hazard();
      if !outcome.Completed? { return; }
      results := results[work := true];
    }

    /** Up to the installer. */
    method Prepare(work: nat) returns (outcome: Outcome, stopped: LoginState)
      requires Valid() && marker.Some? && marker.value.work == work && works[work] == WorkDir(None, None, [])
      modifies this`step, this`bridgeActive, this`works
      ensures Valid() && works.Keys == old(works.Keys)
      ensures outcome.Completed? ==>
                works[work].snapshot == Some(history.Current()) && stopped == history.Current().login
      ensures old(Quiet(5)) && Usable(history.Current().login) ==> outcome.Completed? && step == old(step) + 5
    {
      hide Works, History.Numbered, Serial, Accepted, Preserved, Usable;
      stopped := live.value.login;
      outcome := Hazard();  // stop_live_uu
      if !outcome.Completed? { return; }
      bridgeActive := false;
      outcome, stopped := Snapshot(work);
      if !outcome.Completed? { return; }
      outcome := Hazard();  // write_marker("snapshot-ready")
    }

    /** The guarded part of apply. */
    method Transaction(work: nat, release: Candidate) returns (outcome: Outcome)
      requires Valid() && marker.Some? && marker.value.work == work
      requires !history.State().open.installed && works[work] == WorkDir(None, None, [])
      modifies this`step, this`live, this`bridgeActive, this`marker, this`works, this`results, this`history
      ensures Valid() && works.Keys == old(works.Keys)
      ensures marker == old(marker) || marker.None?
      ensures marker.Some? ==>
                && !outcome.Completed? && results == old(results)
                && history.origin == old(history).origin && history.releases == old(history).releases
                && (history.log == old(history).log || history.log == old(history).log + [Install(work)])
      ensures marker.None? ==>
                && live.Some? && live == release.installed
                && history == Committed(old(history).(log := old(history).log + [Install(work)]),
                                        Release(work, live.value, release.manifest))
                && results == if outcome.Completed? then old(results)[work := true] else old(results)
      ensures Acceptable(old(history).Current(), work, release) && old(Quiet(8)) ==>
                marker.None? && outcome == fate(old(step) + 8) && step == old(step) + 9
      ensures Usable(old(history).Current().login) && old(Quiet(5)) && !fate(old(step) + 5).Completed? ==>
                && marker == old(marker) && outcome == fate(old(step) + 5) && step == old(step) + 6
                && live == release.installed && works[work].snapshot.Some?
    {
      hide Works, History.Numbered, Serial, Accepted, Preserved, Usable;
      AcceptableIsUsable();
      var stopped;
      outcome, stopped := Prepare(work);
      if !outcome.Completed? { return; }
      outcome := RunInstaller(work, release.installed);
      if !outcome.Completed? { return; }
      outcome := VerifyAndCommit(work, stopped, release.manifest);
    }

    /** The release is live and accepted, but no result file says so. */
    ghost predicate KeptUnreported(before: History, work: nat, release: Candidate)
      reads this`live, this`marker, this`results, this`history
    {
      && marker.None? && live.Some? && live == release.installed && !Reported(work)
      && history.releases == before.releases + [Release(work, live.value, release.manifest)]
    }

    /** The state in which a raised error leaves the machine, by the recovery
        that it has started, if any. */
    ghost predicate RaisedEnd(before: History, was: Option<Prefix>, work: nat, release: Candidate,
                              recovery: Option<Outcome>)
      reads this`live, this`marker, this`results, this`history
    {
      match recovery
      case Some(Completed) =>  // the previous prefix is back
        && marker.None? && live == Some(before.Current()) && history.releases == before.releases
        && history.log != [] && history.log[|history.log| - 1] == Rollback(work)
      case Some(Raised) =>  // the marker still stands
        marker.Some? && marker.value.work == work && history.releases == before.releases
      case Some(Crashed) => false
      case None =>  // nothing was begun, or the result file was not written
        (marker.None? && history == before && live == was) || KeptUnreported(before, work, release)
    }

    /** Promotion.apply. Only a committed release with its result on file is
        reported as promoted; after a raised error the previous prefix is live
        again unless the recovery raised as well, or the result was not written. */
    method Apply(work: nat, release: Candidate) returns (outcome: Outcome, ghost recovery: Option<Outcome>)
      requires Valid()
      modifies this`step, this`live, this`bridgeActive, this`marker, this`works, this`results, this`history
      ensures Valid() && Grown(old(history), history)
      ensures old(marker).Some? || old(work in works) ==>
                && !outcome.Completed? && live == old(live) && marker == old(marker) && works == old(works)
                && results == old(results) && history == old(history)
      ensures old(marker).None? && old(work in works) && fate(old(step)).Completed? ==>
                outcome.Raised? && step == old(step) + 1
      ensures Remembers(old(results), results)
      ensures if history == old(history) then live == old(live)
              else Latest(history.log) == Some(work) && BeganAt(history.log, work) == Some(|old(history).releases|)
      ensures history.releases != old(history).releases ==> Commit(work) in history.log
      ensures history.releases == old(history).releases
              || (live.Some? && marker.None?
                  && history.releases == old(history).releases + [Release(work, live.value, release.manifest)])
      ensures outcome.Completed? <==> history.releases != old(history).releases && Reported(work)
      ensures old(marker).None? && outcome.Raised? ==> RaisedEnd(old(history), old(live), work, release, recovery)
      ensures ResultFails(old(live), old(marker), old(bridgeActive), work, release, old(works), old(step)) ==>
                outcome.Raised? && recovery.None? && KeptUnreported(old(history), work, release)
                && step == old(step) + 12
      ensures RecoveryFails(old(live), old(marker), old(bridgeActive), work, old(works), old(step)) ==>
                outcome.Raised? && recovery == Some(Raised) && marker.Some? && live == release.installed
                && step == old(step) + 10
      ensures CommitStops(old(live), old(marker), old(bridgeActive), work, release, old(works), old(step)) ==>
                outcome.Crashed? && KeptUnreported(old(history), work, release) && work in works
                && step == old(step) + 11
    {
      hide Acceptable, Serial, Accepted, Usable, Works, BeganAt, Latest;
      LogSnoc(history.log, Begin(work));
      AcceptableIsUsable();
      recovery := None;
      outcome := Start(work);
      if outcome.Completed? {
        outcome, recovery := Guarded(work, release);
      }
    }

    /** The first part of apply, before anything is stopped. */
    method Start(work: nat) returns (outcome: Outcome)
      requires Valid()
      modifies this`step, this`marker, this`works, this`history
      ensures Valid() && (old(marker).Some? || old(work in works) ==> !outcome.Completed? && works == old(works))
      ensures if outcome.Completed?
              then && marker == Some(Marker(work, true)) && works == old(works)[work := WorkDir(None, None, [])]
                   && history == old(history).(log := old(history).log + [Begin(work)])
                   && history.State().open == InProgress(work, false) && history.Current() == old(history).Current()
              else marker == old(marker) && history == old(history)
      ensures old(marker).None? && old(work in works) && fate(old(step)).Completed? ==>
                outcome.Raised? && step == old(step) + 1
      ensures old(marker).None? && bridgeActive && live.Some? && Usable(live.value.login) && old(work !in works)
              && old(Quiet(2)) ==>
                outcome.Completed? && step == old(step) + 2
    {
      hide Serial, Accepted, Usable;
      if marker.Some? {
        return Raised;
      }
      outcome := Hazard();  // preflight
      if !outcome.Completed? { return; }
      if live.None? || !Usable(live.value.login) || !bridgeActive || work in works {
        return Raised;
      }
      works := works[work := WorkDir(None, None, [])];
      outcome := Hazard();  // write_marker("preparing")
      if !outcome.Completed? { return; }
      history.Extend(Begin(work));
      history := history.(log := history.log + [Begin(work)]);
      marker := Some(Marker(work, true));
    }

    /** All goes well until the result file is to be written. */
    ghost predicate ResultFails(was: Option<Prefix>, m: Option<Marker>, active: bool, work: nat, release: Candidate,
                                dirs: map<nat, WorkDir>, first: nat)
    {
      && m.None? && active && work !in dirs && was.Some? && Acceptable(was.value, work, release)
      && (forall i :: first <= i < first + 12 && i != first + 10 ==> fate(i).Completed?)
      && fate(first + 10).Raised?
    }

    /** All goes well until the marker is gone; then everything stops. */
    ghost predicate CommitStops(was: Option<Prefix>, m: Option<Marker>, active: bool, work: nat, release: Candidate,
                                dirs: map<nat, WorkDir>, first: nat)
    {
      && m.None? && active && work !in dirs && was.Some? && Acceptable(was.value, work, release)
      && (forall i :: first <= i < first + 10 ==> fate(i).Completed?) && fate(first + 10).Crashed?
    }

    /** The installer fails, and so does stopping the bridge for the recovery. */
    ghost predicate RecoveryFails(was: Option<Prefix>, m: Option<Marker>, active: bool, work: nat,
                                  dirs: map<nat, WorkDir>, first: nat)
    {
      && m.None? && active && work !in dirs && was.Some? && Usable(was.value.login)
      && (forall i :: first <= i < first + 10 && i != first + 7 && i != first + 8 ==> fate(i).Completed?)
      && fate(first + 7).Raised? && fate(first + 8).Raised?
    }

    /** The transaction, and the recovery that a raised error starts while the
        marker is there. */
    method Guarded(work: nat, release: Candidate) returns (outcome: Outcome, ghost recovery: Option<Outcome>)
      requires Valid() && marker.Some? && marker.value.work == work && !Reported(work)
      requires !history.State().open.installed && works[work] == WorkDir(None, None, [])
      modifies this`step, this`live, this`bridgeActive, this`marker, this`works, this`results, this`history
      ensures Valid() && Grown(old(history), history)
      ensures history.releases == old(history).releases
              || (live.Some? && marker.None?
                  && history.releases == old(history).releases + [Release(work, live.value, release.manifest)])
      ensures outcome.Completed? <==> history.releases != old(history).releases && Reported(work)
      ensures outcome.Raised? ==> RaisedEnd(old(history), old(live), work, release, recovery)
      ensures outcome.Raised? ==> (recovery.None? <==> history.releases != old(history).releases)
      ensures works.Keys == old(works.Keys) && Remembers(old(results), results)
      ensures SameTransaction(old(history).log, history.log, work)
      ensures history.releases != old(history).releases ==> Commit(work) in history.log
      ensures Acceptable(old(history).Current(), work, release) && old(Quiet(8)) && fate(old(step) + 8).Raised?
              && fate(old(step) + 9).Completed? ==>
                outcome.Raised? && recovery.None? && step == old(step) + 10
      ensures Acceptable(old(history).Current(), work, release) && old(Quiet(8)) && fate(old(step) + 8).Crashed? ==>
                outcome.Crashed? && KeptUnreported(old(history), work, release) && step == old(step) + 9
      ensures Usable(old(history).Current().login) && old(Quiet(5)) && fate(old(step) + 5).Raised?
              && fate(old(step) + 6).Raised? && fate(old(step) + 7).Completed? ==>
                outcome.Raised? && recovery == Some(Raised) && live == release.installed && step == old(step) + 8
    {
      hide Acceptable, Serial, Accepted, Usable, Works, BeganAt, Latest, History.Sound;
      recovery := None;
      LogSnoc(history.log, Install(work));
      LogSnoc(history.log + [Install(work)], Commit(work));
      outcome := Transaction(work, release);
      if outcome.Raised? {
        LogSnoc(history.log, Rollback(work));
        outcome, recovery := HandleError(work);
      }
    }

    /** The handler of apply: the recovery, if the marker is there, and the result
        file of a failure. */
    method HandleError(work: nat) returns (outcome: Outcome, ghost recovery: Option<Outcome>)
      requires Valid() && !Reported(work) && work in works && (marker.Some? ==> marker.value.work == work)
      modifies this`step, this`live, this`bridgeActive, this`marker, this`works, this`results, this`history
      ensures Valid() && !Reported(work) && works.Keys == old(works.Keys) && !outcome.Completed?
      ensures recovery.None? <==> old(marker).None?
      ensures recovery.None? ==> marker.None? && live == old(live) && history == old(history)
      ensures outcome.Raised? && recovery.Some? ==> recovery.value.Completed? || recovery.value.Raised?
      ensures Remembers(old(results), results)
      ensures marker == old(marker) || marker.None?
      ensures recovery.Some? ==> (recovery.value.Completed? <==> marker.None?)
      ensures history == if old(marker).Some? && marker.None?
                         then old(history).(log := old(history).log + [Rollback(work)]) else old(history)
      ensures old(marker).None? && fate(old(step)).Completed? ==> outcome.Raised? && step == old(step) + 1
      ensures old(marker).Some? && old(works[work].snapshot).Some? && fate(old(step)).Raised?
              && fate(old(step) + 1).Completed? ==>
                outcome.Raised? && recovery == Some(Raised) && live == old(live) && step == old(step) + 2
    {
      hide Serial;
      outcome, recovery := Raised, None;
      if marker.Some? {
        var recovered := Recover(work);
        recovery := Some(recovered);
        if recovered.Crashed? {
          return Crashed, recovery;
        }
      }
      var written := Hazard();
      if written.Crashed? {
        return Crashed, recovery;
      }
      if written.Completed? {
        results := results[work := false];
      }
    }

    /** recover_interrupted_promotion: a leftover marker is dealt with first; an
        interrupted promotion is never retried by itself. */
    method RecoverInterrupted() returns (outcome: Outcome, recovered: bool)
      requires Valid() && Filed() && Booked()
      modifies this`step, this`live, this`bridgeActive, this`marker, this`works, this`history, this`phases, this`pending
      ensures Valid() && Filed() && Booked() && works.Keys == old(works.Keys)
      ensures old(marker).None? ==>
                && outcome.Completed? && !recovered && marker.None? && history == old(history) && live == old(live)
                && works == old(works) && phases == old(phases) && pending == old(pending) && step == old(step)
      ensures old(marker).Some? ==> outcome.Completed? == recovered && (recovered ==> marker.None?)
      ensures OnlyRollsBack(old(marker), old(history), history)
    {
      hide Valid, Filed, Booked, Reported, History.Sound;
      recovered := false;
      if marker.None? {
        return Completed, false;
      }
      outcome := Hazard();
      if !outcome.Completed? { return; }
      var work := marker.value.work;
      if !(exists t :: t in workOf && workOf[t] == work) {
        return Raised, false;
      }
      var task :| task in workOf && workOf[task] == work;
      outcome := Recover(work);
      StillBooked();
      if !outcome.Completed? { return; }
      outcome := Hazard();
      if !outcome.Completed? { return; }
      outcome := FinishTask(task, Blocked);
      recovered := outcome.Completed?;
    }

    /** The prefix from which the transaction of `work` began is the live one. */
    ghost predicate RestoredFor(work: nat)
      requires history.Sound()
      reads this`live, this`marker, this`history
    {
      && marker.None? && BeganAt(history.log, work) == Some(|history.releases|)
      && live == Some(history.Before(|history.releases|))
    }

    /** It is, exactly if nothing has committed since; and if no other transaction
        began since, exactly if this one has not committed. */
    ghost predicate RestoredUnlessCommitted(work: nat)
      requires history.Sound()
      reads this`live, this`marker, this`history
    {
      && (RestoredFor(work) <==> !CommittedSince(history.log, work))
      && (Latest(history.log) == Some(work) ==> (RestoredFor(work) <==> Commit(work) !in history.log))
    }

    lemma RestoredForIff(work: nat)
      requires Valid() && marker.None? && BeganAt(history.log, work).Some?
      ensures RestoredUnlessCommitted(work)
    {
      hide Serial;
      SinceIff(history.log, work);
      if Latest(history.log) == Some(work) {
        LatestCommitted(history.log, work);
      }
    }

    /** A task recorded as promoted has committed, and its result says so. */
    ghost predicate Booked()
      reads this`workOf, this`phases, this`results, this`history
    {
      forall t <- phases :: phases[t] == Promoted ==>
        t in workOf && Commit(workOf[t]) in history.log && Reported(workOf[t])
    }

    /** run_promotion. The helper may die while the manager survives; the task
        is then blocked as after any failure. */
    method RunPromotion(task: nat, release: Candidate, quiet: bool)
      returns (outcome: Outcome, ghost applied: Option<Outcome>, ghost recovery: Option<Outcome>)
      requires Valid() && Filed() && Booked() && task in workOf
      modifies this`step, this`live, this`bridgeActive, this`marker, this`works, this`results, this`history,
               this`phases, this`pending
      ensures Valid() && Filed() && Booked() && Grown(old(history), history)
      ensures old(workOf[task] in works) ==> history == old(history)
      ensures if history == old(history) then live == old(live) else Latest(history.log) == Some(workOf[task])
      ensures phases[task] == Promoted && old(phases[task]) != Promoted ==>
                |history.releases| == |old(history).releases| + 1 && Reported(workOf[task])
      ensures phases[task] == Blocked && old(phases[task]) != Blocked ==>
                && (applied == Some(Raised) || applied == Some(Crashed))
                && (marker.None? && BeganAt(history.log, workOf[task]).Some? ==> RestoredUnlessCommitted(workOf[task]))
      ensures old(marker).None? && applied == Some(Raised) ==>
                RaisedEnd(old(history), old(live), workOf[task], release, recovery)
      ensures quiet && old(Quiet(4))
              && ResultFailsAt(old(live), old(marker), old(bridgeActive), workOf[task], release, old(works),
                               old(step) + 4) ==>
                phases[task] == Blocked && KeptUnreported(old(history), workOf[task], release)
      ensures quiet && old(Quiet(4))
              && RecoveryFailsAt(old(live), old(marker), old(bridgeActive), workOf[task], old(works), old(step) + 4) ==>
                phases[task] == Blocked && marker.Some? && live == release.installed
      ensures quiet && old(Quiet(4))
              && CommitStopsAt(old(live), old(marker), old(bridgeActive), workOf[task], release, old(works),
                               old(step) + 4) ==>
                && outcome.Crashed? && phases[task] == Running && pending == Some(task) && workOf[task] in works
                && KeptUnreported(old(history), workOf[task], release) && step == old(step) + 17
      ensures quiet && old(marker).None? && old(workOf[task] in works) && old(Quiet(8)) ==>
                phases[task] == Blocked && marker.None? && history == old(history) && results == old(results)
    {
      hide Valid, Booked, RaisedEnd, KeptUnreported, Separate, Reported, ResultFailsAt, RecoveryFailsAt, CommitStopsAt,
        RestoredUnlessCommitted, BeganAt, Latest, CommittedSince;
      applied, recovery := None, None;
      if !quiet {  // disabled, or recent activity
        outcome := SaveTask(task, WaitingIdle);
        return;
      }
      outcome := Hazard();  // promotion_paths
      if !outcome.Completed? { return; }
      outcome := SaveTask(task, Running);
      if !outcome.Completed? { return; }
      outcome, applied, recovery := ApplyTask(task, release);
      if marker.None? && BeganAt(history.log, workOf[task]).Some? {
        RestoredForIff(workOf[task]);
      }
    }

    ghost predicate ResultFailsAt(was: Option<Prefix>, m: Option<Marker>, active: bool, work: nat, release: Candidate,
                                  dirs: map<nat, WorkDir>, first: nat)
    {
      && ResultFails(was, m, active, work, release, dirs, first)
      && fate(first + 13).Completed? && fate(first + 14).Completed?
    }

    ghost predicate RecoveryFailsAt(was: Option<Prefix>, m: Option<Marker>, active: bool, work: nat,
                                    dirs: map<nat, WorkDir>, first: nat)
    {
      RecoveryFails(was, m, active, work, dirs, first) && fate(first + 11).Completed? && fate(first + 12).Completed?
    }

    ghost predicate CommitStopsAt(was: Option<Prefix>, m: Option<Marker>, active: bool, work: nat, release: Candidate,
                                  dirs: map<nat, WorkDir>, first: nat)
    {
      CommitStops(was, m, active, work, release, dirs, first) && fate(first + 12).Crashed?
    }

    /** The helper's part of run_promotion, and what the manager makes of it. A
        helper that does not get to its exit counts as failed, whatever it did. */
    method ApplyTask(task: nat, release: Candidate)
      returns (outcome: Outcome, ghost applied: Option<Outcome>, ghost recovery: Option<Outcome>)
      requires Valid() && Filed() && Booked() && task in workOf && phases[task] == Running
      modifies this`step, this`live, this`bridgeActive, this`marker, this`works, this`results, this`history,
               this`phases, this`pending
      ensures Valid() && Filed() && Booked() && Grown(old(history), history)
      ensures old(workOf[task] in works) ==> history == old(history)
      ensures if history == old(history) then live == old(live) else Latest(history.log) == Some(workOf[task])
      ensures phases[task] == Promoted ==> |history.releases| == |old(history).releases| + 1 && Reported(workOf[task])
      ensures phases[task] == Blocked ==> applied == Some(Raised) || applied == Some(Crashed)
      ensures old(marker).None? && applied == Some(Raised) ==>
                RaisedEnd(old(history), old(live), workOf[task], release, recovery)
      ensures ResultFailsAt(old(live), old(marker), old(bridgeActive), workOf[task], release, old(works), old(step)) ==>
                phases[task] == Blocked && KeptUnreported(old(history), workOf[task], release)
      ensures RecoveryFailsAt(old(live), old(marker), old(bridgeActive), workOf[task], old(works), old(step)) ==>
                phases[task] == Blocked && marker.Some? && live == release.installed
      ensures CommitStopsAt(old(live), old(marker), old(bridgeActive), workOf[task], release, old(works), old(step)) ==>
                && outcome.Crashed? && phases == old(phases) && pending == old(pending) && workOf[task] in works
                && KeptUnreported(old(history), workOf[task], release) && step == old(step) + 13
      ensures old(marker).None? && old(workOf[task] in works) && old(Quiet(4)) ==>
                phases[task] == Blocked && marker.None? && history == old(history) && results == old(results)
    {
      hide Valid, Filed, Booked, RaisedEnd, ResultFails, RecoveryFails, CommitStops, KeptUnreported, Reported,
        Remembers, BeganAt, Latest, History.Sound;
      FiledTask(task);
      var result;
      result, recovery := Apply(workOf[task], release);
      StillBooked();
      outcome, result := BookResult(task, result);
      applied := Some(result);
    }

    /** The exit of the helper, if it gets that far, and the record of the task. */
    method BookResult(task: nat, result: Outcome) returns (outcome: Outcome, status: Outcome)
      requires Filed() && Booked() && task in workOf
      requires result.Completed? ==> Commit(workOf[task]) in history.log && Reported(workOf[task])
      modifies this`step, this`phases, this`pending
      ensures Filed() && Booked() && status == if fate(old(step)).Completed? then result else Crashed
      ensures var recorded := old(phases)[task := if status.Completed? then Promoted else Blocked];
              && (phases == old(phases) || phases == recorded)
              && (fate(old(step) + 1).Completed? && fate(old(step) + 2).Completed? ==> phases == recorded)
      ensures fate(old(step) + 1).Crashed? ==>
                outcome.Crashed? && phases == old(phases) && pending == old(pending) && step == old(step) + 2
    {
      var exited := Hazard();
      status := if exited.Completed? then result else Crashed;
      outcome := Hazard();
      if !outcome.Completed? { return; }
      outcome := FinishTask(task, if status.Completed? then Promoted else Blocked);
    }

    /** What was booked before the log and the results have grown still is. */
    twostate lemma StillBooked()
      requires old(Booked()) && workOf == old(workOf) && phases == old(phases)
      requires old(history).log <= history.log && Remembers(old(results), results)
      ensures Booked()
    {
    }

    lemma FiledTask(task: nat)
      requires Filed() && task in workOf
      ensures task in phases
    {
    }

    /** save_task: the record, then the pending copy. */
    method SaveTask(task: nat, phase: Phase) returns (outcome: Outcome)
      requires Filed() && Booked() && task in workOf && phase != Promoted
      modifies this`step, this`phases, this`pending
      ensures Filed() && Booked()
      ensures phases == old(phases) || phases == old(phases)[task := phase]
      ensures pending == old(pending) || (phases == old(phases)[task := phase] && pending == Some(task))
      ensures outcome.Completed? ==> phases == old(phases)[task := phase] && pending == Some(task)
      ensures old(Quiet(3)) ==> outcome.Completed? && step == old(step) + 3
    {
      outcome := Hazard();
      if !outcome.Completed? { return; }
      phases := phases[task := phase];
      outcome := Hazard();
      if !outcome.Completed? { return; }
      pending := Some(task);
      outcome := Hazard();
    }

    /** The end of a task: its record, then the pending file goes. */
    method FinishTask(task: nat, phase: Phase) returns (outcome: Outcome)
      requires Filed() && Booked() && task in workOf
      requires phase == Promoted ==> Commit(workOf[task]) in history.log && Reported(workOf[task])
      modifies this`step, this`phases, this`pending
      ensures Filed() && Booked()
      ensures phases == old(phases) || phases == old(phases)[task := phase]
      ensures pending == old(pending)
              || (phases == old(phases)[task := phase] && old(pending) == Some(task) && pending.None?)
      ensures outcome.Completed? ==> phases == old(phases)[task := phase] && pending != Some(task)
      ensures fate(old(step)).Completed? ==> phases == old(phases)[task := phase]
    {
      outcome := Hazard();
      if !outcome.Completed? { return; }
      phases := phases[task := phase];
      outcome := Hazard();
      if !outcome.Completed? { return; }
      if pending == Some(task) {
        pending := None;
      }
    }

    /** monitor. */
    method Monitor(release: Candidate, quiet: bool) returns (outcome: Outcome)
      requires Valid() && Filed() && Booked()
      modifies this`step, this`live, this`bridgeActive, this`marker, this`works, this`results, this`history,
               this`phases, this`pending
      ensures Valid() && Filed() && Booked() && Grown(old(history), history)
      ensures old(marker).Some? ==> OnlyRollsBack(old(marker), old(history), history)
    {
      var recovered;
      outcome, recovered := RecoverInterrupted();
      if !outcome.Completed? || recovered { return; }
      if pending.Some? && pending.value in workOf {
        ghost var applied, recovery;
        outcome, applied, recovery := RunPromotion(pending.value, release, quiet);
      }
    }

    /** queue_promotion: a finished task is left alone, a new one gets a
        directory of its own, and another pending task is not displaced. */
    method QueuePromotion(task: nat) returns (outcome: Outcome)
      requires Filed() && Booked()
      modifies this`step, this`workOf, this`phases, this`pending, this`nextWork
      ensures Filed() && Booked() && nextWork >= old(nextWork)
      ensures workOf == old(workOf) || (task !in old(workOf) && workOf == old(workOf)[task := old(nextWork)])
      ensures workOf == old(workOf) ==> nextWork == old(nextWork)
      ensures workOf == old(workOf) && task !in workOf ==> phases == old(phases) && !outcome.Completed?
      ensures task in old(phases) && old(phases)[task] in {Promoted, Blocked} ==>
                phases == old(phases) && pending == old(pending)
      ensures pending == old(pending) || (old(pending).None? && pending == Some(task) && task in workOf)
      ensures task !in old(workOf) && old(pending).None? && old(Quiet(2)) ==>
                && workOf == old(workOf)[task := old(nextWork)] && pending == Some(task)
                && phases[task] == Queued && step == old(step) + 2
    {
      hide Separate, Reported, History.Sound;
      outcome := Hazard();  // the checkout
      if !outcome.Completed? { return; }
      if task in phases && (phases[task] == Promoted || phases[task] == Blocked) {
        return;
      }
      if task !in workOf {
        SeparateLemma(workOf, nextWork, task);
        workOf, nextWork := workOf[task := nextWork], nextWork + 1;
      }
      phases := phases[task := if pending.Some? && pending.value != task then Deferred else Queued];
      if phases[task].Deferred? { return; }
      outcome := Hazard();
      if !outcome.Completed? { return; }
      pending := Some(task);
    }

    /** promote_now: like monitor, and with nothing pending it may retire the
        directory of a blocked task and queue the release again in a fresh one. */
    method PromoteNow(blocked: nat, release: Candidate, quiet: bool) returns (outcome: Outcome)
      requires Valid() && Filed() && Booked()
      modifies this
      ensures Valid() && Filed() && Booked() && Grown(old(history), history)
      ensures old(marker).Some? ==> OnlyRollsBack(old(marker), old(history), history)
    {
      var recovered;
      outcome, recovered := RecoverInterrupted();
      if !outcome.Completed? || recovered { return; }
      if pending.None? {
        outcome := Requeue(blocked);
        if !outcome.Completed? { return; }
      }
      if pending.Some? && pending.value in workOf {
        ghost var applied, recovery;
        outcome, applied, recovery := RunPromotion(pending.value, release, quiet);
      }
    }

    /** Moves the blocked task aside, with its work directory, and checks for a
        release again; a check that raises moves it back unless a new directory
        has taken its place. */
    method Requeue(task: nat) returns (outcome: Outcome)
      requires Filed() && Booked() && pending.None?
      modifies this`step, this`workOf, this`phases, this`pending, this`nextWork
      ensures Filed() && Booked()
      ensures outcome.Completed? ==> pending == Some(task) && task in workOf && workOf[task] == old(nextWork)
      ensures outcome.Raised? ==>
                || (workOf == old(workOf) && phases == old(phases))
                || (task in workOf && workOf == old(workOf)[task := old(nextWork)])
    {
      hide Separate, Reported, History.Sound;
      if task !in workOf || phases[task] != Blocked {
        return Raised;
      }
      outcome := Hazard();  // the tooling must have changed
      if !outcome.Completed? { return; }
      var work := workOf[task];
      SeparateLemma(workOf, nextWork, task);
      PutBack(phases, task);
      workOf, phases := workOf - {task}, phases - {task};
      outcome := Hazard();
      if outcome.Crashed? { return; }
      if outcome.Completed? {
        outcome := QueuePromotion(task);
      }
      if outcome.Raised? && task !in workOf {
        workOf, phases := workOf[task := work], phases[task := Blocked];
      }
      if outcome.Completed? && pending.None? {
        outcome := Raised;
      }
    }

    method Execute(command: Command) returns (outcome: Outcome)
      requires Valid() && Filed() && Booked()
      modifies this
      ensures Valid() && Filed() && Booked() && Grown(old(history), history)
    {
      hide Valid, Filed, Booked, Reported, Remembers, RaisedEnd, KeptUnreported, ResultFails, RecoveryFails,
        CommitStops;
      ghost var recovery;
      match command
      case RunMonitor(release, quiet) => outcome := Monitor(release, quiet);
      case RunPromoteNow(task, release, quiet) => outcome := PromoteNow(task, release, quiet);
      case RunQueue(task) => outcome := QueuePromotion(task);
      case RunApply(work, release) =>
        outcome, recovery := Apply(work, release);
        StillBooked();
      case RunRecover(work) =>
        outcome := Recover(work);
        StillBooked();
    }

    /** Any number of commands, with crashes anywhere. */
    method ExecuteAll(commands: seq<Command>)
      requires Valid() && Filed() && Booked()
      modifies this
      ensures Valid() && Filed() && Booked() && Grown(old(history), history)
    {
      for i := 0 to |commands|
        invariant Valid() && Filed() && Booked() && Grown(old(history), history)
      {
        ghost var before := history;
        var outcome := Execute(commands[i]);
        GrownTransitive(old(history), before, history);
      }
    }

    /** After any run the log is serial, and when no transaction is open the live
        prefix is the last accepted release, or the first prefix if there is
        none, with its logins. A task recorded as promoted has committed. Of a
        task recorded as blocked whose transaction began, what the manager said
        holds exactly if nothing has committed since it began. */
    method AnyRun(commands: seq<Command>)
      requires Valid() && Filed() && Booked()
      modifies this
      ensures Valid() && Filed() && Booked() && Grown(old(history), history)
      ensures marker.None? ==> live == Some(history.Current())
      ensures history.InstalledOnce() && history.CurrentAccepted()
      ensures marker.None? ==>
                forall t <- phases :: phases[t] == Blocked && BeganAt(history.log, workOf[t]).Some? ==>
                  RestoredUnlessCommitted(workOf[t])
    {
      ExecuteAll(commands);
      history.SoundFacts();
      if marker.None? {
        forall t <- phases | phases[t] == Blocked && BeganAt(history.log, workOf[t]).Some?
          ensures RestoredUnlessCommitted(workOf[t])
        {
          RestoredForIff(workOf[t]);
        }
      }
    }
  }

  predicate Separate(workOf: map<nat, nat>, next: nat) {
    && (forall t <- workOf :: workOf[t] < next)
    && (forall s, t :: s in workOf && t in workOf && workOf[s] == workOf[t] ==> s == t)
  }

  /** A fresh directory keeps them apart, and so does putting one aside and back. */
  lemma SeparateLemma(workOf: map<nat, nat>, next: nat, task: nat)
    requires Separate(workOf, next)
    ensures task !in workOf ==> Separate(workOf[task := next], next + 1)
    ensures Separate(workOf - {task}, next)
    ensures task in workOf ==> (workOf - {task})[task := workOf[task]] == workOf
  {
  }

  /** What was reported as promoted stays so. */
  predicate Remembers(before: map<nat, bool>, after: map<nat, bool>) {
    forall w <- before :: before[w] ==> w in after && after[w]
  }

  predicate SameTransaction(before: seq<Entry>, after: seq<Entry>, w: nat) {
    Latest(after) == Latest(before) && BeganAt(after, w) == BeganAt(before, w)
  }

  lemma PutBack<V>(m: map<nat, V>, key: nat)
    requires key in m
    ensures (m - {key})[key := m[key]] == m
  {
  }

  /** The release the installer leaves behind would pass every check. */
  predicate Acceptable(previous: Prefix, work: nat, release: Candidate) {
    release.installed.Some? && Accepted(previous, Release(work, release.installed.value, release.manifest))
  }

  lemma AcceptableIsUsable()
    ensures forall previous, work, release :: Acceptable(previous, work, release) ==> Usable(previous.login)
  {
  }

  function Committed(h: History, r: Release): History {
    History(h.origin, h.releases + [r], h.log + [Commit(r.work)])
  }

  /** What was accepted stays accepted and what happened stays on the log. */
  predicate Grown(before: History, after: History) {
    after.origin == before.origin && before.releases <= after.releases && before.log <= after.log
  }

  lemma GrownTransitive(a: History, b: History, c: History)
    requires Grown(a, b) && Grown(b, c)
    ensures Grown(a, c)
  {
  }

  /** With a marker present nothing new begins: the open transaction may be
      rolled back, and that is all. */
  predicate OnlyRollsBack(marker: Option<Marker>, before: History, after: History) {
    after == before || (marker.Some? && after == before.(log := before.log + [Rollback(marker.value.work)]))
  }

  // ----- Reports that are wrong -----

  /** Writing the result file fails after the marker is gone: the new release
      stays live, and the manager records the task as blocked, which it reports
      as a restored prefix. */
  method ResultLost(prefix: Prefix, release: Candidate) returns (host: Host)
    requires Acceptable(prefix, 0, release)
    ensures host.Valid() && 0 in host.phases && host.phases[0] == Blocked
    ensures host.KeptUnreported(History(prefix, [], []), 0, release)
  {
    hide Acceptable, Accepted, Host.Valid, Host.KeptUnreported, Host.RaisedEnd, Grown;
    host := new Host(prefix, n => if n == 16 then Raised else Completed);
    var outcome := host.QueuePromotion(0);
    ghost var applied, recovery;
    outcome, applied, recovery := host.RunPromotion(0, release, true);
  }

  /** The installer fails and then the recovery does: whatever the installer made
      is live under a standing marker, and the manager reports the same. */
  method RecoveryLost(prefix: Prefix, release: Candidate) returns (host: Host)
    requires Usable(prefix.login)
    ensures host.Valid() && 0 in host.phases && host.phases[0] == Blocked
    ensures host.live == release.installed && host.marker.Some?
  {
    hide Acceptable, Usable, Host.Valid, Host.KeptUnreported, Host.RaisedEnd, Grown;
    host := new Host(prefix, n => if n == 13 || n == 14 then Raised else Completed);
    var outcome := host.QueuePromotion(0);
    ghost var applied, recovery;
    outcome, applied, recovery := host.RunPromotion(0, release, true);
  }

  /** The machine stops between the commit and the record: at the next start no
      marker is found, the helper refuses the task because its work directory is
      there, and the task is recorded as blocked with the new release live. */
  method CommitForgotten(prefix: Prefix, release: Candidate) returns (host: Host)
    requires Acceptable(prefix, 0, release)
    ensures host.Valid() && 0 in host.phases && host.phases[0] == Blocked
    ensures host.KeptUnreported(History(prefix, [], []), 0, release) && !host.RestoredFor(0)
  {
    hide Acceptable, Host.Valid, Host.Filed, Host.Booked, Host.RaisedEnd, Host.RestoredFor, Host.ResultFailsAt,
      Host.RecoveryFailsAt, Host.CommitStopsAt, Grown, BeganAt, Latest, CommittedSince;
    host := StopAfterCommit(prefix, release);
    var outcome, recovered := host.RecoverInterrupted();
    ghost var applied, recovery;
    outcome, applied, recovery := host.RunPromotion(0, release, true);
    host.FiledTask(0);
    NotRestored(host, prefix, release);
  }

  method StopAfterCommit(prefix: Prefix, release: Candidate) returns (host: Host)
    requires Acceptable(prefix, 0, release)
    ensures host.Valid() && host.Filed() && host.Booked() && fresh(host)
    ensures host.KeptUnreported(History(prefix, [], []), 0, release)
    ensures 0 in host.workOf && host.workOf[0] == 0 && 0 in host.works && 0 in host.phases && host.Quiet(8)
  {
    hide Acceptable, Accepted, Host.Valid, Host.Booked, Host.KeptUnreported, Host.RaisedEnd, Host.RestoredFor, Grown,
      BeganAt, Latest, CommittedSince, Host.ResultFails, Host.RecoveryFails;
    host := new Host(prefix, n => if n == 16 || n == 18 then Crashed else Completed);
    var outcome := host.QueuePromotion(0);
    ghost var applied, recovery;
    outcome, applied, recovery := host.RunPromotion(0, release, true);
  }

  lemma NotRestored(host: Host, prefix: Prefix, release: Candidate)
    requires host.Valid() && host.KeptUnreported(History(prefix, [], []), 0, release)
    ensures !host.RestoredFor(0)
  {
    hide Serial;
    assert host.history.releases[0].work == 0;
    CommitIsNumbered(host.history.log, 0);
  }
}
