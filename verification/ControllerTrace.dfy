/** Pairing of the presses seen by the viewer with those that reached the
    private display: a greedy algorithm, and when it finds all pairs there are. */
module ControllerTrace {
  import opened Basics

  /** One recorded press; keys carry no button, and a button may be unknown. */
  datatype InputEvent = InputEvent(observedMs: int, button: Option<int>)

  predicate Sorted(events: seq<InputEvent>) {
    forall i, j :: 0 <= i < j < |events| ==> events[i].observedMs <= events[j].observedMs
  }

  predicate Compatible(e: InputEvent, c: InputEvent, window: int) {
    e.observedMs - 100 <= c.observedMs <= e.observedMs + window && (e.button.Some? ==> c.button == e.button)
  }

  predicate Fits(first: seq<InputEvent>, second: seq<InputEvent>, window: int, i: nat, c: nat) {
    i < |first| && c < |second| && Compatible(first[i], second[c], window)
  }

  predicate Injective(m: map<nat, nat>) {
    forall i, j :: i in m && j in m && m[i] == m[j] ==> i == j
  }

  /** Pairs of positions, each position of either list in at most one of them. */
  predicate Matching(first: seq<InputEvent>, second: seq<InputEvent>, window: int, m: map<nat, nat>) {
    Injective(m) && forall i <- m :: Fits(first, second, window, i, m[i])
  }

  /** Pairing i with a position nobody else holds. */
  lemma Pair(first: seq<InputEvent>, second: seq<InputEvent>, window: int, m: map<nat, nat>, i: nat, c: nat)
    requires Matching(first, second, window, m) && Fits(first, second, window, i, c)
    requires forall k <- m :: k != i ==> m[k] != c
    ensures Matching(first, second, window, m[i := c])
    ensures |m[i := c]| == if i in m then |m| else |m| + 1
  {
    if i in m {
      assert m[i := c].Keys == m.Keys && |m[i := c]| == |m[i := c].Keys| && |m| == |m.Keys|;
    }
  }

  lemma Unpair(first: seq<InputEvent>, second: seq<InputEvent>, window: int, m: map<nat, nat>, j: nat)
    requires Matching(first, second, window, m) && j in m
    ensures Matching(first, second, window, m - {j}) && |m - {j}| == |m| - 1
  {
    assert (m - {j})[j := m[j]] == m;
  }

  // ----- The greedy choice -----

  /** The first position from `c` on that is unused and compatible. */
  function Least(second: seq<InputEvent>, used: set<nat>, e: InputEvent, window: int, c: nat): (r: Option<nat>)
    ensures r.Some? ==> c <= r.value < |second| && r.value !in used && Compatible(e, second[r.value], window)
    ensures forall d :: c <= d < |second| && d !in used && Compatible(e, second[d], window) ==> r.Some? && r.value <= d
    decreases |second| - c
  {
    if c >= |second| then None
    else if c !in used && Compatible(e, second[c], window) then Some(c)
    else Least(second, used, e, window, c + 1)
  }

  function Extended(second: seq<InputEvent>, window: int, g: map<nat, nat>, n: nat, e: InputEvent): map<nat, nat> {
    match Least(second, g.Values, e, window, 0)
    case None => g
    case Some(c) => g[n := c]
  }

  /** What the greedy algorithm has paired after the first n events. */
  function Greedy(first: seq<InputEvent>, second: seq<InputEvent>, window: int, n: nat): map<nat, nat>
    requires n <= |first|
  {
    if n == 0 then map[]
    else Extended(second, window, Greedy(first, second, window, n - 1), n - 1, first[n - 1])
  }

  lemma {:induction false} GreedyIsMatching(first: seq<InputEvent>, second: seq<InputEvent>, window: int, n: nat)
    requires n <= |first|
    ensures Matching(first, second, window, Greedy(first, second, window, n))
    ensures forall i <- Greedy(first, second, window, n) :: i < n
  {
    if n > 0 {
      GreedyIsMatching(first, second, window, n - 1);
    }
  }

  lemma {:induction false} GreedyKeys(first: seq<InputEvent>, second: seq<InputEvent>, window: int, n: nat)
    requires n <= |first|
    ensures forall i <- Greedy(first, second, window, n) :: i < n
  {
    GreedyIsMatching(first, second, window, n);
  }

  /** Later choices do not change earlier ones. */
  lemma {:induction false} GreedyGrows(first: seq<InputEvent>, second: seq<InputEvent>, window: int, k: nat, n: nat)
    requires k <= n <= |first|
    ensures forall i: nat :: i < k ==>
              (i in Greedy(first, second, window, k) <==> i in Greedy(first, second, window, n))
              && (i in Greedy(first, second, window, k) ==>
                    Greedy(first, second, window, n)[i] == Greedy(first, second, window, k)[i])
  {
    if k < n {
      GreedyGrows(first, second, window, k, n - 1);
    }
  }

  // ----- Exchange argument -----

  /** An event without a button, and a later one with a button that can see the
      same candidate, may contend for it. */
  predicate NoContention(first: seq<InputEvent>, window: int) {
    forall i, j :: 0 <= i < j < |first| && first[i].button.None? && first[j].button.Some? ==>
      first[i].observedMs + window < first[j].observedMs - 100
  }

  predicate Agrees(m: map<nat, nat>, g: map<nat, nat>, n: nat) {
    forall i: nat :: i < n ==> (i in m <==> i in g) && (i in m ==> m[i] == g[i])
  }

  lemma Untaken(m: map<nat, nat>, g: map<nat, nat>, n: nat)
    requires Injective(m) && Agrees(m, g, n) && n in m && forall k <- g :: k < n
    ensures m[n] !in g.Values
  {
  }

  /** If c is the first free candidate of event i, some matching that is not
      smaller pairs i with c and is the same before i. */
  lemma Exchange(first: seq<InputEvent>, second: seq<InputEvent>, window: int, i: nat, c: nat, m: map<nat, nat>)
    returns (m': map<nat, nat>)
    requires Sorted(first) && Sorted(second) && NoContention(first, window) && Matching(first, second, window, m)
    requires Fits(first, second, window, i, c)
    requires forall k :: k in m && k < i ==> m[k] != c
    requires i in m ==> c <= m[i]
    ensures Matching(first, second, window, m') && |m'| >= |m| && i in m' && m'[i] == c && Agrees(m', m, i)
  {
    if j :| j in m && m[j] == c {
      assert Fits(first, second, window, j, c);
      Unpair(first, second, window, m, j);
      Pair(first, second, window, m - {j}, i, c);
      m' := (m - {j})[i := c];
      if i in m && i != j {
        assert Fits(first, second, window, i, m[i]) && Fits(first, second, window, j, m[i]);
        Pair(first, second, window, m', j, m[i]);
        m' := m'[j := m[i]];
      }
    } else {
      Pair(first, second, window, m, i, c);
      m' := m[i := c];
    }
  }

  lemma AgreesNext(m: map<nat, nat>, previous: map<nat, nat>, g: map<nat, nat>, n: nat, c: nat)
    requires Agrees(previous, g, n) && Agrees(m, previous, n) && n in m && m[n] == c
    ensures Agrees(m, g[n := c], n + 1)
  {
  }

  lemma FollowChoice(first: seq<InputEvent>, second: seq<InputEvent>, window: int, n: nat, g: map<nat, nat>,
                     m: map<nat, nat>)
    returns (m': map<nat, nat>)
    requires Sorted(first) && Sorted(second) && NoContention(first, window) && Matching(first, second, window, m)
    requires n < |first| && Agrees(m, g, n) && forall k <- g :: k < n
    ensures Matching(first, second, window, m') && |m'| >= |m|
    ensures Agrees(m', Extended(second, window, g, n, first[n]), n + 1)
  {
    if n in m {
      Untaken(m, g, n);
      assert Fits(first, second, window, n, m[n]);
    }
    match Least(second, g.Values, first[n], window, 0)
    case None =>
      m' := m;
    case Some(c) =>
      assert forall k <- m :: k < n ==> m[k] in g.Values;
      m' := Exchange(first, second, window, n, c, m);
      AgreesNext(m', m, g, n, c);
  }

  /** Any matching can be turned, without losing pairs, into one that agrees with
      the greedy choices for the first n events. */
  lemma FollowGreedy(first: seq<InputEvent>, second: seq<InputEvent>, window: int, n: nat, m: map<nat, nat>)
    returns (m': map<nat, nat>)
    requires Sorted(first) && Sorted(second) && NoContention(first, window) && Matching(first, second, window, m)
    requires n <= |first|
    ensures Matching(first, second, window, m') && |m'| >= |m| && Agrees(m', Greedy(first, second, window, n), n)
  {
    m' := m;
    for k := 0 to n
      invariant Matching(first, second, window, m') && |m'| >= |m| && Agrees(m', Greedy(first, second, window, k), k)
    {
      GreedyKeys(first, second, window, k);
      m' := FollowChoice(first, second, window, k, Greedy(first, second, window, k), m');
    }
  }

  ghost predicate Largest(first: seq<InputEvent>, second: seq<InputEvent>, window: int, pairs: nat) {
    forall m: map<nat, nat> :: Matching(first, second, window, m) ==> |m| <= pairs
  }

  ghost predicate Reached(first: seq<InputEvent>, second: seq<InputEvent>, window: int, pairs: nat) {
    exists m: map<nat, nat> :: Matching(first, second, window, m) && |m| == pairs
  }

  lemma GreedyIsLargest(first: seq<InputEvent>, second: seq<InputEvent>, window: int)
    requires Sorted(first) && Sorted(second) && NoContention(first, window)
    ensures Largest(first, second, window, |Greedy(first, second, window, |first|)|)
  {
    var g := Greedy(first, second, window, |first|);
    GreedyIsMatching(first, second, window, |first|);
    forall m: map<nat, nat> | Matching(first, second, window, m) ensures |m| <= |g| {
      var m' := FollowGreedy(first, second, window, |first|, m);
      assert m' == g;
    }
  }

  // ----- The condition cannot be dropped -----

  function Above(first: seq<InputEvent>): (b: int)
    ensures forall e <- first :: e.button.Some? ==> e.button.value < b
  {
    if first == [] then 0
    else
      var b, last := Above(first[..|first| - 1]), first[|first| - 1];
      assert first == first[..|first| - 1] + [last];
      if last.button.Some? && last.button.value >= b then last.button.value + 1 else b
  }

  /** How many of the first n events can be paired with a press `c`. */
  function Takers(first: seq<InputEvent>, c: InputEvent, window: int, n: nat): nat
    requires n <= |first|
  {
    if n == 0 then 0 else Takers(first, c, window, n - 1) + (if Compatible(first[n - 1], c, window) then 1 else 0)
  }

  lemma {:induction false} TakersGrow(first: seq<InputEvent>, c: InputEvent, window: int, k: nat, n: nat)
    requires k <= n <= |first|
    ensures Takers(first, c, window, k) <= Takers(first, c, window, n)
  {
    if k < n {
      TakersGrow(first, c, window, k, n - 1);
    }
  }

  /** For event j: as many presses `c` as the events before j take, then presses
      `other` that no button of the list fits. */
  function Trap(first: seq<InputEvent>, window: int, j: nat, c: InputEvent, other: InputEvent): seq<InputEvent>
    requires j < |first|
  {
    seq(Takers(first, c, window, j), _ => c) + seq(|first| - j + 1, _ => other)
  }

  predicate Trapped(first: seq<InputEvent>, window: int, j: nat, c: InputEvent, other: InputEvent) {
    && j < |first| && first[j].button.Some? && c.button == first[j].button
    && other == InputEvent(c.observedMs, Some(Above(first)))
  }

  lemma ValuesOfUpdate(m: map<nat, nat>, k: nat, v: nat)
    requires k !in m
    ensures m[k := v].Values == m.Values + {v}
  {
    var u := m[k := v];
    assert forall i <- m :: u[i] == m[i];
    assert u[k] == v;
  }

  /** Before j the presses `c` are taken from left to right. */
  lemma {:induction false} TrapBefore(first: seq<InputEvent>, window: int, j: nat, c: InputEvent, other: InputEvent,
                                      n: nat)
    requires Trapped(first, window, j, c, other) && n <= j
    ensures forall d: nat ::
              d in Greedy(first, Trap(first, window, j, c, other), window, n).Values
              <==> d < Takers(first, c, window, n)
    ensures forall i: nat :: i < n && Compatible(first[i], c, window) ==>
              i in Greedy(first, Trap(first, window, j, c, other), window, n)
    decreases n
  {
    if n > 0 {
      TrapBefore(first, window, j, c, other, n - 1);
      TakersGrow(first, c, window, n, j);
      var second, e := Trap(first, window, j, c, other), first[n - 1];
      var g := Greedy(first, second, window, n - 1);
      var t := Takers(first, c, window, n - 1);
      GreedyKeys(first, second, window, n - 1);
      if Compatible(e, c, window) {
        assert second[t] == c;
        assert Least(second, g.Values, e, window, 0) == Some(t);
        ValuesOfUpdate(g, n - 1, t);
      } else {
        assert forall d :: 0 <= d < |second| ==> second[d] == c || second[d] == other;
        assert !Compatible(e, other, window);
      }
    }
  }

  /** From j on nobody gets a press `c`, and never more than one further `other`
      is taken at a time. */
  lemma {:induction false} TrapAfter(first: seq<InputEvent>, window: int, j: nat, c: InputEvent, other: InputEvent,
                                     n: nat)
    requires Trapped(first, window, j, c, other) && j < n <= |first|
    ensures j !in Greedy(first, Trap(first, window, j, c, other), window, n)
    ensures forall d <- Greedy(first, Trap(first, window, j, c, other), window, n).Values ::
              d < Takers(first, c, window, j) + n - j - 1
    ensures forall d: nat :: d < Takers(first, c, window, j) ==>
              d in Greedy(first, Trap(first, window, j, c, other), window, n).Values
    decreases n
  {
    var second, e := Trap(first, window, j, c, other), first[n - 1];
    var g, t := Greedy(first, second, window, n - 1), Takers(first, c, window, j);
    GreedyKeys(first, second, window, n - 1);
    if n == j + 1 {
      TrapBefore(first, window, j, c, other, j);
      assert !Compatible(e, other, window);
      assert Least(second, g.Values, e, window, 0).None?;
    } else {
      TrapAfter(first, window, j, c, other, n - 1);
      var free := t + n - 1 - j - 1;
      assert second[free] == other;
      match Least(second, g.Values, e, window, 0)
      case None =>
      case Some(d) =>
        assert second[d] == other;
        ValuesOfUpdate(g, n - 1, d);
    }
  }

  /** Moving i to a free position lets j have the one that i held. */
  lemma Augment(first: seq<InputEvent>, second: seq<InputEvent>, window: int, g: map<nat, nat>, i: nat, j: nat,
                free: nat)
    requires Matching(first, second, window, g) && i in g && j !in g && free !in g.Values
    requires Fits(first, second, window, i, free) && Fits(first, second, window, j, g[i])
    ensures Matching(first, second, window, g[i := free][j := g[i]]) && |g[i := free][j := g[i]]| == |g| + 1
  {
    Pair(first, second, window, g, i, free);
    Pair(first, second, window, g[i := free], j, g[i]);
  }

  /** Where an event without a button contends with a later one, some second list
      defeats the greedy choice. */
  lemma {:induction false} TrapSprings(first: seq<InputEvent>, window: int, i: nat, j: nat)
    returns (second: seq<InputEvent>, m: map<nat, nat>)
    requires Sorted(first) && i < j < |first| && first[i].button.None? && first[j].button.Some?
    requires first[j].observedMs - 100 <= first[i].observedMs + window
    ensures Sorted(second) && Matching(first, second, window, m)
    ensures |m| > |Greedy(first, second, window, |first|)|
  {
    var c := InputEvent(first[i].observedMs + window, first[j].button);
    var other := InputEvent(c.observedMs, Some(Above(first)));
    second := Trap(first, window, j, c, other);
    TrapHolds(first, window, i, j, c, other);
    m := Improve(first, second, window, i, j, Takers(first, c, window, j) + |first| - j - 1);
  }

  lemma Improve(first: seq<InputEvent>, second: seq<InputEvent>, window: int, i: nat, j: nat, free: nat)
    returns (m: map<nat, nat>)
    requires var g := Greedy(first, second, window, |first|);
             i in g && j !in g && free !in g.Values
             && Fits(first, second, window, i, free) && Fits(first, second, window, j, g[i])
    ensures Matching(first, second, window, m) && |m| > |Greedy(first, second, window, |first|)|
  {
    var g := Greedy(first, second, window, |first|);
    GreedyIsMatching(first, second, window, |first|);
    Augment(first, second, window, g, i, j, free);
    m := g[i := free][j := g[i]];
  }

  lemma TrapHolds(first: seq<InputEvent>, window: int, i: nat, j: nat, c: InputEvent, other: InputEvent)
    requires Trapped(first, window, j, c, other) && i < j && Compatible(first[i], c, window)
    ensures var second := Trap(first, window, j, c, other);
            var g := Greedy(first, second, window, |first|);
            var free := Takers(first, c, window, j) + |first| - j - 1;
            && Sorted(second)
            && i in g && g[i] < |second| && second[g[i]] == c && j !in g
            && free < |second| && second[free] == other && free !in g.Values
  {
    var second := Trap(first, window, j, c, other);
    TrapBefore(first, window, j, c, other, j);
    TrapAfter(first, window, j, c, other, |first|);
    GreedyGrows(first, second, window, j, |first|);
    var before := Greedy(first, second, window, j);
    assert before[i] in before.Values;
  }

  /** The greedy number of pairs is the largest for every second list exactly
      when no event without a button contends with a later one with a button. */
  lemma LargestIffNoContention(first: seq<InputEvent>, window: int)
    requires Sorted(first)
    ensures NoContention(first, window) <==>
            forall second: seq<InputEvent> :: Sorted(second) ==>
              Largest(first, second, window, |Greedy(first, second, window, |first|)|)
  {
    forall second: seq<InputEvent> | Sorted(second) && NoContention(first, window)
      ensures Largest(first, second, window, |Greedy(first, second, window, |first|)|)
    {
      GreedyIsLargest(first, second, window);
    }
    if i, j :| 0 <= i < j < |first| && first[i].button.None? && first[j].button.Some?
               && first[j].observedMs - 100 <= first[i].observedMs + window {
      var second, m := TrapSprings(first, window, i, j);
      assert !Largest(first, second, window, |Greedy(first, second, window, |first|)|);
    }
  }

  /** What the recorder produces for keys, and for buttons whose number is known. */
  lemma OneKindHasNoContention(first: seq<InputEvent>, window: int)
    requires (forall e <- first :: e.button.None?) || (forall e <- first :: e.button.Some?)
    ensures NoContention(first, window)
  {
  }

  // ----- greedy_pairs -----

  /** `available` holds the unused events of `second`, in order. */
  ghost predicate Remaining(second: seq<InputEvent>, used: set<nat>, available: seq<InputEvent>, at: seq<nat>) {
    && |at| == |available|
    && (forall p :: 0 <= p < |at| ==> at[p] < |second| && at[p] !in used && available[p] == second[at[p]])
    && (forall p, q :: 0 <= p < q < |at| ==> at[p] < at[q])
    && (forall d: nat :: d < |second| && d !in used ==> d in at)
  }

  /** The inner loop: the first candidate that fits, giving up at the first one
      that lies behind the window. */
  method FindCandidate(e: InputEvent, window: int, available: seq<InputEvent>,
                       ghost second: seq<InputEvent>, ghost used: set<nat>, ghost at: seq<nat>)
    returns (index: Option<nat>)
    requires Sorted(second) && Remaining(second, used, available, at)
    ensures match index
            case Some(p) => p < |available| && Least(second, used, e, window, 0) == Some(at[p])
            case None => Least(second, used, e, window, 0).None?
  {
    var p := 0;
    while p < |available|
      invariant 0 <= p <= |available|
      invariant forall q :: 0 <= q < p ==> !Compatible(e, available[q], window)
    {
      var candidate := available[p];
      if candidate.observedMs < e.observedMs - 100 {
        p := p + 1;
        continue;
      }
      if candidate.observedMs > e.observedMs + window {
        break;
      }
      if e.button.Some? && candidate.button != e.button {
        p := p + 1;
        continue;
      }
      return Some(p);
    }
    return None;
  }

  function Without<T>(s: seq<T>, p: nat): (r: seq<T>)
    requires p < |s|
    ensures |r| == |s| - 1 && forall k :: 0 <= k < |r| ==> r[k] == s[if k < p then k else k + 1]
  {
    s[..p] + s[p + 1..]
  }

  lemma Removed(second: seq<InputEvent>, used: set<nat>, available: seq<InputEvent>, at: seq<nat>, p: nat)
    requires Remaining(second, used, available, at) && p < |at|
    ensures Remaining(second, used + {at[p]}, Without(available, p), Without(at, p))
  {
    var rest := Without(at, p);
    forall d: nat | d < |second| && d !in used + {at[p]} ensures d in rest {
      var q :| 0 <= q < |at| && at[q] == d;
      assert rest[if q < p then q else q - 1] == d;
    }
  }

  method GreedyPairs(first: seq<InputEvent>, second: seq<InputEvent>, window: int) returns (paired: nat)
    requires Sorted(second)
    ensures Reached(first, second, window, paired)
    ensures Sorted(first) && NoContention(first, window) ==> Largest(first, second, window, paired)
    ensures paired == |Greedy(first, second, window, |first|)|
  {
    var available := second;
    ghost var at: seq<nat> := seq(|second|, k => k);
    paired := 0;
    assert Remaining(second, {}, available, at) by {
      forall d: nat | d < |second| ensures d in at {
        assert at[d] == d;
      }
    }
    for n := 0 to |first|
      invariant Remaining(second, Greedy(first, second, window, n).Values, available, at)
      invariant paired == |Greedy(first, second, window, n)|
    {
      ghost var g := Greedy(first, second, window, n);
      var index := FindCandidate(first[n], window, available, second, g.Values, at);
      if index.Some? {
        var p := index.value;
        GreedyKeys(first, second, window, n);
        ValuesOfUpdate(g, n, at[p]);
        Removed(second, g.Values, available, at, p);
        paired := paired + 1;
        available, at := Without(available, p), Without(at, p);
      }
    }
    GreedyIsMatching(first, second, window, |first|);
    if Sorted(first) && NoContention(first, window) {
      GreedyIsLargest(first, second, window);
    }
  }

  // ----- summarize -----

  datatype Layer = Physical | Controller

  datatype Kind = ButtonPress | KeyPress | OtherKind

  datatype Target = Viewer | Uu | Elsewhere

  /** What a collector stores; only button events carry a button. */
  datatype Recorded = Recorded(layer: Layer, kind: Kind, target: Target, event: InputEvent)

  datatype Role = OuterButton | InnerButton | OuterKey | InnerKey | LocalKey

  predicate Plays(r: Recorded, role: Role) {
    match role
    case OuterButton => r.layer == Physical && r.kind == ButtonPress && r.target == Viewer
    case InnerButton => r.layer == Controller && r.kind == ButtonPress && r.target == Uu
    case OuterKey => r.layer == Physical && r.kind == KeyPress && r.target == Viewer
    case InnerKey => r.layer == Controller && r.kind == KeyPress && r.target == Uu
    case LocalKey => r.layer == Physical && r.kind == KeyPress && r.target != Viewer
  }

  predicate SortedRecords(records: seq<Recorded>) {
    forall i, j :: 0 <= i < j < |records| ==> records[i].event.observedMs <= records[j].event.observedMs
  }

  predicate KeysHaveNoButton(records: seq<Recorded>) {
    forall r <- records :: r.kind == KeyPress ==> r.event.button.None?
  }

  function Chosen(records: seq<Recorded>, role: Role, n: nat): (events: seq<InputEvent>)
    requires n <= |records|
    ensures forall e <- events :: exists i :: 0 <= i < n && Plays(records[i], role) && records[i].event == e
  {
    if n == 0 then []
    else if Plays(records[n - 1], role) then Chosen(records, role, n - 1) + [records[n - 1].event]
    else Chosen(records, role, n - 1)
  }

  /** A part of a sorted list is sorted. */
  lemma {:induction false} ChosenIsSorted(records: seq<Recorded>, role: Role, n: nat)
    requires SortedRecords(records) && n <= |records|
    ensures Sorted(Chosen(records, role, n))
  {
    if n > 0 {
      ChosenIsSorted(records, role, n - 1);
      var events := Chosen(records, role, n - 1);
      forall i | 0 <= i < |events| ensures events[i].observedMs <= records[n - 1].event.observedMs {
        assert events[i] in events;
      }
    }
  }

  method Choose(records: seq<Recorded>, role: Role) returns (events: seq<InputEvent>)
    requires SortedRecords(records)
    ensures events == Chosen(records, role, |records|) && Sorted(events)
  {
    events := [];
    for n := 0 to |records|
      invariant events == Chosen(records, role, n)
    {
      if Plays(records[n], role) {
        events := events + [records[n].event];
      }
    }
    ChosenIsSorted(records, role, |records|);
  }

  /** The three counts of summarize: those of keys are always the largest
      possible, that of buttons whenever unknown ones do not contend. */
  method CountPairs(records: seq<Recorded>) returns (buttons: nat, keys: nat, leaks: nat)
    requires SortedRecords(records) && KeysHaveNoButton(records)
    ensures var first, second := Chosen(records, OuterKey, |records|), Chosen(records, InnerKey, |records|);
            Reached(first, second, 1200, keys) && Largest(first, second, 1200, keys)
    ensures var first, second := Chosen(records, LocalKey, |records|), Chosen(records, InnerKey, |records|);
            Reached(first, second, 500, leaks) && Largest(first, second, 500, leaks)
    ensures var first, second := Chosen(records, OuterButton, |records|), Chosen(records, InnerButton, |records|);
            Reached(first, second, 1200, buttons)
            && (NoContention(first, 1200) ==> Largest(first, second, 1200, buttons))
  {
    hide Reached, Largest, Sorted, Greedy;
    var outerButtons := Choose(records, OuterButton);
    var innerButtons := Choose(records, InnerButton);
    var outerKeys := Choose(records, OuterKey);
    var innerKeys := Choose(records, InnerKey);
    var localKeys := Choose(records, LocalKey);
    buttons := GreedyPairs(outerButtons, innerButtons, 1200);
    keys := GreedyPairs(outerKeys, innerKeys, 1200);
    leaks := GreedyPairs(localKeys, innerKeys, 500);
    OneKindHasNoContention(outerKeys, 1200);
    OneKindHasNoContention(localKeys, 500);
  }
}
