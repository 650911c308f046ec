/**
 * The `incremental` build-stage controller (build/lib/util.js, lines 19-56).
 *
 * Items arrive one at a time and are buffered by path; a single debounced
 * timer flushes the buffer into a new run of the wrapped stage; a run's
 * completion returns the controller to idle and re-arms the timer. Time is
 * abstracted away: the timer is one pending flag and its expiry is the
 * explicit event `TimerFire`.
 */
module Incremental {
  import opened Wrappers

  /** A file as the controller sees it: the path it is buffered under and opaque contents. */
  datatype Item = Item(path: string, contents: string)

  datatype RunState = Idle | Running

  /** The two token objects a stage provider can be handed. */
  datatype Token =
    | NoCancellationToken  // the shared object whose predicate is always false
    | BufferToken          // the controller's own token: "the buffer is non-empty"

  /** A started run: its input and the token the stage provider was called with (None: called with no argument). */
  datatype Run = Run(input: seq<Item>, token: Option<Token>)

  /** The buffer after storing each of `arrivals`, in order, under its path. */
  function BufferOf(arrivals: seq<Item>): map<string, Item>
  {
    if arrivals == [] then map[]
    else
      var last := arrivals[|arrivals| - 1];
      BufferOf(arrivals[..|arrivals| - 1])[last.path := last]
  }

  /** The buffer's key order (`Object.keys`): distinct paths in order of first arrival. */
  function PathOrder(arrivals: seq<Item>): seq<string>
  {
    if arrivals == [] then []
    else
      var earlier := PathOrder(arrivals[..|arrivals| - 1]);
      var p := arrivals[|arrivals| - 1].path;
      if p in earlier then earlier else earlier + [p]
  }

  /** `paths.map(path => buffer[path])`. */
  function Flush(buffer: map<string, Item>, paths: seq<string>): seq<Item>
    requires forall p :: p in paths ==> p in buffer
  {
    seq(|paths|, i requires 0 <= i < |paths| => buffer[paths[i]])
  }

  /** The input of the run a flush starts after `arrivals` were buffered. */
  function Drain(arrivals: seq<Item>): seq<Item>
  {
    OrderIsKeys(arrivals);
    Flush(BufferOf(arrivals), PathOrder(arrivals))
  }

  /** No later arrival has the same path as `arrivals[k]`. */
  ghost predicate IsLatest(arrivals: seq<Item>, k: int)
    requires 0 <= k < |arrivals|
  {
    forall j :: k < j < |arrivals| ==> arrivals[j].path != arrivals[k].path
  }

  /** The key order lists exactly the buffered paths, which are exactly the arrived paths, each once. */
  lemma PathOrderMatchesBuffer(arrivals: seq<Item>)
    ensures forall p :: p in PathOrder(arrivals) <==> p in BufferOf(arrivals)
    ensures forall p :: p in BufferOf(arrivals) <==> exists k :: 0 <= k < |arrivals| && arrivals[k].path == p
    ensures forall i, j :: 0 <= i < j < |PathOrder(arrivals)| ==> PathOrder(arrivals)[i] != PathOrder(arrivals)[j]
    ensures PathOrder(arrivals) == [] <==> BufferOf(arrivals) == map[]
  {
    OrderIsKeys(arrivals);
    BufferHasArrivedPaths(arrivals);
    OrderIsDistinct(arrivals);
    if BufferOf(arrivals) != map[] {
      var p :| p in BufferOf(arrivals);
      assert p in PathOrder(arrivals);
    }
  }

  /** The key order lists exactly the buffered paths. */
  lemma {:induction false} OrderIsKeys(arrivals: seq<Item>)
    ensures forall p :: p in PathOrder(arrivals) <==> p in BufferOf(arrivals)
  {
    if arrivals != [] {
      OrderIsKeys(arrivals[..|arrivals| - 1]);
    }
  }

  /** A path is buffered exactly when some item arrived under it. */
  lemma {:induction false} BufferHasArrivedPaths(arrivals: seq<Item>)
    ensures forall p :: p in BufferOf(arrivals) <==> exists k :: 0 <= k < |arrivals| && arrivals[k].path == p
  {
    if arrivals != [] {
      var n := |arrivals| - 1;
      var earlier := arrivals[..n];
      BufferHasArrivedPaths(earlier);
      forall p ensures p in BufferOf(arrivals) <==> exists k :: 0 <= k < |arrivals| && arrivals[k].path == p {
        if p in BufferOf(earlier) {
          var k :| 0 <= k < n && earlier[k].path == p;
          assert arrivals[k].path == p;
        }
        if exists k :: 0 <= k < |arrivals| && arrivals[k].path == p {
          var k :| 0 <= k < |arrivals| && arrivals[k].path == p;
          if k < n { assert earlier[k].path == p; }
        }
      }
    }
  }

  /** No path is listed twice in the key order. */
  lemma {:induction false} OrderIsDistinct(arrivals: seq<Item>)
    ensures forall i, j :: 0 <= i < j < |PathOrder(arrivals)| ==> PathOrder(arrivals)[i] != PathOrder(arrivals)[j]
  {
    if arrivals != [] {
      OrderIsDistinct(arrivals[..|arrivals| - 1]);
    }
  }

  /** One more arrival: stored under its path, and its path appended to the key order if new. */
  lemma ArrivalStep(arrivals: seq<Item>, f: Item)
    ensures BufferOf(arrivals + [f]) == BufferOf(arrivals)[f.path := f]
    ensures PathOrder(arrivals + [f]) ==
      if f.path in PathOrder(arrivals) then PathOrder(arrivals) else PathOrder(arrivals) + [f.path]
  {
    var all := arrivals + [f];
    assert all[..|all| - 1] == arrivals;
  }

  /** Each buffered path holds its latest arrival (last write wins). */
  lemma {:induction false} BufferHoldsLatest(arrivals: seq<Item>, p: string)
    requires p in BufferOf(arrivals)
    ensures BufferOf(arrivals)[p].path == p
    ensures exists k :: 0 <= k < |arrivals| && arrivals[k] == BufferOf(arrivals)[p] && IsLatest(arrivals, k)
  {
    var n := |arrivals| - 1;
    var earlier := arrivals[..n];
    if arrivals[n].path == p {
      assert IsLatest(arrivals, n);
    } else {
      BufferHoldsLatest(earlier, p);
      var k :| 0 <= k < n && earlier[k] == BufferOf(earlier)[p] && IsLatest(earlier, k);
      assert arrivals[k] == BufferOf(arrivals)[p] && IsLatest(arrivals, k);
    }
  }

  /**
   * A flush loses nothing and coalesces per path: its input holds one item
   * per arrived path, and that item is the latest arrival for the path.
   */
  lemma DrainIsExact(arrivals: seq<Item>)
    ensures forall i, j :: 0 <= i < j < |Drain(arrivals)| ==> Drain(arrivals)[i].path != Drain(arrivals)[j].path
    ensures forall i :: 0 <= i < |Drain(arrivals)| ==>
      exists k :: 0 <= k < |arrivals| && Drain(arrivals)[i] == arrivals[k] && IsLatest(arrivals, k)
    ensures forall k :: 0 <= k < |arrivals| ==>
      exists i :: 0 <= i < |Drain(arrivals)| && Drain(arrivals)[i].path == arrivals[k].path
  {
    var d, b, o := Drain(arrivals), BufferOf(arrivals), PathOrder(arrivals);
    PathOrderMatchesBuffer(arrivals);
    forall i | 0 <= i < |d| ensures d[i].path == o[i] {
      BufferHoldsLatest(arrivals, o[i]);
    }
    forall i | 0 <= i < |d|
      ensures exists k :: 0 <= k < |arrivals| && d[i] == arrivals[k] && IsLatest(arrivals, k)
    {
      BufferHoldsLatest(arrivals, o[i]);
    }
    forall k | 0 <= k < |arrivals|
      ensures exists i :: 0 <= i < |d| && d[i].path == arrivals[k].path
    {
      var p := arrivals[k].path;
      assert p in b;
      var i :| 0 <= i < |o| && o[i] == p;
      assert d[i].path == p;
    }
  }

  class Controller {
    const supportsCancellation: bool
    /** Whether the controller was given an initial input (`if (initial)`, line 37). */
    ghost const hadInitial: bool

    var state: RunState
    var buffer: map<string, Item>
    /** `Object.keys(buffer)`, in insertion order. */
    var order: seq<string>
    /** The debounced flush is armed and has not fired yet. */
    var timerPending: bool
    /** Every run started so far, in start order. */
    var runs: seq<Run>
    /** How many runs have completed. */
    var completed: nat
    /** Items that arrived since the last flush. */
    ghost var arrivals: seq<Item>

    /** The token (if any) the stage provider is called with (line 28). */
    function TokenFor(cancellable: bool): (t: Option<Token>)
      reads this
      ensures t.None? <==> !supportsCancellation
      ensures t.Some? ==> (t.value == BufferToken <==> cancellable)
    {
      if !supportsCancellation then None
      else Some(if cancellable then BufferToken else NoCancellationToken)
    }

    /**
     * At most one run is active (runs never overlap); the timer is armed only
     * while idle; the buffer is exactly the coalesced arrivals since the last
     * flush; the initial run is the only one that is not cancellable, and
     * every flushed run has input.
     */
    ghost predicate Valid()
      reads this
    {
      completed <= |runs| <= completed + 1 &&
      (state == Running <==> |runs| == completed + 1) &&
      (timerPending ==> state == Idle) &&
      buffer == BufferOf(arrivals) && order == PathOrder(arrivals) &&
      (hadInitial ==> |runs| >= 1) &&
      (forall i :: 0 <= i < |runs| ==> runs[i].token == TokenFor(!(i == 0 && hadInitial))) &&
      (forall i :: 0 <= i < |runs| && !(i == 0 && hadInitial) ==> runs[i].input != [])
    }

    /** `isCancellationRequested()` of a token handed out by this controller (lines 19, 25). */
    function IsCancellationRequested(t: Token): (requested: bool)
      requires Valid()
      reads this
      ensures requested <==> t == BufferToken && buffer != map[]
    {
      PathOrderMatchesBuffer(arrivals);
      match t
      case NoCancellationToken => false
      case BufferToken => |order| > 0
    }

    constructor (supportsCancellation: bool, initial: Option<seq<Item>>)
      ensures Valid()
      ensures this.supportsCancellation == supportsCancellation
      ensures buffer == map[] && order == [] && arrivals == [] && !timerPending && completed == 0
      ensures initial.None? ==> state == Idle && runs == []
      ensures initial.Some? ==> state == Running && runs == [Run(initial.value, TokenFor(false))]
    {
      this.supportsCancellation := supportsCancellation;
      hadInitial := initial.Some?;
      state := Idle;
      buffer, order, arrivals := map[], [], [];
      timerPending := false;
      runs, completed := [], 0;
      new;
      if initial.Some? {
        StartRun(initial.value, false);
      }
    }

    /** `run(input, isCancellable)` (lines 26-36), up to the stage's own stream plumbing. */
    method StartRun(input: seq<Item>, cancellable: bool)
      modifies this
      ensures state == Running && runs == old(runs) + [Run(input, TokenFor(cancellable))]
      ensures buffer == old(buffer) && order == old(order) && arrivals == old(arrivals)
      ensures timerPending == old(timerPending) && completed == old(completed)
    {
      state := Running;
      runs := runs + [Run(input, TokenFor(cancellable))];
    }

    /** An item arrives on the input stream (lines 49-54). */
    method Arrive(f: Item)
      requires Valid()
      modifies this
      ensures Valid()
      ensures arrivals == old(arrivals) + [f]
      ensures buffer == old(buffer)[f.path := f]
      ensures order == if f.path in old(buffer) then old(order) else old(order) + [f.path]
      ensures timerPending == (old(timerPending) || old(state) == Idle)
      ensures state == old(state) && runs == old(runs) && completed == old(completed)
    {
      OrderIsKeys(arrivals);
      ArrivalStep(arrivals, f);
      ghost var all := arrivals + [f];
      if f.path !in buffer {
        order := order + [f.path];
      }
      buffer := buffer[f.path := f];
      arrivals := all;
      if state == Idle {
        timerPending := true;
      }
    }

    /** The debounced flush fires (lines 40-48). */
    method TimerFire()
      requires Valid() && timerPending
      modifies this
      ensures Valid() && !timerPending && completed == old(completed)
      ensures old(state) == Idle
      ensures old(order) == [] ==>
        state == Idle && runs == old(runs) && buffer == old(buffer) && order == old(order)
      ensures old(order) != [] ==>
        state == Running && buffer == map[] && order == [] && arrivals == [] &&
        runs == old(runs) + [Run(Drain(old(arrivals)), TokenFor(true))]
    {
      timerPending := false;
      var paths := order;
      if |paths| == 0 {
        return;
      }
      OrderIsKeys(arrivals);
      var data := Flush(buffer, paths);
      assert data == Drain(arrivals) && data != [];
      buffer, order := map[], [];
      arrivals := [];
      StartRun(data, true);
    }

    /** The running stage's output ends (lines 31-34). */
    method RunComplete()
      requires Valid() && state == Running
      modifies this
      ensures Valid() && state == Idle && timerPending && completed == old(completed) + 1
      ensures runs == old(runs) && buffer == old(buffer) && order == old(order) && arrivals == old(arrivals)
    {
      state := Idle;
      completed := completed + 1;
      timerPending := true;
    }
  }

  /**
   * Three arrivals within one quiet period, the first two with the same
   * path: exactly one run starts, with the second and third item.
   */
  method CoalescingScenario(a: Item, b: Item, c: Item) returns (r: Run)
    requires a.path == b.path && b.path != c.path
    ensures r == Run([b, c], Some(BufferToken))
  {
    var ctl := new Controller(true, None);
    ctl.Arrive(a);
    ctl.Arrive(b);
    ctl.Arrive(c);
    assert ctl.arrivals == [a, b, c] && ctl.order == [a.path, c.path];
    ctl.TimerFire();
    assert ctl.runs == [Run(Drain([a, b, c]), Some(BufferToken))];
    assert [a, b, c][..2] == [a, b] && [a, b][..1] == [a];
    r := ctl.runs[0];
  }
}
