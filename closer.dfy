/** The shutdown registry: a list of cleanup callbacks, a one-shot gate and a done latch.

    A callback is foreign code; here it is only an identifier and the outcome it returns.
    The concurrent fan-out of `CloseAll` is run as a sequential loop over the drained
    snapshot, and the log is a count of error lines.

    The module has three layers:
      - `State` and the functions `Init`, `AddSpec`, `CloseAllSpec`: the registry as a value;
      - `Run` over a trace of `Op`s, with the lifetime properties (exactly-once execution,
        idempotent trigger, inert late registration, one log line per failure);
      - the class `Closer`, whose methods are proved to move its fields as the functions do. */
module Closer {

  datatype Outcome = Ok | Err

  /** A registered `func() error`: who it is and what it returns when run. */
  datatype Callback = Callback(id: nat, outcome: Outcome)

  /** Number of callbacks in `cs` that return an error. */
  function ErrorCount(cs: seq<Callback>): nat {
    if cs == [] then 0 else (if cs[0].outcome == Err then 1 else 0) + ErrorCount(cs[1..])
  }

  lemma {:induction false} ErrorCountAppend(a: seq<Callback>, b: seq<Callback>)
    ensures ErrorCount(a + b) == ErrorCount(a) + ErrorCount(b)
  {
    if a == [] {
      assert a + b == b;
    } else {
      assert (a + b)[1..] == a[1..] + b;
      ErrorCountAppend(a[1..], b);
    }
  }

  /** The results the callbacks `cs` send, in order. */
  function Outcomes(cs: seq<Callback>): seq<Outcome> {
    seq(|cs|, k requires 0 <= k < |cs| => cs[k].outcome)
  }

  /** Number of `Err` results in `os`. */
  function Failures(os: seq<Outcome>): nat {
    if os == [] then 0 else (if os[0] == Err then 1 else 0) + Failures(os[1..])
  }

  lemma {:induction false} FailuresAppend(a: seq<Outcome>, b: seq<Outcome>)
    ensures Failures(a + b) == Failures(a) + Failures(b)
  {
    if a == [] {
      assert a + b == b;
    } else {
      assert (a + b)[1..] == a[1..] + b;
      FailuresAppend(a[1..], b);
    }
  }

  /** Counting the failing callbacks is counting the `Err` results they send. */
  lemma {:induction false} ErrorCountIsFailures(cs: seq<Callback>)
    ensures ErrorCount(cs) == Failures(Outcomes(cs))
  {
    if cs != [] {
      assert Outcomes(cs)[1..] == Outcomes(cs[1..]);
      ErrorCountIsFailures(cs[1..]);
    }
  }

  lemma ErrorCountBound(cs: seq<Callback>)
    ensures ErrorCount(cs) <= |cs|
    ensures ErrorCount(cs) == 0 <==> forall k :: 0 <= k < |cs| ==> cs[k].outcome == Ok
  {
    if cs != [] {
      ErrorCountBound(cs[1..]);
      assert forall k :: 1 <= k < |cs| ==> cs[k] == cs[1..][k - 1];
    }
  }

  // ---------------------------------------------------------------------------
  // The registry as a value
  // ---------------------------------------------------------------------------

  /** `funcs`: the pending callbacks; `started`: the gate has been passed; `done`: the latch
      is closed; `executed`: every callback run so far, in launch order; `logLines`: error
      lines written so far. */
  datatype State = State(
    funcs: seq<Callback>,
    started: bool,
    done: bool,
    executed: seq<Callback>,
    logLines: nat)

  /** What holds of every registry between calls. Before the gate nothing has run and the
      latch is open; after it the latch is closed; there is one log line per failing
      callback that ran. */
  predicate Inv(s: State) {
    && (s.done <==> s.started)
    && (!s.started ==> s.executed == [])
    && s.logLines == ErrorCount(s.executed)
  }

  /** A fresh registry. */
  function Init(): State {
    State([], false, false, [], 0)
  }

  /** Registering `fs`. */
  function AddSpec(s: State, fs: seq<Callback>): State {
    s.(funcs := s.funcs + fs)
  }

  /** Triggering shutdown: the first time, drain the pending list, run all of it, log one
      line per failure and close the latch; afterwards, nothing. */
  function CloseAllSpec(s: State): State {
    if s.started then s
    else State([], true, true, s.executed + s.funcs, s.logLines + ErrorCount(s.funcs))
  }

  lemma InitInv()
    ensures Inv(Init())
    ensures Init().funcs == [] && !Init().done
  {
  }

  lemma AddPreservesInv(s: State, fs: seq<Callback>)
    requires Inv(s)
    ensures Inv(AddSpec(s, fs))
    ensures AddSpec(s, fs).funcs == s.funcs + fs
    ensures fs == [] ==> AddSpec(s, fs) == s
  {
  }

  /** The trigger keeps the invariant, and afterwards the latch is closed, the pending list
      is empty (unless registrations came after an earlier trigger) and what ran is exactly
      what was pending. */
  lemma CloseAllPreservesInv(s: State)
    requires Inv(s)
    ensures Inv(CloseAllSpec(s))
    ensures CloseAllSpec(s).done
    ensures !s.started ==> CloseAllSpec(s).funcs == [] && CloseAllSpec(s).executed == s.funcs
    ensures s.started ==> CloseAllSpec(s) == s
  {
    if !s.started {
      ErrorCountAppend(s.executed, s.funcs);
    }
  }

  /** Triggering twice is triggering once. */
  lemma CloseAllIdempotent(s: State)
    ensures CloseAllSpec(CloseAllSpec(s)) == CloseAllSpec(s)
  {
  }

  /** With nothing registered the trigger closes the latch and logs nothing. */
  lemma CloseAllEmpty(s: State)
    requires Inv(s) && !s.started && s.funcs == []
    ensures CloseAllSpec(s).done && CloseAllSpec(s).executed == []
    ensures CloseAllSpec(s).logLines == 0
  {
  }

  /** A registration after the trigger is kept but never run by a later trigger. */
  lemma LateAddInert(s: State, fs: seq<Callback>)
    requires s.started
    ensures CloseAllSpec(AddSpec(s, fs)).funcs == s.funcs + fs
    ensures CloseAllSpec(AddSpec(s, fs)).executed == s.executed
    ensures CloseAllSpec(AddSpec(s, fs)).logLines == s.logLines
  {
  }

  // ---------------------------------------------------------------------------
  // Lifetimes: traces of registrations and triggers
  // ---------------------------------------------------------------------------

  datatype Op = Register(fs: seq<Callback>) | Trigger

  function Apply(s: State, op: Op): State {
    match op
    case Register(fs) => AddSpec(s, fs)
    case Trigger => CloseAllSpec(s)
  }

  /** The registry after the calls `ops`, in order. */
  function Run(s: State, ops: seq<Op>): State
    decreases |ops|
  {
    if ops == [] then s else Run(Apply(s, ops[0]), ops[1..])
  }

  /** Every callback registered in `ops`, in order. */
  function Registered(ops: seq<Op>): seq<Callback> {
    if ops == [] then []
    else (if ops[0].Register? then ops[0].fs else []) + Registered(ops[1..])
  }

  /** The callbacks registered in `ops` before its first trigger. */
  function RegisteredBefore(ops: seq<Op>): seq<Callback> {
    if ops == [] || ops[0].Trigger? then [] else ops[0].fs + RegisteredBefore(ops[1..])
  }

  /** The callbacks registered in `ops` after its first trigger. */
  function RegisteredAfter(ops: seq<Op>): seq<Callback> {
    if ops == [] then []
    else if ops[0].Trigger? then Registered(ops[1..])
    else RegisteredAfter(ops[1..])
  }

  lemma {:induction false} RunAppend(s: State, a: seq<Op>, b: seq<Op>)
    ensures Run(s, a + b) == Run(Run(s, a), b)
    decreases |a|
  {
    if a == [] {
      assert a + b == b;
    } else {
      assert (a + b)[1..] == a[1..] + b;
      RunAppend(Apply(s, a[0]), a[1..], b);
    }
  }

  /** After the gate, any further calls only lengthen the pending list. */
  lemma {:induction false} RunAfterStart(s: State, ops: seq<Op>)
    requires s.started
    ensures Run(s, ops) == s.(funcs := s.funcs + Registered(ops))
    decreases |ops|
  {
    if ops == [] {
      assert s.funcs + [] == s.funcs;
    } else {
      RunAfterStart(Apply(s, ops[0]), ops[1..]);
      assert s.funcs + Registered(ops)
          == (s.funcs + (if ops[0].Register? then ops[0].fs else [])) + Registered(ops[1..]);
    }
  }

  /** From a registry whose gate is shut, a trace runs everything pending plus everything
      registered before its first trigger, once, and nothing else. */
  lemma {:induction false} RunBeforeStart(s: State, ops: seq<Op>)
    requires Inv(s) && !s.started
    ensures Trigger in ops ==>
      Run(s, ops) == State(RegisteredAfter(ops), true, true, s.funcs + RegisteredBefore(ops),
                           ErrorCount(s.funcs + RegisteredBefore(ops)))
    ensures Trigger !in ops ==>
      Run(s, ops) == s.(funcs := s.funcs + RegisteredBefore(ops))
    decreases |ops|
  {
    if ops == [] {
      assert s.funcs + [] == s.funcs;
    } else if ops[0].Trigger? {
      var t := CloseAllSpec(s);
      RunAfterStart(t, ops[1..]);
      assert s.funcs + [] == s.funcs;
    } else {
      var t := AddSpec(s, ops[0].fs);
      RunBeforeStart(t, ops[1..]);
      assert ops == [ops[0]] + ops[1..];
      assert Trigger in ops <==> Trigger in ops[1..];
      assert s.funcs + RegisteredBefore(ops) == t.funcs + RegisteredBefore(ops[1..]);
    }
  }

  /** Over the whole lifetime of a registry: a callback registered before the first
      `CloseAll` runs exactly once, however many `CloseAll`s follow; nothing registered
      later ever runs; there is one log line per failing callback that ran; the latch is
      closed exactly when some `CloseAll` has been called; and the pending list holds just
      the late registrations. */
  lemma ExactlyOnce(ops: seq<Op>)
    ensures Run(Init(), ops).executed == (if Trigger in ops then RegisteredBefore(ops) else [])
    ensures Run(Init(), ops).logLines == ErrorCount(Run(Init(), ops).executed)
    ensures Run(Init(), ops).started <==> Trigger in ops
    ensures Run(Init(), ops).done <==> Trigger in ops
    ensures Run(Init(), ops).funcs
         == (if Trigger in ops then RegisteredAfter(ops) else RegisteredBefore(ops))
  {
    RunBeforeStart(Init(), ops);
  }

  /** The same, counted per callback: each one runs as many times as it was registered
      before the first trigger (so once, when identifiers are not repeated). */
  lemma ExactlyOnceCounted(ops: seq<Op>, c: Callback)
    requires Trigger in ops
    ensures multiset(Run(Init(), ops).executed)[c] == multiset(RegisteredBefore(ops))[c]
  {
    ExactlyOnce(ops);
  }

  /** Calls made after a trigger change nothing but the pending list. */
  lemma LateCallsInert(pre: seq<Op>, post: seq<Op>)
    requires Trigger in pre
    ensures Run(Init(), pre + post).executed == Run(Init(), pre).executed
    ensures Run(Init(), pre + post).logLines == Run(Init(), pre).logLines
    ensures Run(Init(), pre + post).funcs == Run(Init(), pre).funcs + Registered(post)
  {
    RunAppend(Init(), pre, post);
    ExactlyOnce(pre);
    RunAfterStart(Run(Init(), pre), post);
  }

  /** Once closed, the latch stays closed. */
  lemma DoneIsPermanent(s: State, ops: seq<Op>)
    requires s.done && Inv(s)
    ensures Run(s, ops).done
  {
    RunAfterStart(s, ops);
  }

  // ---------------------------------------------------------------------------
  // The registry as an object
  // ---------------------------------------------------------------------------

  class Closer {
    var funcs: seq<Callback>
    /** The `sync.Once` gate has been passed. */
    var started: bool
    /** The `done` channel has been closed. */
    var done: bool
    /** Every callback run so far, in launch order. */
    ghost var executed: seq<Callback>
    /** The number of "error returned from Closer" lines logged so far. */
    ghost var logLines: nat
    /** Every result received from `errs` so far, in the order received. */
    ghost var collected: seq<Outcome>

    ghost function Value(): State
      reads this
    {
      State(funcs, started, done, executed, logLines)
    }

    ghost predicate Valid()
      reads this
    {
      Inv(Value()) && collected == Outcomes(executed)
    }

    /** `New` without signals: an empty list and an open latch. */
    constructor ()
      ensures Valid() && Value() == Init()
      ensures funcs == [] && !done
    {
      funcs := [];
      started := false;
      done := false;
      executed := [];
      logLines := 0;
      collected := [];
    }

    /** Appends `fs` to the pending list, in argument order. */
    method Add(fs: seq<Callback>)
      requires Valid()
      modifies this`funcs
      ensures Valid() && Value() == AddSpec(old(Value()), fs)
      ensures funcs == old(funcs) + fs
    {
      funcs := funcs + fs;
    }

    /** `Wait` returns exactly when the latch is closed, which happens only once the gate has
        been passed and every drained callback has reported. */
    predicate Wait()
      reads this
      requires Valid()
      ensures Wait() <==> started
    {
      done
    }

    /** The first call drains the pending list, runs every drained callback, collects one
        result per callback, logs each error and closes the latch; later calls do nothing. */
    method CloseAll()
      requires Valid()
      modifies this
      ensures Valid() && Value() == CloseAllSpec(old(Value()))
      ensures done && (old(started) ==> Value() == old(Value()) && collected == old(collected))
      ensures !old(started) ==>
                funcs == [] && executed == old(funcs) && logLines == ErrorCount(old(funcs))
      ensures !old(started) ==>
                collected == Outcomes(old(funcs)) && |collected| == |old(funcs)|
                && logLines == Failures(collected)
    {
      if started {
        return;
      }
      started := true;

      var snapshot := funcs;
      funcs := [];

      // The launch: each callback runs once and sends its result.
      var errs: seq<Outcome> := [];
      for i := 0 to |snapshot|
        invariant |errs| == i
        invariant forall k :: 0 <= k < i ==> errs[k] == snapshot[k].outcome
        invariant executed == snapshot[..i]
        invariant !done && started && funcs == [] && logLines == 0 && collected == []
      {
        executed := executed + [snapshot[i]];
        errs := errs + [snapshot[i].outcome];
      }

      // The collection: exactly as many receives as callbacks were launched.
      for i := 0 to |snapshot|
        invariant collected == errs[..i]
        invariant logLines == Failures(collected)
        invariant !done && started && funcs == [] && executed == snapshot
      {
        var err := errs[i];
        assert errs[..i + 1] == errs[..i] + [err];
        FailuresAppend(collected, [err]);
        collected := collected + [err];
        if err == Err {
          logLines := logLines + 1;
        }
      }
      assert errs[..|snapshot|] == errs == Outcomes(snapshot);
      ErrorCountIsFailures(snapshot);

      done := true;
    }
  }

  /** Three callbacks, one failing, and two triggers. */
  method Scenario() {
    var c := new Closer();
    var a, b, d := Callback(1, Ok), Callback(2, Err), Callback(3, Ok);
    c.Add([a, b, d]);
    assert !c.Wait();
    c.CloseAll();
    c.CloseAll();
    assert c.Wait();
    assert c.executed == [a, b, d];
    assert [a, b, d][1..] == [b, d] && [b, d][1..] == [d] && [d][1..] == [];
    assert ErrorCount([d]) == 0;
    assert ErrorCount([a, b, d]) == 1;
    assert c.logLines == 1;
    c.Add([Callback(4, Err)]);
    c.CloseAll();
    assert c.executed == [a, b, d] && c.logLines == 1;
  }
}
