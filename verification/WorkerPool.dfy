/** The cooperative worker pool: workers share a cursor, claim the next index, await its task and
    write its slot. A step is what one worker does between two awaits; any worker may step next. */
module WorkerPool {
  import opened Sequences

  /** Failed: the awaited task was rejected and the worker threw. */
  datatype Worker = Fresh | Awaiting(index: nat) | Done | Failed(index: nat)

  /** claims[i] is the worker that claimed index i; a history of the cursor's hand-outs. */
  datatype State<R> = State(cursor: nat, workers: seq<Worker>, output: seq<Option<R>>, claims: seq<nat>)

  /** A task that yields no value rejects. */
  datatype Job<!T, R> = Job(values: seq<T>, concurrency: int, task: (T, nat) -> Option<R>) {
    function Size(): nat { |values| }

    function WorkerCount(): nat {
      if concurrency < 0 then 0 else if concurrency < Size() then concurrency else Size()
    }

    function Outcome(i: nat): Option<R>
      requires i < Size()
    {
      task(values[i], i)
    }

    function Init(): State<R> {
      State(0, seq(WorkerCount(), i => Fresh), seq(Size(), i => None), [])
    }

    /** Takes the cursor and advances it: past the end the worker returns, else it awaits that index. */
    function Claim(s: State<R>, w: nat): State<R>
      requires w < |s.workers|
    {
      if s.cursor >= Size() then s.(cursor := s.cursor + 1, workers := s.workers[w := Done])
      else s.(cursor := s.cursor + 1, workers := s.workers[w := Awaiting(s.cursor)], claims := s.claims + [w])
    }

    predicate Enabled(s: State<R>, w: nat) { w < |s.workers| && (s.workers[w].Fresh? || s.workers[w].Awaiting?) }

    function Write(s: State<R>, i: nat): State<R>
      requires i < |s.output| == Size() && Outcome(i).Some?
    {
      s.(output := s.output[i := Outcome(i)])
    }

    function Reject(s: State<R>, w: nat): State<R>
      requires w < |s.workers| && s.workers[w].Awaiting?
    {
      s.(workers := s.workers[w := Failed(s.workers[w].index)])
    }

    /** The worker may go on, and the slot it would write exists. */
    predicate CanStep(s: State<R>, w: nat) {
      Enabled(s, w) && (s.workers[w].Awaiting? ==> s.workers[w].index < |s.output| == Size())
    }

    /** A worker starts; or its task is fulfilled and it writes the slot and claims again; or its task
        is rejected and it throws. */
    function Advance(s: State<R>, w: nat): State<R>
      requires CanStep(s, w)
    {
      if s.workers[w].Fresh? then Claim(s, w)
      else if Outcome(s.workers[w].index).Some? then Claim(Write(s, s.workers[w].index), w)
      else Reject(s, w)
    }

    ghost predicate StepBy(s: State<R>, t: State<R>, w: nat) { CanStep(s, w) && t == Advance(s, w) }

    ghost predicate Step(s: State<R>, t: State<R>) { exists w: nat :: StepBy(s, t, w) }

    // ----- The invariant

    ghost predicate Shape(s: State<R>) {
      && |s.workers| == WorkerCount() && |s.output| == Size()
      && |s.claims| == (if s.cursor < Size() then s.cursor else Size())
      && (forall i :: 0 <= i < |s.claims| ==> s.claims[i] < |s.workers|)
    }

    /** The worker awaits a task, or failed on it. */
    predicate Holding(worker: Worker) { worker.Awaiting? || worker.Failed? }

    /** Whoever holds an index claimed it, and its slot is empty. */
    ghost predicate HeldIsClaimed(s: State<R>, w: nat)
      requires Shape(s) && w < |s.workers|
    {
      Holding(s.workers[w]) ==>
        s.workers[w].index < |s.claims| && s.claims[s.workers[w].index] == w && s.output[s.workers[w].index].None?
    }

    /** A claimed index is held by its claimer, or its slot is written. */
    ghost predicate ClaimedIsHeldOrWritten(s: State<R>, i: nat)
      requires Shape(s) && i < |s.claims|
    {
      s.output[i].None? ==> Holding(s.workers[s.claims[i]]) && s.workers[s.claims[i]].index == i
    }

    /** A written slot was claimed, and holds the result of its own task. */
    ghost predicate WrittenIsRight(s: State<R>, i: nat)
      requires Shape(s) && i < Size()
    {
      s.output[i].Some? ==> i < |s.claims| && s.output[i] == Outcome(i)
    }

    /** Only a rejected task fails a worker. */
    ghost predicate FailedIsRejected(s: State<R>, w: nat)
      requires w < |s.workers|
    {
      s.workers[w].Failed? ==> s.workers[w].index < Size() && Outcome(s.workers[w].index).None?
    }

    ghost predicate Inv(s: State<R>) {
      && Shape(s)
      && (forall w: nat :: w < |s.workers| ==> FailedIsRejected(s, w))
      && (forall w: nat :: w < |s.workers| ==> HeldIsClaimed(s, w))
      && (forall i: nat :: i < |s.claims| ==> ClaimedIsHeldOrWritten(s, i))
      && (forall i: nat :: i < Size() ==> WrittenIsRight(s, i))
      && (forall w: nat :: w < |s.workers| && s.workers[w].Done? ==> s.cursor >= Size())
    }

    lemma InitInv()
      ensures Inv(Init())
    { }

    /** Everything but the claiming worker is in order, and the claiming worker holds nothing. */
    ghost predicate ReadyToClaim(s: State<R>, w: nat) {
      && w < |s.workers| && Shape(s)
      && (forall v: nat :: v < |s.workers| && v != w ==> FailedIsRejected(s, v))
      && (forall v: nat :: v < |s.workers| && v != w ==> HeldIsClaimed(s, v))
      && (forall i: nat :: i < |s.claims| ==> ClaimedIsHeldOrWritten(s, i))
      && (forall i: nat :: i < |s.claims| && s.output[i].None? ==> s.claims[i] != w)
      && (forall i: nat :: i < Size() ==> WrittenIsRight(s, i))
      && (forall v: nat :: v < |s.workers| && v != w && s.workers[v].Done? ==> s.cursor >= Size())
    }

    lemma ClaimKeeps(s: State<R>, w: nat)
      requires ReadyToClaim(s, w)
      ensures Inv(Claim(s, w)) && s.claims <= Claim(s, w).claims
    {
      var t := Claim(s, w);
      assert Shape(t);
      forall v: nat | v < |t.workers| ensures HeldIsClaimed(t, v) && FailedIsRejected(t, v) {
        if v != w { assert HeldIsClaimed(s, v) && FailedIsRejected(s, v); }
        else if s.cursor < Size() { assert WrittenIsRight(s, s.cursor); }
      }
      forall i: nat | i < |t.claims| ensures ClaimedIsHeldOrWritten(t, i) {
        if i < |s.claims| { assert ClaimedIsHeldOrWritten(s, i); }
      }
      forall i: nat | i < Size() ensures WrittenIsRight(t, i) { assert WrittenIsRight(s, i); }
    }

    lemma FreshIsReady(s: State<R>, w: nat)
      requires Inv(s) && w < |s.workers| && s.workers[w].Fresh?
      ensures ReadyToClaim(s, w)
    {
      forall i: nat | i < |s.claims| && s.output[i].None?
        ensures s.claims[i] != w
      {
        assert ClaimedIsHeldOrWritten(s, i);
      }
    }

    lemma WrittenIsReady(s: State<R>, w: nat)
      requires Inv(s) && CanStep(s, w) && s.workers[w].Awaiting? && Outcome(s.workers[w].index).Some?
      ensures ReadyToClaim(Write(s, s.workers[w].index), w)
    {
      var i := s.workers[w].index;
      assert HeldIsClaimed(s, w);
      var t := Write(s, i);
      forall v: nat | v < |t.workers| && v != w ensures HeldIsClaimed(t, v) && FailedIsRejected(t, v) {
        assert HeldIsClaimed(s, v) && FailedIsRejected(s, v);
      }
      forall j: nat | j < |t.claims| ensures ClaimedIsHeldOrWritten(t, j) && (t.output[j].None? ==> t.claims[j] != w) {
        assert ClaimedIsHeldOrWritten(s, j);
      }
      forall j: nat | j < Size() ensures WrittenIsRight(t, j) { assert WrittenIsRight(s, j); }
    }

    lemma RejectKeeps(s: State<R>, w: nat)
      requires Inv(s) && CanStep(s, w) && s.workers[w].Awaiting? && Outcome(s.workers[w].index).None?
      ensures Inv(Reject(s, w))
    {
      var t := Reject(s, w);
      assert Shape(t);
      forall v: nat | v < |t.workers| ensures HeldIsClaimed(t, v) && FailedIsRejected(t, v) {
        assert HeldIsClaimed(s, v) && FailedIsRejected(s, v);
      }
      forall i: nat | i < |t.claims| ensures ClaimedIsHeldOrWritten(t, i) { assert ClaimedIsHeldOrWritten(s, i); }
      forall i: nat | i < Size() ensures WrittenIsRight(t, i) { assert WrittenIsRight(s, i); }
    }

    /** Whoever is enabled can step: the invariant gives the slot. */
    lemma EnabledCanStep(s: State<R>, w: nat)
      requires Inv(s) && Enabled(s, w)
      ensures CanStep(s, w)
    {
      assert HeldIsClaimed(s, w);
    }

    lemma AdvanceKeeps(s: State<R>, w: nat)
      requires Inv(s) && CanStep(s, w)
      ensures Inv(Advance(s, w)) && s.claims <= Advance(s, w).claims
      ensures Measure(Advance(s, w)) < Measure(s)
    {
      if s.workers[w].Fresh? {
        FreshIsReady(s, w);
        ClaimKeeps(s, w);
      } else if Outcome(s.workers[w].index).Some? {
        WrittenIsReady(s, w);
        ClaimKeeps(Write(s, s.workers[w].index), w);
      } else {
        RejectKeeps(s, w);
      }
      WeightUpdate(s.workers, w, Advance(s, w).workers[w]);
    }

    // ----- The measure

    /** Twice the indices left to claim, plus the workers still going. */
    function Measure(s: State<R>): int { 2 * (Size() - |s.claims|) + Weight(s.workers) }

    function Weight(workers: seq<Worker>): nat {
      if workers == [] then 0
      else Weight(workers[..|workers| - 1])
           + (if workers[|workers| - 1].Fresh? || workers[|workers| - 1].Awaiting? then 1 else 0)
    }

    lemma {:induction false} WeightUpdate(workers: seq<Worker>, w: nat, x: Worker)
      requires w < |workers| && (workers[w].Fresh? || workers[w].Awaiting?)
      ensures Weight(workers[w := x]) == Weight(workers) - (if x.Fresh? || x.Awaiting? then 0 else 1)
    {
      var n := |workers| - 1;
      if w < n {
        assert workers[w := x][..n] == workers[..n][w := x];
        WeightUpdate(workers[..n], w, x);
      } else {
        assert workers[w := x][..n] == workers[..n];
      }
    }

    // ----- Every run

    ghost predicate IsRun(run: seq<State<R>>) {
      |run| > 0 && run[0] == Init() && forall k :: 0 <= k < |run| - 1 ==> Step(run[k], run[k + 1])
    }

    lemma StepKeeps(s: State<R>, t: State<R>)
      requires Inv(s) && Step(s, t)
      ensures Inv(t) && Measure(t) < Measure(s) && s.claims <= t.claims
    {
      var w: nat :| StepBy(s, t, w);
      AdvanceKeeps(s, w);
    }

    /** Safety over every interleaving, rejected tasks included: the invariant holds at the end of
        every run, and a run makes at most 2 * size + workers steps. */
    lemma {:induction false} RunSafety(run: seq<State<R>>)
      requires IsRun(run)
      ensures Inv(run[|run| - 1])
      ensures Measure(run[|run| - 1]) + |run| - 1 <= 2 * Size() + WorkerCount()
    {
      var n := |run| - 1;
      if n == 0 {
        InitInv();
        WeightBound(run[0].workers);
      } else {
        RunPrefix(run, n);
        RunSafety(run[..n]);
        StepKeeps(run[n - 1], run[n]);
      }
    }

    lemma RunPrefix(run: seq<State<R>>, n: nat)
      requires IsRun(run) && 0 < n <= |run|
      ensures IsRun(run[..n])
    { }

    /** Exactly once: a hand-out, once made, is never made again or revised. */
    lemma {:induction false} ClaimsAreFinal(run: seq<State<R>>, k: nat)
      requires IsRun(run) && k < |run|
      ensures run[k].claims <= run[|run| - 1].claims
      decreases |run| - k
    {
      var n := |run| - 1;
      if k < n {
        RunPrefix(run, k + 1);
        RunSafety(run[..k + 1]);
        StepKeeps(run[k], run[k + 1]);
        ClaimsAreFinal(run, k + 1);
      }
    }

    lemma {:induction false} WeightBound(workers: seq<Worker>)
      ensures Weight(workers) <= |workers|
    {
      if workers != [] { WeightBound(workers[..|workers| - 1]); }
    }

    /** At any moment of any run: an index awaited by a worker was claimed by that worker alone, and
        at most min(concurrency, size) workers are still going. */
    lemma InFlight(run: seq<State<R>>, v: nat, w: nat)
      requires IsRun(run) && v < |run[|run| - 1].workers| && w < |run[|run| - 1].workers|
      requires run[|run| - 1].workers[v].Awaiting? && run[|run| - 1].workers[v] == run[|run| - 1].workers[w]
      ensures v == w
      ensures run[|run| - 1].workers[v].index < |run[|run| - 1].claims|
      ensures run[|run| - 1].claims[run[|run| - 1].workers[v].index] == v
      ensures Weight(run[|run| - 1].workers) <= WorkerCount()
    {
      var s := run[|run| - 1];
      RunSafety(run);
      WeightBound(s.workers);
      assert HeldIsClaimed(s, v) && HeldIsClaimed(s, w);
    }

    /** The pool has as many workers as it may run at once, but no more than values; and no more are
        still going at any moment. */
    lemma PoolSize(run: seq<State<R>>)
      requires IsRun(run)
      ensures var s := run[|run| - 1];
        && Weight(s.workers) <= |s.workers| <= |values|
        && (concurrency < 0 ==> |s.workers| == 0)
        && (0 <= concurrency <= |values| ==> |s.workers| == concurrency)
        && (|values| <= concurrency ==> |s.workers| == |values|)
    {
      var s := run[|run| - 1];
      RunSafety(run);
      WeightBound(s.workers);
    }

    ghost predicate AllDone(s: State<R>) { forall w: nat :: w < |s.workers| ==> s.workers[w].Done? }

    /** No worker can go on: each has returned or thrown. */
    ghost predicate AllSettled(s: State<R>) { forall w: nat :: w < |s.workers| ==> !Enabled(s, w) }

    ghost predicate Complete(s: State<R>) {
      |s.output| == |s.claims| == Size()
      && forall i: nat :: i < Size() ==> s.output[i].Some? && s.output[i] == Outcome(i)
    }

    lemma DoneIsComplete(s: State<R>)
      requires Inv(s) && AllDone(s) && |s.workers| > 0
      ensures Complete(s)
    {
      assert s.workers[0].Done?;
      forall i: nat | i < Size() ensures s.output[i].Some? && s.output[i] == Outcome(i) {
        assert ClaimedIsHeldOrWritten(s, i) && WrittenIsRight(s, i);
        assert s.workers[s.claims[i]].Done?;
      }
    }

    lemma NobodyClaims(s: State<R>)
      requires Shape(s)
      ensures |s.claims| > 0 ==> |s.workers| > 0
    {
      if |s.claims| > 0 {
        var w := s.claims[0];
        assert w < |s.workers|;
      }
    }

    /** When every worker has returned, every slot holds the result of its own task and every index
        was handed out, exactly if there was a worker at all or nothing to do. */
    lemma CompleteAtTheEnd(run: seq<State<R>>)
      requires IsRun(run) && AllDone(run[|run| - 1])
      ensures Complete(run[|run| - 1]) <==> concurrency >= 1 || Size() == 0
    {
      var s := run[|run| - 1];
      RunSafety(run);
      if |s.workers| > 0 { DoneIsComplete(s); } else { NobodyClaims(s); }
    }

    /** A rejected task leaves its slot empty, so a run with a failure never completes silently. */
    lemma FailureIsVisible(run: seq<State<R>>, w: nat)
      requires IsRun(run) && w < |run[|run| - 1].workers| && run[|run| - 1].workers[w].Failed?
      ensures var s := run[|run| - 1];
        && FailedIsRejected(s, w)
        && s.workers[w].index < |s.output| && s.output[s.workers[w].index].None?
        && !Complete(s)
    {
      var s := run[|run| - 1];
      RunSafety(run);
      assert HeldIsClaimed(s, w) && FailedIsRejected(s, w);
    }

    ghost predicate SomeRejects() { exists i: nat :: i < Size() && Outcome(i).None? }

    /** When nobody can go on, some worker has thrown exactly if there was a worker and some task
        rejects: then either a worker returned, and it saw every index handed out, or all threw. */
    lemma SettledInv(s: State<R>)
      requires Inv(s) && AllSettled(s)
      ensures (exists w: nat :: w < |s.workers| && s.workers[w].Failed?) <==> |s.workers| > 0 && SomeRejects()
    {
      if w: nat :| w < |s.workers| && s.workers[w].Failed? {
        assert FailedIsRejected(s, w);
      } else {
        forall w: nat | w < |s.workers| ensures s.workers[w].Done? { assert !Enabled(s, w); }
        if |s.workers| > 0 { DoneIsComplete(s); }
      }
    }

    /** The promise of the whole pool rejects exactly if there is a worker and some task rejects, in
        whatever order the workers went on; otherwise it fulfils with every result in its place. */
    lemma SettledAtTheEnd(run: seq<State<R>>)
      requires IsRun(run) && AllSettled(run[|run| - 1])
      ensures AllDone(run[|run| - 1]) <==> WorkerCount() == 0 || !SomeRejects()
      ensures AllDone(run[|run| - 1]) && WorkerCount() > 0 ==> Complete(run[|run| - 1])
    {
      var s := run[|run| - 1];
      RunSafety(run);
      SettledInv(s);
      forall w: nat | w < |s.workers| ensures s.workers[w].Done? || s.workers[w].Failed? { assert !Enabled(s, w); }
      if AllDone(s) && |s.workers| > 0 { DoneIsComplete(s); }
    }
  }

  /** What the caller awaits, once every worker has returned or thrown: a rejection, or the array of
      results, in which a slot that no worker came to write is empty. */
  datatype Settlement<R> = Rejected | Fulfilled(output: seq<Option<R>>)

  /** The pool itself, with the scheduler free to pick any worker that can go on: it terminates; it
      rejects exactly if there is a worker and some task rejects; else it returns every result in
      its place, or, without a worker, no result at all. */
  method ConcurrentMap<T, R>(values: seq<T>, concurrency: int, task: (T, nat) -> Option<R>)
    returns (result: Settlement<R>)
    ensures result.Rejected? <==> concurrency >= 1 && exists i :: 0 <= i < |values| && task(values[i], i).None?
    ensures result.Fulfilled? ==>
              && |result.output| == |values|
              && forall i :: 0 <= i < |values| ==>
                   result.output[i] == if concurrency >= 1 then task(values[i], i) else None
  {
    var job := Job(values, concurrency, task);
    var s := job.Init();
    job.InitInv();
    while exists w: nat :: w < |s.workers| && job.Enabled(s, w)
      invariant job.Inv(s)
      invariant concurrency < 1 ==> s == job.Init()
      decreases job.Measure(s)
    {
      var w: nat :| w < |s.workers| && job.Enabled(s, w);
      job.EnabledCanStep(s, w);
      job.AdvanceKeeps(s, w);
      s := job.Advance(s, w);
    }
    job.SettledInv(s);
    assert job.SomeRejects() <==> exists i :: 0 <= i < |values| && task(values[i], i).None? by {
      forall i: nat | i < |values| ensures job.Outcome(i) == task(values[i], i) { }
    }
    if exists w: nat :: w < |s.workers| && s.workers[w].Failed? { return Rejected; }
    forall w: nat | w < |s.workers| ensures s.workers[w].Done? { assert !job.Enabled(s, w); }
    if |s.workers| > 0 { job.DoneIsComplete(s); }
    result := Fulfilled(s.output);
    forall i | 0 <= i < |values| && concurrency >= 1 ensures s.output[i] == job.Outcome(i) { }
  }
}
