/** What both transfer pools keep: a row of workers and one entry for every job.

    A worker waits, is busy with a job, or has gone; a job is queued, taken, or has ended.
    `Consistent` ties the two together, and the lemmas say that taking, ending and leaving keep
    it. `Weights` is what the workers can still use up, from which the bound on the length of
    every schedule comes. */
module Pool {
  import opened Wrappers

  datatype Worker = Waiting | Busy(job: nat) | Gone

  /** A job is Queued until a worker takes it, and ends Succeeded or Failed. */
  datatype Status = Queued | Taken | Succeeded | Failed

  datatype Cause = Canceled | TransferError(code: int)

  function Weight(w: Worker): nat {
    match w
    case Waiting => 1
    case Busy(_) => 2
    case Gone => 0
  }

  function Weights(ws: seq<Worker>): nat {
    if ws == [] then 0 else Weight(ws[0]) + Weights(ws[1..])
  }

  lemma {:induction false} WeightsUpdate(ws: seq<Worker>, w: nat, x: Worker)
    requires w < |ws|
    ensures Weights(ws[w := x]) == Weights(ws) - Weight(ws[w]) + Weight(x)
  {
    if w == 0 {
      assert ws[w := x][1..] == ws[1..];
    } else {
      WeightsUpdate(ws[1..], w - 1, x);
      assert ws[w := x][1..] == ws[1..][w - 1 := x];
    }
  }

  function GoneCount(ws: seq<Worker>): (n: nat)
    ensures n <= |ws|
  {
    if ws == [] then 0 else (if ws[0].Gone? then 1 else 0) + GoneCount(ws[1..])
  }

  lemma {:induction false} GoneUpdate(ws: seq<Worker>, w: nat, x: Worker)
    requires w < |ws|
    ensures GoneCount(ws[w := x]) == GoneCount(ws) - (if ws[w].Gone? then 1 else 0) + (if x.Gone? then 1 else 0)
    ensures !ws[w].Gone? ==> GoneCount(ws) < |ws|
  {
    if w == 0 {
      assert ws[w := x][1..] == ws[1..];
    } else {
      GoneUpdate(ws[1..], w - 1, x);
      assert ws[w := x][1..] == ws[1..][w - 1 := x];
    }
  }

  predicate Holds(ws: seq<Worker>, w: nat, job: nat) {
    w < |ws| && ws[w] == Busy(job)
  }

  /** Jobs are taken in order, each by one worker; a job is Taken exactly while that
      worker is busy with it. */
  ghost predicate Consistent(ws: seq<Worker>, status: seq<Status>, taken: seq<nat>, next: nat) {
    && |status| == |taken| && next <= |status|
    && (forall i :: 0 <= i < |status| ==> (status[i] == Queued <==> next <= i))
    && (forall i :: 0 <= i < |taken| ==> taken[i] == if i < next then 1 else 0)
    && (forall w :: 0 <= w < |ws| && ws[w].Busy? ==> ws[w].job < |status| && status[ws[w].job] == Taken)
    && (forall v, w :: 0 <= v < w < |ws| && ws[v].Busy? && ws[w].Busy? ==> ws[v].job != ws[w].job)
    && (forall i :: 0 <= i < |status| && status[i] == Taken ==> exists w :: Holds(ws, w, i))
  }

  /** A waiting worker takes the next job. */
  lemma TakeConsistent(ws: seq<Worker>, status: seq<Status>, taken: seq<nat>, next: nat, w: nat)
    requires Consistent(ws, status, taken, next) && next < |status| && w < |ws| && ws[w] == Waiting
    ensures Consistent(ws[w := Busy(next)], status[next := Taken], taken[next := taken[next] + 1], next + 1)
  {
    var ws', status' := ws[w := Busy(next)], status[next := Taken];
    forall i | 0 <= i < |status'| && status'[i] == Taken ensures exists v :: Holds(ws', v, i) {
      if i == next {
        assert Holds(ws', w, i);
      } else {
        var v :| Holds(ws, v, i);
        assert Holds(ws', v, i);
      }
    }
  }

  /** A busy worker ends its job and waits again or leaves. */
  lemma EndConsistent(
    ws: seq<Worker>, status: seq<Status>, taken: seq<nat>, next: nat, w: nat, ended: Status, after: Worker)
    requires Consistent(ws, status, taken, next) && w < |ws| && ws[w].Busy?
    requires ended in {Succeeded, Failed} && !after.Busy?
    ensures Consistent(ws[w := after], status[ws[w].job := ended], taken, next)
  {
    var ws', status' := ws[w := after], status[ws[w].job := ended];
    forall i | 0 <= i < |status'| && status'[i] == Taken ensures exists v :: Holds(ws', v, i) {
      var v :| Holds(ws, v, i);
      assert Holds(ws', v, i);
    }
  }

  lemma LeaveConsistent(ws: seq<Worker>, status: seq<Status>, taken: seq<nat>, next: nat, w: nat)
    requires Consistent(ws, status, taken, next) && w < |ws| && !ws[w].Busy?
    ensures Consistent(ws[w := Gone], status, taken, next)
  {
    var ws' := ws[w := Gone];
    forall i | 0 <= i < |status| && status[i] == Taken ensures exists v :: Holds(ws', v, i) {
      var v :| Holds(ws, v, i);
      assert Holds(ws', v, i);
    }
  }

  lemma TakenInOrder(ws: seq<Worker>, status: seq<Status>, taken: seq<nat>, next: nat)
    requires Consistent(ws, status, taken, next)
    ensures next <= |status| == |taken|
  {}

  ghost predicate AllGone(ws: seq<Worker>) {
    forall w :: 0 <= w < |ws| ==> ws[w] == Gone
  }

  /** Every job succeeded, and was taken exactly once. */
  ghost predicate AllDone(status: seq<Status>, taken: seq<nat>) {
    |status| == |taken| && forall i :: 0 <= i < |status| ==> status[i] == Succeeded && taken[i] == 1
  }

  lemma NothingLeft(ws: seq<Worker>, status: seq<Status>, taken: seq<nat>)
    requires Consistent(ws, status, taken, |status|) && AllGone(ws)
    requires forall i :: 0 <= i < |status| ==> status[i] != Failed
    ensures AllDone(status, taken)
  {
    forall i | 0 <= i < |status| ensures status[i] == Succeeded {
      assert forall w :: !Holds(ws, w, i);
    }
  }

  lemma {:induction false} FreshWorkers(n: nat)
    ensures Weights(Repeated(Waiting, n)) == n && GoneCount(Repeated(Waiting, n)) == 0
  {
    if n > 0 {
      FreshWorkers(n - 1);
      assert Repeated(Waiting, n)[1..] == Repeated(Waiting, n - 1);
    }
  }
}
