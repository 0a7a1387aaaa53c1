/** The queue that carries what waits for the person from the engine to Android.

    Every add and every take runs under the queue's mutex, so a run is a sequence of them in
    any order; a take runs once there is something to take. */
module BlockedPrograms {

  datatype Change = Change(session: string, status: string)

  /** The queue after an add: a change not taken yet is replaced where it stands. */
  function AddTo(pending: seq<Change>, change: Change): seq<Change> {
    if pending == [] then [change]
    else if pending[0].session == change.session then [change] + pending[1..]
    else [pending[0]] + AddTo(pending[1..], change)
  }

  class BlockedProgramQueue {
    var pending: seq<Change>

    constructor ()
      ensures pending == []
    {
      pending := [];
    }

    method Add(change: Change)
      modifies this
      ensures pending == AddTo(old(pending), change)
    {
      for index := 0 to |pending|
        invariant pending == old(pending)
        invariant AddTo(pending, change) == pending[..index] + AddTo(pending[index..], change)
      {
        if pending[index].session == change.session {
          assert pending[..index] + ([change] + pending[index..][1..]) == pending[index := change];
          pending := pending[index := change];
          return;
        }
        assert pending[index..][1..] == pending[index + 1..];
        assert pending[..index] + [pending[index]] == pending[..index + 1];
      }
      pending := pending + [change];
    }

    /** The wait of take ends when there is something pending. */
    method Take() returns (change: Change)
      requires pending != []
      modifies this
      ensures old(pending) == [change] + pending
    {
      change := pending[0];
      pending := pending[1..];
    }
  }

  // -------------------------------------------------------------------- whole runs

  datatype Step = Add(change: Change) | Take

  datatype Run = Run(added: seq<Change>, pending: seq<Change>, taken: seq<Change>)

  ghost function Stepped(r: Run, s: Step): Run {
    match s
    case Add(c) => Run(r.added + [c], AddTo(r.pending, c), r.taken)
    case Take => if r.pending == [] then r else Run(r.added, r.pending[1..], r.taken + [r.pending[0]])
  }

  ghost function After(steps: seq<Step>): Run {
    if steps == [] then Run([], [], []) else Stepped(After(steps[..|steps| - 1]), steps[|steps| - 1])
  }

  /** The changes of one session, in order. */
  function Of(s: string, changes: seq<Change>): seq<Change> {
    if changes == [] then []
    else (if changes[0].session == s then [changes[0]] else []) + Of(s, changes[1..])
  }

  lemma {:induction false} OfAppend(s: string, a: seq<Change>, b: seq<Change>)
    ensures Of(s, a + b) == Of(s, a) + Of(s, b)
  {
    if a == [] {
      assert a + b == b;
    } else {
      OfAppend(s, a[1..], b);
      assert (a + b)[1..] == a[1..] + b && (a + b)[0] == a[0];
    }
  }

  /** a is b with some elements left out. */
  ghost predicate Thinned(a: seq<Change>, b: seq<Change>)
    decreases |b|
  {
    a == [] ||
    (b != [] &&
     ((a[|a| - 1] == b[|b| - 1] && Thinned(a[..|a| - 1], b[..|b| - 1])) || Thinned(a, b[..|b| - 1])))
  }

  lemma {:induction false} ThinnedShorter(a: seq<Change>, b: seq<Change>)
    requires a != [] && Thinned(a, b)
    ensures Thinned(a[..|a| - 1], b)
    decreases |b|
  {
    var front := b[..|b| - 1];
    if Thinned(a, front) {
      ThinnedShorter(a, front);
    }
    assert Thinned(a[..|a| - 1], front);
  }

  /** An add replaces the session's own change, if there is one, and touches no other. */
  lemma {:induction false} AddToOf(pending: seq<Change>, c: Change, s: string)
    requires |Of(c.session, pending)| <= 1
    ensures Of(s, AddTo(pending, c)) == if s == c.session then [c] else Of(s, pending)
  {
    if pending != [] {
      if pending[0].session == c.session {
        assert ([c] + pending[1..])[1..] == pending[1..];
      } else {
        AddToOf(pending[1..], c, s);
        assert AddTo(pending, c)[1..] == AddTo(pending[1..], c);
      }
    }
  }

  lemma ThinnedSnoc(a: seq<Change>, b: seq<Change>, c: Change)
    requires Thinned(a, b)
    ensures Thinned(a + [c], b + [c])
  {
    assert (a + [c])[..|a|] == a && (b + [c])[..|b|] == b;
  }

  /** What was seen of a session is some of all there was, and ends with the latest. */
  ghost predicate UpToDate(seen: seq<Change>, all: seq<Change>) {
    && Thinned(seen, all)
    && (all == [] <==> seen == [])
    && (all != [] ==> seen[|seen| - 1] == all[|all| - 1])
  }

  /** Either the front of what was seen, or all of it, and then one more that is new. */
  lemma Overwritten(taken: seq<Change>, waiting: seq<Change>, all: seq<Change>, c: Change)
    requires UpToDate(taken + waiting, all) && |waiting| <= 1
    ensures UpToDate(taken + [c], all + [c])
  {
    if waiting != [] {
      ThinnedShorter(taken + waiting, all);
      assert (taken + waiting)[..|taken + waiting| - 1] == taken;
    } else {
      assert taken + waiting == taken;
    }
    ThinnedSnoc(taken, all, c);
  }

  ghost predicate Keeps(r: Run, s: string) {
    |Of(s, r.pending)| <= 1 && UpToDate(Of(s, r.taken) + Of(s, r.pending), Of(s, r.added))
  }

  lemma StepKeeps(r: Run, step: Step, s: string)
    requires Keeps(r, s) && (step.Add? ==> Keeps(r, step.change.session))
    ensures Keeps(Stepped(r, step), s)
  {
    hide UpToDate;
    match step {
      case Add(c) =>
        AddToOf(r.pending, c, s);
        OfAppend(s, r.added, [c]);
        if s == c.session {
          assert Of(s, [c]) == [c];
          Overwritten(Of(s, r.taken), Of(s, r.pending), Of(s, r.added), c);
        } else {
          assert Of(s, [c]) == [];
          assert Of(s, r.added) + [] == Of(s, r.added);
        }
      case Take =>
        if r.pending != [] {
          var first, others := [r.pending[0]], r.pending[1..];
          assert r.pending == first + others;
          OfAppend(s, first, others);
          OfAppend(s, r.taken, first);
          assert Of(s, r.taken) + (Of(s, first) + Of(s, others)) == (Of(s, r.taken) + Of(s, first)) + Of(s, others);
        }
    }
  }

  /** In every run: a session has at most one change pending; what the reader has taken for
      it and what is pending are, in this order, some of what was added for it, and end with
      the latest. */
  lemma {:induction false} EveryRun(steps: seq<Step>, s: string)
    ensures var r := After(steps);
            && |Of(s, r.pending)| <= 1
            && UpToDate(Of(s, r.taken) + Of(s, r.pending), Of(s, r.added))
    decreases |steps|
  {
    if steps != [] {
      var front, step := steps[..|steps| - 1], steps[|steps| - 1];
      EveryRun(front, s);
      if step.Add? {
        EveryRun(front, step.change.session);
      }
      hide Of, UpToDate, Stepped;
      StepKeeps(After(front), step, s);
    }
  }

  /** Once a session has nothing pending, the last change taken for it is its latest. */
  lemma DrainedIsLatest(steps: seq<Step>, s: string)
    requires Of(s, After(steps).pending) == [] && Of(s, After(steps).added) != []
    ensures var taken, added := Of(s, After(steps).taken), Of(s, After(steps).added);
            UpToDate(taken, added) && taken != []
  {
    EveryRun(steps, s);
    var taken := Of(s, After(steps).taken);
    assert taken + [] == taken;
  }

  function Takes(steps: seq<Step>): nat {
    if steps == [] then 0 else Takes(steps[..|steps| - 1]) + if steps[|steps| - 1].Take? then 1 else 0
  }

  lemma {:induction false} AddToKeeps(pending: seq<Change>, c: Change, i: nat)
    requires i < |pending|
    ensures i < |AddTo(pending, c)| && AddTo(pending, c)[i].session == pending[i].session
  {
    if pending[0].session != c.session && i > 0 {
      AddToKeeps(pending[1..], c, i - 1);
    }
  }

  /** No add holds a session up: one at position i of the queue is at its front once i takes
      have been made, however many adds came between, and so goes with the next. */
  lemma {:induction false} NeverOvertaken(before: seq<Step>, steps: seq<Step>, i: nat)
    requires i < |After(before).pending| && Takes(steps) <= i
    ensures var left := After(before + steps).pending;
            i - Takes(steps) < |left| && left[i - Takes(steps)].session == After(before).pending[i].session
    decreases |steps|
  {
    if steps == [] {
      assert before + steps == before;
    } else {
      var front, step := steps[..|steps| - 1], steps[|steps| - 1];
      NeverOvertaken(before, front, i);
      assert (before + steps)[..|before + steps| - 1] == before + front;
      var r := After(before + front);
      assert After(before + steps) == Stepped(r, step);
      assert Takes(steps) == Takes(front) + if step.Take? then 1 else 0;
      hide After, Takes;
      if step.Add? {
        AddToKeeps(r.pending, step.change, i - Takes(front));
      }
    }
  }
}
