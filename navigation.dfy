/** The navigator as a state machine over values: the four operations of
    gitq.py as functions from the pair of stacks to the new pair and the
    commit to check out, and what they promise, as lemmas. */
module Navigation {
  import opened History

  /** The two persisted stacks (`.gitq/forward_queue.json` and
      `.gitq/backward_queue.json`); the last element of each is its top. */
  datatype Queues = Queues(forward: seq<Commit>, backward: seq<Commit>)

  /** What an operation asks git to do, or why it does nothing. */
  datatype Outcome =
    | CheckOut(commit: Commit)   // run `git checkout commit`
    | CommitNotFound             // the target is not in the history
    | NoHistory                  // nothing to undo, or nothing to redo

  datatype Step = Step(queues: Queues, outcome: Outcome)

  /** The branch at gitq.py:55, as written: drain the newest end when the
      target's first index exceeds `len // 2`. */
  predicate DrainsFront(history: seq<Commit>, target: Commit): (front: bool)
    requires target in history
    ensures front ==> |history| >= 3 && history[0] != target
  {
    IndexOf(history, target) > |history| / 2
  }

  /** `smart_checkout` (gitq.py:41-72) on a history snapshot: the
      value-level definition the checkout lemmas below are about. Each stack
      only ever grows at its top, and at most one of them changes. */
  function CheckoutStep(q: Queues, history: seq<Commit>, target: Commit): (s: Step)
    ensures s.outcome == if target in history then CheckOut(target) else CommitNotFound
    ensures q.forward <= s.queues.forward && q.backward <= s.queues.backward
    ensures s.queues.forward == q.forward || s.queues.backward == q.backward
  {
    if target !in history then Step(q, CommitNotFound)
    else if DrainsFront(history, target) then
      Step(Queues(q.forward, q.backward + history[..IndexOf(history, target)]), CheckOut(target))
    else
      Step(Queues(q.forward + Reversed(history[LastIndexOf(history, target) + 1..]), q.backward),
           CheckOut(target))
  }

  /** `undo` (gitq.py:75-88): the value-level definition the undo lemmas
      below are about. It reports no history exactly when `backward` is
      empty; otherwise the commit it checks out ends on top of `forward`, and
      the two stacks hold as many commits as before. */
  function UndoStep(q: Queues): (s: Step)
    ensures s.outcome == NoHistory <==> q.backward == []
    ensures s.outcome.CheckOut? ==> s.queues.forward == q.forward + [s.outcome.commit]
    ensures |s.queues.forward| + |s.queues.backward| == |q.forward| + |q.backward|
  {
    if q.backward == [] then Step(q, NoHistory)
    else
      var n := |q.backward| - 1;
      Step(Queues(q.forward + [q.backward[n]], q.backward[..n]), CheckOut(q.backward[n]))
  }

  /** `redo` (gitq.py:91-104): the value-level definition the redo lemmas
      below are about. It reports no history exactly when `forward` is empty;
      otherwise the commit it checks out ends on top of `backward`, and the two
      stacks hold as many commits as before. */
  function RedoStep(q: Queues): (s: Step)
    ensures s.outcome == NoHistory <==> q.forward == []
    ensures s.outcome.CheckOut? ==> s.queues.backward == q.backward + [s.outcome.commit]
    ensures |s.queues.forward| + |s.queues.backward| == |q.forward| + |q.backward|
  {
    if q.forward == [] then Step(q, NoHistory)
    else
      var n := |q.forward| - 1;
      Step(Queues(q.forward[..n], q.backward + [q.forward[n]]), CheckOut(q.forward[n]))
  }

  /** How many commits the two stacks hold together, each as often as it occurs. */
  function Contents(q: Queues): multiset<Commit> {
    multiset(q.forward) + multiset(q.backward)
  }

  // ---- checkout ----

  /** A target absent from the history changes nothing and is reported
      (the value-level form of the first ensures of `GitQ.Navigator.Checkout`). */
  lemma CheckoutNotFound(q: Queues, history: seq<Commit>, target: Commit)
    requires target !in history
    ensures CheckoutStep(q, history, target) == Step(q, CommitNotFound)
  {
  }

  /** Target past the midpoint: every commit newer than it is pushed onto
      `backward` in snapshot order, and `forward` is untouched (the
      value-level form of the third ensures of `GitQ.Navigator.Checkout`). */
  lemma CheckoutDrainsFront(q: Queues, history: seq<Commit>, target: Commit)
    requires target in history && IndexOf(history, target) > |history| / 2
    ensures var s := CheckoutStep(q, history, target);
            && s.outcome == CheckOut(target)
            && s.queues.forward == q.forward
            && s.queues.backward == q.backward + history[..IndexOf(history, target)]
  {
  }

  /** Target at or before the midpoint: every commit older than it is pushed
      onto `forward`, oldest first, and `backward` is untouched. With unique
      hashes the commits pushed are `history[index + 1..]` reversed. */
  lemma {:induction false} CheckoutDrainsBack(q: Queues, history: seq<Commit>, target: Commit)
    requires NoDuplicates(history)
    requires target in history && IndexOf(history, target) <= |history| / 2
    ensures var s := CheckoutStep(q, history, target);
            var i := IndexOf(history, target);
            && s.outcome == CheckOut(target)
            && s.queues.backward == q.backward
            && |s.queues.forward| == |q.forward| + |history| - 1 - i
            && s.queues.forward[..|q.forward|] == q.forward
            && forall k :: |q.forward| <= k < |s.queues.forward| ==>
                 s.queues.forward[k] == history[|history| - 1 - (k - |q.forward|)]
  {
    var i := IndexOf(history, target);
    LastIndexOfIsIndexOf(history, target);
    var tail := history[i + 1..];
    forall k | 0 <= k < |history| - 1 - i
      ensures Reversed(tail)[k] == history[|history| - 1 - k]
    {
      ReversedAt(tail, k);
    }
  }

  /** Checkout with unique hashes moves exactly the commits on one side of
      the target into the stacks, and never the target itself. */
  lemma {:induction false} CheckoutAddsOneSide(q: Queues, history: seq<Commit>, target: Commit)
    requires NoDuplicates(history) && target in history
    ensures var i := IndexOf(history, target);
            var added := if DrainsFront(history, target) then history[..i] else history[i + 1..];
            && target !in added
            && Contents(CheckoutStep(q, history, target).queues) == Contents(q) + multiset(added)
  {
    var i := IndexOf(history, target);
    LastIndexOfIsIndexOf(history, target);
    ReversedPermutes(history[i + 1..]);
    assert target !in history[i + 1..] by {
      forall k | i + 1 <= k < |history| ensures history[k] != target {
      }
    }
  }

  /** The walk starts from whichever end the branch picks, not from the
      nearer one. Measured from the target's first occurrence, the newest end
      is chosen only when it is strictly farther than the oldest end, and the
      oldest end is chosen only when it is at most one commit nearer than the
      newest end (one nearer only at the exact midpoint of an even-length
      history). */
  lemma DrainedEndNotNearer(history: seq<Commit>, target: Commit)
    requires target in history
    ensures var i := IndexOf(history, target);
            if DrainsFront(history, target) then i > |history| - 1 - i
            else |history| - 1 - i + 1 >= i
  {
  }

  // ---- undo and redo ----

  /** Undo moves the top of `backward` onto `forward` and checks it out;
      on an empty `backward` it does nothing (the value-level form of the
      first two ensures of `GitQ.Navigator.Undo`). */
  lemma UndoMovesTop(q: Queues)
    ensures var s := UndoStep(q);
            if q.backward == [] then s == Step(q, NoHistory)
            else
              && s.outcome == CheckOut(q.backward[|q.backward| - 1])
              && s.queues.backward + [q.backward[|q.backward| - 1]] == q.backward
              && s.queues.forward == q.forward + [q.backward[|q.backward| - 1]]
  {
  }

  /** Redo moves the top of `forward` onto `backward` and checks it out;
      on an empty `forward` it does nothing (the value-level form of the
      first two ensures of `GitQ.Navigator.Redo`). */
  lemma RedoMovesTop(q: Queues)
    ensures var s := RedoStep(q);
            if q.forward == [] then s == Step(q, NoHistory)
            else
              && s.outcome == CheckOut(q.forward[|q.forward| - 1])
              && s.queues.forward + [q.forward[|q.forward| - 1]] == q.forward
              && s.queues.backward == q.backward + [q.forward[|q.forward| - 1]]
  {
  }

  /** Taking the top off a stack leaves the other commits of it. */
  lemma PopLastContents(s: seq<Commit>)
    requires s != []
    ensures multiset(s) == multiset(s[..|s| - 1]) + multiset{s[|s| - 1]}
  {
    assert s == s[..|s| - 1] + [s[|s| - 1]];
  }

  /** Undo only moves a commit between the stacks. */
  lemma UndoKeepsContents(q: Queues)
    ensures Contents(UndoStep(q).queues) == Contents(q)
  {
    if q.backward != [] {
      PopLastContents(q.backward);
    }
  }

  /** Redo only moves a commit between the stacks. */
  lemma RedoKeepsContents(q: Queues)
    ensures Contents(RedoStep(q).queues) == Contents(q)
  {
    if q.forward != [] {
      PopLastContents(q.forward);
    }
  }

  /** Redo right after a successful undo restores both stacks and checks out
      the commit that the undo left. */
  lemma RedoUndoesUndo(q: Queues)
    requires q.backward != []
    ensures RedoStep(UndoStep(q).queues).queues == q
    ensures RedoStep(UndoStep(q).queues).outcome == UndoStep(q).outcome
  {
  }

  /** Undo right after a successful redo restores both stacks. */
  lemma UndoUndoesRedo(q: Queues)
    requires q.forward != []
    ensures UndoStep(RedoStep(q).queues).queues == q
    ensures UndoStep(RedoStep(q).queues).outcome == RedoStep(q).outcome
  {
  }

  /** After a checkout that drained the newest end, undo checks out the
      commit just newer than the target. */
  lemma UndoAfterDrainingFront(q: Queues, history: seq<Commit>, target: Commit)
    requires target in history && DrainsFront(history, target)
    ensures UndoStep(CheckoutStep(q, history, target).queues).outcome
            == CheckOut(history[IndexOf(history, target) - 1])
  {
  }

  /** After a checkout that drained the oldest end past at least one commit,
      redo checks out the commit just older than the target. */
  lemma RedoAfterDrainingBack(q: Queues, history: seq<Commit>, target: Commit)
    requires target in history && !DrainsFront(history, target)
    requires LastIndexOf(history, target) < |history| - 1
    ensures RedoStep(CheckoutStep(q, history, target).queues).outcome
            == CheckOut(history[LastIndexOf(history, target) + 1])
  {
  }

  /** Six commits, newest first, and a checkout of `C2` (index 3, midpoint
      3): the oldest end is drained, so `forward` receives `C0` then `C1`;
      undo then finds nothing, and redo returns to `C1`. */
  lemma SixCommitSession()
    ensures var history := ["C5", "C4", "C3", "C2", "C1", "C0"];
            var c := CheckoutStep(Queues([], []), history, "C2");
            && c == Step(Queues(["C0", "C1"], []), CheckOut("C2"))
            && UndoStep(c.queues) == Step(c.queues, NoHistory)
            && RedoStep(c.queues) == Step(Queues(["C0"], ["C1"]), CheckOut("C1"))
  {
  }
}
