/** The navigator of gitq.py: the two persisted stacks as fields of an
    object, and the four commands as methods that update them. Loading a
    stack with `load_queue` is a read of its field and saving it with
    `save_queue` a write; the `git checkout` a command asks for is its
    result. */
module GitQ {
  import opened History
  import opened Navigation

  class Navigator {
    /** `.gitq/forward_queue.json`: commits `redo` can return to; top last. */
    var forward: seq<Commit>
    /** `.gitq/backward_queue.json`: commits `undo` can return to; top last. */
    var backward: seq<Commit>

    function State(): Queues
      reads this
    {
      Queues(forward, backward)
    }

    /** No persisted stacks yet: `load_queue` of a missing file is `[]`. */
    constructor ()
      ensures forward == [] && backward == []
    {
      forward, backward := [], [];
    }

    /** `smart_checkout(target)` (gitq.py:41-72) on the snapshot `history`
        that `get_commit_list` would return, newest first. */
    method Checkout(history: seq<Commit>, target: Commit) returns (r: Outcome)
      modifies this
      ensures target !in history ==>
                r == CommitNotFound && forward == old(forward) && backward == old(backward)
      ensures target in history ==> r == CheckOut(target)
      ensures target in history && IndexOf(history, target) > |history| / 2 ==>
                && forward == old(forward)
                && backward == old(backward) + history[..IndexOf(history, target)]
      ensures target in history && IndexOf(history, target) <= |history| / 2 ==>
                && backward == old(backward)
                && forward == old(forward) + Reversed(history[LastIndexOf(history, target) + 1..])
      ensures Step(State(), r) == CheckoutStep(old(State()), history, target)
    {
      if target !in history {
        return CommitNotFound;
      }
      var forwardQueue := forward;
      var backwardQueue := backward;
      var commits := history;
      var index := IndexOf(commits, target);
      var mid := |commits| / 2;
      if index > mid {
        commits, backwardQueue := PopLeftUntil(commits, target, backwardQueue);
      } else {
        commits, forwardQueue := PopRightUntil(commits, target, forwardQueue);
      }
      forward := forwardQueue;
      backward := backwardQueue;
      r := CheckOut(target);
    }

    /** `undo()` (gitq.py:75-88). */
    method Undo() returns (r: Outcome)
      modifies this
      ensures old(backward) == [] ==>
                r == NoHistory && forward == old(forward) && backward == old(backward)
      ensures old(backward) != [] ==>
                var c := old(backward)[|old(backward)| - 1];
                && r == CheckOut(c)
                && backward + [c] == old(backward)
                && forward == old(forward) + [c]
      ensures |forward| + |backward| == old(|forward| + |backward|)
      ensures Step(State(), r) == UndoStep(old(State()))
    {
      var backwardQueue := backward;
      if backwardQueue == [] {
        return NoHistory;
      }
      var lastCommit := backwardQueue[|backwardQueue| - 1];
      backwardQueue := backwardQueue[..|backwardQueue| - 1];
      backward := backwardQueue;
      var forwardQueue := forward;
      forwardQueue := forwardQueue + [lastCommit];
      forward := forwardQueue;
      r := CheckOut(lastCommit);
    }

    /** `redo()` (gitq.py:91-104). */
    method Redo() returns (r: Outcome)
      modifies this
      ensures old(forward) == [] ==>
                r == NoHistory && forward == old(forward) && backward == old(backward)
      ensures old(forward) != [] ==>
                var c := old(forward)[|old(forward)| - 1];
                && r == CheckOut(c)
                && forward + [c] == old(forward)
                && backward == old(backward) + [c]
      ensures |forward| + |backward| == old(|forward| + |backward|)
      ensures Step(State(), r) == RedoStep(old(State()))
    {
      var forwardQueue := forward;
      if forwardQueue == [] {
        return NoHistory;
      }
      var nextCommit := forwardQueue[|forwardQueue| - 1];
      forwardQueue := forwardQueue[..|forwardQueue| - 1];
      forward := forwardQueue;
      var backwardQueue := backward;
      backwardQueue := backwardQueue + [nextCommit];
      backward := backwardQueue;
      r := CheckOut(nextCommit);
    }

    /** `reset()` (gitq.py:107-110): both stacks overwritten with `[]`. */
    method Reset()
      modifies this
      ensures forward == [] && backward == []
    {
      forward := [];
      backward := [];
    }
  }
}
