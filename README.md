# gitq navigator, modelled in Dafny

`gitq` adds undo and redo to `git checkout`. It keeps two stacks of commit
hashes, one persisted in `.gitq/forward_queue.json` and one in
`.gitq/backward_queue.json`. Four commands change them:

- `checkout <target>` finds the target in the newest-first commit list
  (`git log --pretty=format:%H`) and compares its index with `len // 2`.
  If the index is greater, it pops commits off the newest end until that end
  is the target, pushing each one onto the backward stack. Otherwise it pops
  off the oldest end until that end is the target, pushing each one onto the
  forward stack.
- `undo` moves the top of the backward stack onto the forward stack and checks
  that commit out.
- `redo` does the same from the forward stack onto the backward stack.
- `reset` empties both stacks.

The model has three modules:

- `History` (history.dfy) has the commit list, the two lookups the checkout
  relies on, and its two drain loops. `IndexOf` is `deque.index`, the first
  occurrence. `LastIndexOf` is where the oldest-end loop stops. The loops are
  `PopLeftUntil` and `PopRightUntil`, each a `while` loop over a local copy of
  the deque. They append to the loaded stack, as gitq.py:57-64 does.
- `Navigation` (navigation.dfy) describes checkout, undo and redo as
  functions on values (`CheckoutStep`, `UndoStep`, `RedoStep`), taking the
  pair of stacks to the new pair and an `Outcome`. The `Outcome` is either the commit to check out,
  `CommitNotFound` or `NoHistory`. The lemmas in this module state the
  properties.
- `GitQ` (gitq.dfy) has the class `Navigator`. Its two `seq` fields, `forward`
  and `backward`, stand for the two JSON files. `load_queue` is a read of a
  field and `save_queue` a write. Each command is a method with `modifies this`
  whose `ensures` gives the new stacks explicitly. For checkout, undo and redo
  it also ties the new stacks and the outcome to the matching step function;
  `Reset` has no outcome and states its new stacks outright.

Notes on how the model reads the code:

- The branch is `index > mid` exactly as written at gitq.py:55. The comments
  at gitq.py:56 and gitq.py:61 name the opposite ends, and the model follows
  the code. `DrainedEndNotNearer` shows what the branch means. When the target
  lies past the midpoint, the walk starts from the newest end, the end farther
  from the target.
- Checkout does not require the history to be free of duplicates. The
  newest-end loop stops at the first occurrence of the target, the one that
  `commits.index` finds. The oldest-end loop stops at the last occurrence.
  `LastIndexOfIsIndexOf` shows that the two agree when hashes are unique. The
  lemmas that speak of `history[index + 1..]` assume unique hashes.
- Undo followed by redo restores both stacks, but it need not go back to the
  commit that was checked out before the undo. Redo checks out the commit the
  undo moved (gitq.py:80, 96), which is the commit the undo itself checked
  out. So the pair goes back only when that commit was the top of `backward`,
  as it is right after a redo. `RedoUndoesUndo` states both facts.

## Model

| member | source | states |
|---|---|---|
| `History.IndexOf` | gitq.py:52 | the index it returns holds the target, and no earlier position does (first occurrence, as `deque.index`) |
| `History.LastIndexOf` | gitq.py:62 | the index it returns holds the target, and no later position does (where the oldest-end loop stops) |
| `History.LastIndexOfIsIndexOf` | gitq.py:52-62 | with unique hashes, the first and last occurrence of the target coincide |
| `History.Reversed` | gitq.py:62-64 | reversing keeps the length |
| `History.ReversedAt` | gitq.py:62-64 | element `k` of the reversal is element `n-1-k` of the original |
| `History.ReversedPermutes` | gitq.py:62-64 | reversing keeps the same commits with the same multiplicities |
| `History.PopLeftUntil` | gitq.py:57-59 | the loop stops with the target at the front; what remains is the deque from the target's first index on; the stack gains `history[..index]` in order |
| `History.PopRightUntil` | gitq.py:62-64 | the loop stops with the target at the back; what remains ends at the target's last occurrence; the stack gains the older commits, oldest first |
| `Navigation.DrainsFront` | gitq.py:55 | the branch as written; when it picks the newest end, the history has at least three commits and its newest is not the target, so the loop at gitq.py:57 pops at least once |
| `Navigation.CheckoutStep` | gitq.py:41-72 | the value-level definition of checkout that the checkout lemmas are about; the outcome is the target exactly when it is in the history, else not-found; each stack keeps its old contents as a prefix, and at most one of them changes |
| `Navigation.UndoStep` | gitq.py:75-88 | the value-level definition of undo that the undo lemmas are about; it reports no history exactly when `backward` is empty; the commit it checks out ends on top of `forward`; the total number of commits is kept |
| `Navigation.RedoStep` | gitq.py:91-104 | the value-level definition of redo that the redo lemmas are about; it reports no history exactly when `forward` is empty; the commit it checks out ends on top of `backward`; the total number of commits is kept |
| `Navigation.CheckoutNotFound` | gitq.py:44-47 | a target missing from the history leaves both stacks unchanged and reports not-found |
| `Navigation.CheckoutDrainsFront` | gitq.py:52-59 | when the index is greater than `len // 2`, `backward` becomes old `backward` + `history[..index]`, `forward` is unchanged, and the target is checked out |
| `Navigation.CheckoutDrainsBack` | gitq.py:52-64 | when the index is at most `len // 2` (unique hashes), `backward` is unchanged; `forward` keeps its old prefix and gains `history[index+1..]` in reverse, each element given explicitly |
| `Navigation.CheckoutAddsOneSide` | gitq.py:52-64 | with unique hashes, checkout adds exactly the commits on one side of the target to the stacks, and never the target itself |
| `Navigation.DrainedEndNotNearer` | gitq.py:55-64 | for any history holding the target, measured from its first occurrence: whenever the branch as written drains the newest end, that end is strictly farther from the target than the oldest end; when it drains the oldest end, that end is at most one commit nearer than the newest end |
| `Navigation.UndoMovesTop` | gitq.py:75-88 | undo on an empty `backward` changes nothing and reports no history; otherwise it removes the top `c` of `backward`, appends `c` to `forward` and checks `c` out |
| `Navigation.RedoMovesTop` | gitq.py:91-104 | the mirror image of undo, from `forward` to `backward` |
| `Navigation.UndoKeepsContents` | gitq.py:75-88 | undo leaves the multiset of commits held by the two stacks together unchanged |
| `Navigation.RedoKeepsContents` | gitq.py:91-104 | redo leaves the multiset of commits held by the two stacks together unchanged |
| `Navigation.RedoUndoesUndo` | gitq.py:75-104 | after a successful undo, redo restores both stacks exactly and checks out the same commit as the undo |
| `Navigation.UndoUndoesRedo` | gitq.py:75-104 | after a successful redo, undo restores both stacks exactly and checks out the same commit as the redo |
| `Navigation.UndoAfterDrainingFront` | gitq.py:55-80 | after a checkout that drained the newest end, undo checks out the commit just newer than the target |
| `Navigation.RedoAfterDrainingBack` | gitq.py:60-96 | after a checkout that drained the oldest end past at least one commit, redo checks out the commit just older than the target |
| `Navigation.SixCommitSession` | gitq.py:41-104 | on `[C5..C0]`, checking out `C2` gives `forward = [C0, C1]`; undo then reports no history; redo checks out `C1`, leaving `forward = [C0]` and `backward = [C1]` |
| `GitQ.Navigator.constructor` | gitq.py:24-28 | with no persisted files, both stacks are empty |
| `GitQ.Navigator.Checkout` | gitq.py:41-72 | not-found leaves both stacks unchanged; otherwise the target is checked out and at most one stack changes: `backward` by `history[..index]` or `forward` by the reversed older commits (possibly none), chosen by `index > len // 2` |
| `GitQ.Navigator.Undo` | gitq.py:75-88 | empty `backward`: nothing changes and no history is reported; otherwise its top moves to `forward` and is checked out; the total length is preserved |
| `GitQ.Navigator.Redo` | gitq.py:91-104 | empty `forward`: nothing changes and no history is reported; otherwise its top moves to `backward` and is checked out; the total length is preserved |
| `GitQ.Navigator.Reset` | gitq.py:107-110 | both stacks are empty afterwards, whatever they held |

## Left out

- `run_git_command` and `get_commit_list` (gitq.py:14-21) are calls to the
  external `git` binary. The history is a parameter of `Checkout`, and the
  commit to check out is the method's result. A failing `git checkout` is not
  modelled, so neither is the lack of rollback after the stacks are saved.
- `reset` before any `checkout` fails in the source, because only
  `smart_checkout` creates `.gitq` (gitq.py:42), so the write at gitq.py:108
  finds no directory. The model's `Reset` succeeds from every state, including
  the constructor's. The stacks read as empty either way.
- File I/O in `load_queue`, `save_queue` and `ensure_gitq_dir` (gitq.py:24-38)
  is not modelled. The two JSON files are the two fields, so corrupt JSON,
  storage errors and the directory creation are not modelled either.
- `main` and the argparse dispatch (gitq.py:113-139) are command-line
  plumbing.
- The `print` messages (gitq.py:46, 70-72, 78, 88, 94, 104, 110) are
  informational only. The model reports each message's meaning as an
  `Outcome`.
- Concurrent invocations racing on the two files are not modelled. The tool
  does not support them.
- setup.py is packaging metadata with no logic.
