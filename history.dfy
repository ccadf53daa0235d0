/** The newest-first commit history that `git log --pretty=format:%H` lists,
    the two searches the checkout makes in it, and the two loops that drain
    it from one end. */
module History {

  /** A commit hash. */
  type Commit = string

  /** Git hashes are unique: no commit occurs twice in one snapshot. */
  predicate NoDuplicates(s: seq<Commit>) {
    forall i, j :: 0 <= i < j < |s| ==> s[i] != s[j]
  }

  /** The position that `deque.index` reports: the first occurrence of `x`. */
  function IndexOf(s: seq<Commit>, x: Commit): (i: nat)
    requires x in s
    ensures i < |s| && s[i] == x
    ensures forall j :: 0 <= j < i ==> s[j] != x
  {
    if s[0] == x then 0 else 1 + IndexOf(s[1..], x)
  }

  /** The last occurrence of `x`: where a loop that pops from the oldest end
      until that end equals `x` stops. */
  function LastIndexOf(s: seq<Commit>, x: Commit): (i: nat)
    requires x in s
    ensures i < |s| && s[i] == x
    ensures forall j :: i < j < |s| ==> s[j] != x
  {
    var n := |s| - 1;
    if s[n] == x then n
    else
      assert s == s[..n] + [s[n]];
      LastIndexOf(s[..n], x)
  }

  /** In a snapshot without duplicates the first and the last occurrence coincide. */
  lemma LastIndexOfIsIndexOf(s: seq<Commit>, x: Commit)
    requires NoDuplicates(s) && x in s
    ensures LastIndexOf(s, x) == IndexOf(s, x)
  {
  }

  /** `s` read from its last element to its first. */
  function Reversed(s: seq<Commit>): (r: seq<Commit>)
    ensures |r| == |s|
  {
    if s == [] then [] else Reversed(s[1..]) + [s[0]]
  }

  lemma {:induction false} ReversedAt(s: seq<Commit>, k: nat)
    requires k < |s|
    ensures Reversed(s)[k] == s[|s| - 1 - k]
  {
    if k < |s| - 1 {
      ReversedAt(s[1..], k);
    }
  }

  /** Reversing only reorders: the same commits, each as often. */
  lemma {:induction false} ReversedPermutes(s: seq<Commit>)
    ensures multiset(Reversed(s)) == multiset(s)
  {
    if s != [] {
      ReversedPermutes(s[1..]);
      assert s == [s[0]] + s[1..];
    }
  }

  /** The loop at gitq.py:57-59: while the front of the deque is not the
      target, pop it from the front and append it to `queue`. It stops at the
      first occurrence of the target, having appended every commit newer than
      it, newest first. */
  method PopLeftUntil(commits: seq<Commit>, target: Commit, queue: seq<Commit>)
    returns (remaining: seq<Commit>, appended: seq<Commit>)
    requires target in commits
    ensures |remaining| > 0 && remaining[0] == target
    ensures remaining == commits[IndexOf(commits, target)..]
    ensures appended == queue + commits[..IndexOf(commits, target)]
  {
    remaining, appended := commits, queue;
    ghost var popped: nat := 0;
    while remaining[0] != target
      invariant popped <= IndexOf(commits, target)
      invariant remaining == commits[popped..]
      invariant appended == queue + commits[..popped]
      decreases |remaining|
    {
      var commit := remaining[0];
      remaining := remaining[1..];
      appended := appended + [commit];
      popped := popped + 1;
    }
  }

  /** The loop at gitq.py:62-64: while the back of the deque is not the
      target, pop it from the back and append it to `queue`. It stops at the
      last occurrence of the target, having appended every commit older than
      it, oldest first. */
  method PopRightUntil(commits: seq<Commit>, target: Commit, queue: seq<Commit>)
    returns (remaining: seq<Commit>, appended: seq<Commit>)
    requires target in commits
    ensures |remaining| > 0 && remaining[|remaining| - 1] == target
    ensures remaining == commits[..LastIndexOf(commits, target) + 1]
    ensures appended == queue + Reversed(commits[LastIndexOf(commits, target) + 1..])
  {
    remaining, appended := commits, queue;
    ghost var kept := |commits|;
    while remaining[|remaining| - 1] != target
      invariant LastIndexOf(commits, target) < kept <= |commits|
      invariant remaining == commits[..kept]
      invariant appended == queue + Reversed(commits[kept..])
      decreases |remaining|
    {
      var commit := remaining[|remaining| - 1];
      remaining := remaining[..|remaining| - 1];
      appended := appended + [commit];
      kept := kept - 1;
      assert commits[kept..][1..] == commits[kept + 1..];
    }
  }
}
