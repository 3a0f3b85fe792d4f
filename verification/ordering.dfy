/**
 * `ORDER BY t.created_at DESC`: the order in which the repository lists
 * tasks. SQL leaves the order of equal timestamps open; this model keeps
 * such tasks in the order it found them.
 */
module Ordering {
  import opened Models

  /** No task is created later than one listed before it. */
  predicate NewestFirst(s: seq<Task>) {
    forall i, j :: 0 <= i < j < |s| ==> s[i].createdAt >= s[j].createdAt
  }

  /** Places `t` after every task created later than it. */
  function InsertNewestFirst(t: Task, s: seq<Task>): (r: seq<Task>)
    ensures multiset(r) == multiset(s) + multiset{t}
    ensures forall x :: x in r <==> x == t || x in s
  {
    if s == [] || t.createdAt >= s[0].createdAt then
      [t] + s
    else
      assert s == [s[0]] + s[1..];
      [s[0]] + InsertNewestFirst(t, s[1..])
  }

  /** A task no older than any task of a newest-first list can head it. */
  lemma ConsNewestFirst(first: Task, rest: seq<Task>)
    requires NewestFirst(rest)
    requires forall x :: x in rest ==> x.createdAt <= first.createdAt
    ensures NewestFirst([first] + rest)
  {
    var r := [first] + rest;
    forall i, j | 0 <= i < j < |r| ensures r[i].createdAt >= r[j].createdAt {
      assert r[j] == rest[j - 1];
      if i > 0 {
        assert r[i] == rest[i - 1];
      }
    }
  }

  /** Inserting into a newest-first list keeps it newest first. */
  lemma {:induction false} InsertKeepsNewestFirst(t: Task, s: seq<Task>)
    requires NewestFirst(s)
    ensures NewestFirst(InsertNewestFirst(t, s))
  {
    if s != [] && t.createdAt < s[0].createdAt {
      var rest := InsertNewestFirst(t, s[1..]);
      InsertKeepsNewestFirst(t, s[1..]);
      forall x | x in rest ensures x.createdAt <= s[0].createdAt {
        if x != t {
          var k :| 0 <= k < |s[1..]| && s[1..][k] == x;
          assert s[k + 1] == x;
        }
      }
      ConsNewestFirst(s[0], rest);
    }
  }

  /** Sorts tasks newest first. */
  function SortNewestFirst(s: seq<Task>): (r: seq<Task>)
    ensures NewestFirst(r)
    ensures multiset(r) == multiset(s)
  {
    if s == [] then []
    else
      assert s == [s[0]] + s[1..];
      var sorted := SortNewestFirst(s[1..]);
      InsertKeepsNewestFirst(s[0], sorted);
      InsertNewestFirst(s[0], sorted)
  }

  /** Sorting neither loses, duplicates nor invents a task. */
  lemma SortKeepsTasks(s: seq<Task>)
    ensures |SortNewestFirst(s)| == |s|
    ensures forall t :: t in SortNewestFirst(s) <==> t in s
  {
    var r := SortNewestFirst(s);
    assert |multiset(r)| == |multiset(s)|;
    forall t ensures t in r <==> t in s {
      assert t in r <==> t in multiset(r);
      assert t in s <==> t in multiset(s);
    }
  }
}
