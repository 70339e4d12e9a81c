/** Walks over an adjacency function, shared by every search and carve in
    the project: what a walk is, what "reachable" means, and the layering
    facts a breadth-first search keeps. The adjacency `adj(u)` is the list of
    neighbours a search asks for when it stands on `u`. */
module Walks {

  /** `w` is a non-empty walk: each step goes to a listed neighbour. */
  ghost predicate IsWalk<T(!new)>(adj: T -> seq<T>, w: seq<T>) {
    |w| >= 1 && forall i :: 0 <= i < |w| - 1 ==> w[i + 1] in adj(w[i])
  }

  ghost predicate WalkBetween<T(!new)>(adj: T -> seq<T>, w: seq<T>, s: T, t: T) {
    IsWalk(adj, w) && w[0] == s && w[|w| - 1] == t
  }

  /** No element occurs twice. */
  predicate NoRepeat<T(==)>(w: seq<T>) {
    forall i, j :: 0 <= i < j < |w| ==> w[i] != w[j]
  }

  ghost predicate Reachable<T(!new)>(adj: T -> seq<T>, s: T, t: T) {
    exists w :: WalkBetween(adj, w, s, t)
  }

  /** Every neighbour of a member of `S` is in `S`. */
  ghost predicate ClosedUnder<T(!new)>(adj: T -> seq<T>, S: set<T>) {
    forall u, v :: u in S && v in adj(u) ==> v in S
  }

  /** A walk that starts inside a closed set never leaves it. */
  lemma {:induction false} ClosedContainsWalk<T(!new)>(adj: T -> seq<T>, S: set<T>, w: seq<T>)
    requires ClosedUnder(adj, S)
    requires IsWalk(adj, w) && w[0] in S
    ensures forall i :: 0 <= i < |w| ==> w[i] in S
    ensures w[|w| - 1] in S
  {
    if |w| > 1 {
      assert w[1] in adj(w[0]);
      var tail := w[1..];
      forall i | 0 <= i < |tail| - 1 ensures tail[i + 1] in adj(tail[i]) {
        assert tail[i + 1] == w[i + 2] && tail[i] == w[i + 1];
      }
      ClosedContainsWalk(adj, S, tail);
      forall i | 0 <= i < |w| ensures w[i] in S {
        if i > 0 { assert w[i] == tail[i - 1]; }
      }
    }
  }

  /** So no walk leads from inside a closed set to outside it. */
  lemma ClosedSetBlocks<T(!new)>(adj: T -> seq<T>, S: set<T>, s: T, t: T)
    requires ClosedUnder(adj, S) && s in S && t !in S
    ensures !Reachable(adj, s, t)
  {
    if Reachable(adj, s, t) {
      var w :| WalkBetween(adj, w, s, t);
      ClosedContainsWalk(adj, S, w);
    }
  }

  /** Appending one step to a walk. */
  lemma WalkExtend<T(!new)>(adj: T -> seq<T>, w: seq<T>, v: T)
    requires IsWalk(adj, w) && v in adj(w[|w| - 1])
    ensures IsWalk(adj, w + [v])
  {
    var w' := w + [v];
    forall i | 0 <= i < |w'| - 1 ensures w'[i + 1] in adj(w'[i]) {
      if i < |w| - 1 { assert w'[i + 1] == w[i + 1] && w'[i] == w[i]; }
    }
  }

  /** Prepending one step to a walk. */
  lemma WalkPrepend<T(!new)>(adj: T -> seq<T>, u: T, w: seq<T>)
    requires IsWalk(adj, w) && w[0] in adj(u)
    ensures IsWalk(adj, [u] + w)
  {
    var w' := [u] + w;
    forall i | 0 <= i < |w'| - 1 ensures w'[i + 1] in adj(w'[i]) {
      if i > 0 { assert w'[i + 1] == w[i] && w'[i] == w[i - 1]; }
    }
  }

  /** A prefix of a walk is a walk. */
  lemma WalkPrefix<T(!new)>(adj: T -> seq<T>, w: seq<T>, k: nat)
    requires IsWalk(adj, w) && 1 <= k <= |w|
    ensures IsWalk(adj, w[..k])
  {
    var p := w[..k];
    forall i | 0 <= i < |p| - 1 ensures p[i + 1] in adj(p[i]) {
      assert p[i + 1] == w[i + 1] && p[i] == w[i];
    }
  }

  /** A suffix of a walk is a walk. */
  lemma WalkSuffix<T(!new)>(adj: T -> seq<T>, w: seq<T>, k: nat)
    requires IsWalk(adj, w) && k < |w|
    ensures IsWalk(adj, w[k..])
  {
    var p := w[k..];
    forall i | 0 <= i < |p| - 1 ensures p[i + 1] in adj(p[i]) {
      assert p[i + 1] == w[k + i + 1] && p[i] == w[k + i];
    }
  }

  /** Two repetition-free sequences with no element in common join into
      one. */
  lemma NoRepeatAppend<T>(a: seq<T>, b: seq<T>)
    requires NoRepeat(a) && NoRepeat(b) && forall x :: x in b ==> x !in a
    ensures NoRepeat(a + b)
  {
    forall i, j | 0 <= i < j < |a + b| ensures (a + b)[i] != (a + b)[j] {
      if j >= |a| && i < |a| {
        assert (a + b)[j] in b;
      }
    }
  }

  /** A sequence without repeats is as long as the set of its elements. */
  lemma {:induction false} DistinctCount<T>(s: seq<T>, S: set<T>)
    requires NoRepeat(s) && forall x :: x in s <==> x in S
    ensures |s| == |S|
  {
    if s != [] {
      var last := s[|s| - 1];
      var front := s[..|s| - 1];
      forall x ensures x in front <==> x in S - {last} {
        if x in front {
          var k :| 0 <= k < |front| && front[k] == x;
          assert s[k] == x;
        }
        if x in S - {last} {
          var k :| 0 <= k < |s| && s[k] == x;
          assert front[k] == x;
        }
      }
      DistinctCount(front, S - {last});
    }
  }

  // ---------------------------------------------------------------------
  // Breadth-first layering

  /** The state of a breadth-first search from `s`: `done` holds the cells
      already taken off the queue, `d` the distance label of every cell
      marked so far (done or queued). Labels along the queue never decrease
      and span at most two consecutive values, every done cell is labelled
      no higher than the head, and a done cell's neighbours are all marked
      with a label at most one higher. */
  ghost predicate Layered<T(!new)>(adj: T -> seq<T>, s: T, done: set<T>, queue: seq<T>, d: map<T, nat>) {
    && s in d && d[s] == 0
    && Partitioned(done, queue, d)
    && QueueLabels(queue, d)
    && DoneLabels(adj, done, queue, d)
  }

  /** The marked cells are those done and those queued, and the queue
      holds each at most once and nothing done. */
  ghost predicate Partitioned<T(!new)>(done: set<T>, queue: seq<T>, d: map<T, nat>) {
    && (forall x :: x in d <==> x in done || x in queue)
    && (forall x :: x in queue ==> x !in done)
    && NoRepeat(queue)
  }

  /** Labels along the queue never decrease and exceed the head's by at
      most one. */
  ghost predicate QueueLabels<T(!new)>(queue: seq<T>, d: map<T, nat>)
    requires forall x :: x in queue ==> x in d
  {
    && (forall i, j :: 0 <= i <= j < |queue| ==> d[queue[i]] <= d[queue[j]])
    && (forall i :: 0 <= i < |queue| ==> d[queue[i]] <= d[queue[0]] + 1)
  }

  /** No done cell is labelled above the head, and every neighbour of a
      done cell is marked at most one label higher. */
  ghost predicate DoneLabels<T(!new)>(adj: T -> seq<T>, done: set<T>, queue: seq<T>, d: map<T, nat>)
    requires forall x :: x in done || x in queue ==> x in d
  {
    && (forall u :: u in done && |queue| > 0 ==> d[u] <= d[queue[0]])
    && (forall u, v :: u in done && v in adj(u) ==> v in d && d[v] <= d[u] + 1)
  }

  /** Labels right at the start: only `s` is marked, with label 0. */
  lemma LayeredInit<T(!new)>(adj: T -> seq<T>, s: T)
    ensures Layered(adj, s, {}, [s], map[s := 0])
  {
  }

  /** Along a walk from `s` whose first `k` cells are done, the `k`-th cell
      is marked with a label at most `k`. */
  lemma {:induction false} LayeredPrefix<T(!new)>(adj: T -> seq<T>, s: T, done: set<T>, queue: seq<T>, d: map<T, nat>, w: seq<T>, k: nat)
    requires Layered(adj, s, done, queue, d)
    requires IsWalk(adj, w) && w[0] == s && k < |w|
    requires forall i :: 0 <= i < k ==> w[i] in done
    ensures w[k] in d && d[w[k]] <= k
  {
    if k > 0 {
      LayeredPrefix(adj, s, done, queue, d, w, k - 1);
      assert w[k] in adj(w[k - 1]);
    }
  }

  /** The head of the queue is labelled no higher than the length of any
      walk from `s` to a cell that is not yet done. */
  lemma LayeredLowerBound<T(!new)>(adj: T -> seq<T>, s: T, done: set<T>, queue: seq<T>, d: map<T, nat>, w: seq<T>)
    requires Layered(adj, s, done, queue, d)
    requires IsWalk(adj, w) && w[0] == s && w[|w| - 1] !in done
    ensures |queue| > 0 && d[queue[0]] <= |w| - 1
  {
    LayeredScan(adj, s, done, queue, d, w, 0);
  }

  lemma {:induction false} LayeredScan<T(!new)>(adj: T -> seq<T>, s: T, done: set<T>, queue: seq<T>, d: map<T, nat>, w: seq<T>, k: nat)
    requires Layered(adj, s, done, queue, d)
    requires IsWalk(adj, w) && w[0] == s && w[|w| - 1] !in done
    requires k < |w| && forall i :: 0 <= i < k ==> w[i] in done
    ensures |queue| > 0 && d[queue[0]] <= |w| - 1
    decreases |w| - k
  {
    if w[k] in done {
      LayeredScan(adj, s, done, queue, d, w, k + 1);
    } else {
      LayeredPrefix(adj, s, done, queue, d, w, k);
      assert w[k] in queue;
      var i :| 0 <= i < |queue| && queue[i] == w[k];
      assert d[queue[0]] <= d[queue[i]];
    }
  }

  /** Once the queue is empty, every cell reachable from `s` is done. */
  lemma LayeredExhausted<T(!new)>(adj: T -> seq<T>, s: T, done: set<T>, d: map<T, nat>, t: T)
    requires Layered(adj, s, done, [], d)
    requires t !in done
    ensures !Reachable(adj, s, t)
  {
    assert ClosedUnder(adj, done);
    ClosedSetBlocks(adj, done, s, t);
  }

  /** When `t` reaches the head of the queue, its label is one less than
      the length of a shortest walk to it. */
  lemma BfsShortest<T(!new)>(adj: T -> seq<T>, s: T, t: T, done: set<T>, queue: seq<T>, d: map<T, nat>)
    requires Layered(adj, s, done, queue, d) && queue != [] && queue[0] == t && t !in done
    ensures forall w :: WalkBetween(adj, w, s, t) ==> d[t] + 1 <= |w|
  {
    forall w | WalkBetween(adj, w, s, t) ensures d[t] + 1 <= |w| {
      LayeredLowerBound(adj, s, done, queue, d, w);
    }
  }

  /** One round of the search: the head `u` is taken off the queue and its
      unmarked neighbours `added` are labelled `d[u] + 1` and queued behind
      the rest. */
  lemma LayeredStep<T(!new)>(adj: T -> seq<T>, s: T, done: set<T>, queue: seq<T>, d: map<T, nat>,
                             added: seq<T>, d': map<T, nat>)
    requires Layered(adj, s, done, queue, d) && |queue| > 0
    requires forall x :: x in d' <==> x in d || x in added
    requires forall x :: x in d ==> d'[x] == d[x]
    requires forall x :: x in added ==> x !in d && d'[x] == d[queue[0]] + 1
    requires NoRepeat(added)
    requires forall v :: v in adj(queue[0]) ==> v in d'
    ensures Layered(adj, s, done + {queue[0]}, queue[1..] + added, d')
  {
    StepMarks(adj, s, done, queue, d, added, d');
    StepOrder(adj, s, done, queue, d, added, d');
    StepDone(adj, s, done, queue, d, added, d');
  }

  /** After a round the marked cells are those done, the old head among
      them, and those queued. */
  lemma StepMarks<T(!new)>(adj: T -> seq<T>, s: T, done: set<T>, queue: seq<T>, d: map<T, nat>,
                           added: seq<T>, d': map<T, nat>)
    requires Layered(adj, s, done, queue, d) && |queue| > 0
    requires forall x :: x in d' <==> x in d || x in added
    requires forall x :: x in added ==> x !in d
    requires NoRepeat(added)
    ensures Partitioned(done + {queue[0]}, queue[1..] + added, d')
  {
    StepQueue(done, queue, d, added);
    var q' := queue[1..] + added;
    forall x ensures x in d' <==> x in done + {queue[0]} || x in q' {
      if x in queue && x != queue[0] {
        var i :| 0 <= i < |queue| && queue[i] == x;
        assert q'[i - 1] == x;
      }
    }
  }

  /** After a round the labels along the queue are still in order. */
  lemma StepOrder<T(!new)>(adj: T -> seq<T>, s: T, done: set<T>, queue: seq<T>, d: map<T, nat>,
                           added: seq<T>, d': map<T, nat>)
    requires Layered(adj, s, done, queue, d) && |queue| > 0
    requires forall x :: x in d' <==> x in d || x in added
    requires forall x :: x in d ==> d'[x] == d[x]
    requires forall x :: x in added ==> x !in d && d'[x] == d[queue[0]] + 1
    ensures forall x :: x in queue[1..] + added ==> x in d'
    ensures QueueLabels(queue[1..] + added, d')
  {
    StepLabels(queue, d, added, d');
  }

  /** After a round the done cells, the old head among them, are labelled
      no higher than the new head and have all their neighbours marked at
      most one label higher. */
  lemma StepDone<T(!new)>(adj: T -> seq<T>, s: T, done: set<T>, queue: seq<T>, d: map<T, nat>,
                          added: seq<T>, d': map<T, nat>)
    requires Layered(adj, s, done, queue, d) && |queue| > 0
    requires forall x :: x in d' <==> x in d || x in added
    requires forall x :: x in d ==> d'[x] == d[x]
    requires forall x :: x in added ==> x !in d && d'[x] == d[queue[0]] + 1
    requires forall v :: v in adj(queue[0]) ==> v in d'
    ensures forall x :: x in done + {queue[0]} || x in queue[1..] + added ==> x in d'
    ensures DoneLabels(adj, done + {queue[0]}, queue[1..] + added, d')
  {
    StepLabels(queue, d, added, d');
    var u := queue[0];
    forall v | v in adj(u) ensures v in d' && d'[v] <= d'[u] + 1 {
      if v in done {
      } else if v in queue {
        var i :| 0 <= i < |queue| && queue[i] == v;
      }
    }
  }

  /** The queue after a round still repeats nothing and holds nothing done. */
  lemma StepQueue<T(!new)>(done: set<T>, queue: seq<T>, d: map<T, nat>, added: seq<T>)
    requires |queue| > 0 && NoRepeat(queue) && NoRepeat(added)
    requires forall x :: x in queue ==> x in d && x !in done
    requires forall x :: x in done ==> x in d
    requires forall x :: x in added ==> x !in d
    ensures NoRepeat(queue[1..] + added)
    ensures forall x :: x in queue[1..] + added ==> x !in done + {queue[0]}
  {
    var q' := queue[1..] + added;
    forall i, j | 0 <= i < j < |q'| ensures q'[i] != q'[j] {
      if j < |queue| - 1 {
        assert q'[i] == queue[i + 1] && q'[j] == queue[j + 1];
      } else if i >= |queue| - 1 {
        assert q'[i] == added[i - |queue| + 1] && q'[j] == added[j - |queue| + 1];
      } else {
        assert q'[i] == queue[i + 1] && q'[j] in added;
      }
    }
    forall x | x in q' ensures x !in done + {queue[0]} {
      if x in queue[1..] {
        var i :| 0 <= i < |queue[1..]| && queue[1..][i] == x;
        assert queue[i + 1] == x;
        assert queue[0] != queue[i + 1];
      }
    }
  }

  /** The labels along the queue after a round. */
  lemma StepLabels<T(!new)>(queue: seq<T>, d: map<T, nat>, added: seq<T>, d': map<T, nat>)
    requires |queue| > 0
    requires forall x :: x in queue ==> x in d
    requires forall i, j :: 0 <= i <= j < |queue| ==> d[queue[i]] <= d[queue[j]]
    requires forall i :: 0 <= i < |queue| ==> d[queue[i]] <= d[queue[0]] + 1
    requires forall x :: x in d ==> x in d' && d'[x] == d[x]
    requires forall x :: x in added ==> x in d' && d'[x] == d[queue[0]] + 1
    ensures forall x :: x in queue[1..] + added ==> x in d'
    ensures forall i :: 0 <= i < |queue[1..] + added| ==>
      d[queue[0]] <= d'[(queue[1..] + added)[i]] <= d[queue[0]] + 1
    ensures forall i, j :: 0 <= i <= j < |queue[1..] + added| ==>
      d'[(queue[1..] + added)[i]] <= d'[(queue[1..] + added)[j]]
  {
    var u := queue[0];
    var q' := queue[1..] + added;
    forall x | x in q' ensures x in d' {
      if x in queue[1..] {
        var i :| 0 <= i < |queue[1..]| && queue[1..][i] == x;
        assert queue[i + 1] == x;
      }
    }
    forall i | 0 <= i < |q'| ensures d[u] <= d'[q'[i]] <= d[u] + 1 {
      if i < |queue| - 1 {
        assert q'[i] == queue[i + 1];
      } else {
        assert q'[i] in added;
      }
    }
    forall i, j | 0 <= i <= j < |q'| ensures d'[q'[i]] <= d'[q'[j]] {
      if j < |queue| - 1 {
        assert q'[i] == queue[i + 1] && q'[j] == queue[j + 1];
      } else {
        assert q'[j] in added;
      }
    }
  }

  /** A walk survives any change of adjacency that keeps every step. */
  lemma {:induction false} WalkTransfer<T(!new)>(adj: T -> seq<T>, adj': T -> seq<T>, w: seq<T>)
    requires forall p, q :: q in adj(p) ==> q in adj'(p)
    requires IsWalk(adj, w)
    ensures IsWalk(adj', w)
  {
    forall i | 0 <= i < |w| - 1 ensures w[i + 1] in adj'(w[i]) {
      assert w[i + 1] in adj(w[i]);
    }
  }

  lemma ReachableTransfer<T(!new)>(adj: T -> seq<T>, adj': T -> seq<T>, s: T, t: T)
    requires forall p, q :: q in adj(p) ==> q in adj'(p)
    requires Reachable(adj, s, t)
    ensures Reachable(adj', s, t)
  {
    var w :| WalkBetween(adj, w, s, t);
    WalkTransfer(adj, adj', w);
    assert WalkBetween(adj', w, s, t);
  }

  // ---------------------------------------------------------------------
  // Queue and path helpers shared by the breadth-first searches

  /** `s` reversed (`std::reverse`). */
  function Reverse<T>(s: seq<T>): (r: seq<T>)
    ensures |r| == |s| && forall i :: 0 <= i < |s| ==> r[i] == s[|s| - 1 - i]
  {
    if s == [] then [] else Reverse(s[1..]) + [s[0]]
  }

  lemma ReverseSnoc<T>(s: seq<T>, x: T)
    ensures Reverse(s + [x]) == [x] + Reverse(s)
  {
    var a, b := Reverse(s + [x]), [x] + Reverse(s);
    assert |a| == |b|;
    forall i | 0 <= i < |a| ensures a[i] == b[i] {
      if i > 0 { assert a[i] == (s + [x])[|s| - i] == s[|s| - i]; }
    }
  }

  /** The queue and the labels while the neighbours of `current`, taken off
      the front of the queue, are examined: the cells `added` were
      unlabelled, are now labelled one more than `current`, and are queued
      behind the rest, in order and without repeats. */
  ghost predicate Queued<T(!new)>(current: T, d: map<T, nat>, queue: seq<T>, added: seq<T>,
                            d': map<T, nat>, queue': seq<T>) {
    && current in d
    && queue' == queue + added && NoRepeat(added)
    && (forall x :: x in d' <==> x in d || x in added)
    && (forall x :: x in d ==> d'[x] == d[x])
    && (forall x :: x in added ==> x !in d && d'[x] == d[current] + 1)
  }

  /** The cells queued so far in one expansion are exactly the unlabelled
      ones among the neighbours scanned, each with `current` as parent. */
  ghost predicate FreshAdded<T(!new)>(added: seq<T>, ns: seq<T>, d: map<T, nat>, parent: map<T, T>, current: T) {
    && (forall v :: v in added <==> v in ns && v !in d)
    && (forall v :: v in added ==> v in parent && parent[v] == current)
  }

  lemma FreshAdd<T(!new)>(added: seq<T>, ns: seq<T>, d: map<T, nat>, parent: map<T, T>, current: T, v: T)
    requires FreshAdded(added, ns, d, parent, current) && v !in d
    ensures FreshAdded(added + [v], ns + [v], d, parent[v := current], current)
  {
  }

  lemma FreshSkip<T(!new)>(added: seq<T>, ns: seq<T>, d: map<T, nat>, parent: map<T, T>, current: T, v: T)
    requires FreshAdded(added, ns, d, parent, current) && (v in d || v in added)
    ensures FreshAdded(added, ns + [v], d, parent, current)
  {
  }

  /** Finishing one more member of `C` leaves fewer of them to finish. */
  lemma FewerLeft<T>(C: set<T>, A: set<T>, p: T)
    requires p in C && p !in A
    ensures |C - (A + {p})| < |C - A|
  {
    assert C - A == (C - (A + {p})) + {p};
  }

  lemma NotTaken<T>(s: seq<T>, i: nat)
    requires NoRepeat(s) && i < |s|
    ensures s[i] !in s[..i]
  {
  }

  lemma TakeOneMore<T>(s: seq<T>, i: nat)
    requires i < |s|
    ensures s[..i + 1] == s[..i] + [s[i]]
  {
  }

  lemma TakeAll<T>(s: seq<T>)
    ensures s[..|s|] == s
  {
  }

  /** What an expansion appended to the queue, read off the queue alone. */
  lemma FreshTail<T(!new)>(queue: seq<T>, added: seq<T>, queue': seq<T>, ns: seq<T>, d: map<T, nat>, parent: map<T, T>, current: T)
    requires queue' == queue + added && FreshAdded(added, ns, d, parent, current)
    ensures |queue| <= |queue'| && queue'[..|queue|] == queue
    ensures forall v :: v in queue'[|queue|..] <==> v in ns && v !in d
    ensures forall v :: v in queue'[|queue|..] ==> v in parent && parent[v] == current
  {
    assert queue'[|queue|..] == added;
  }

  lemma QueuedAdd<T(!new)>(current: T, d: map<T, nat>, queue: seq<T>, added: seq<T>,
                     d': map<T, nat>, queue': seq<T>, v: T)
    requires Queued(current, d, queue, added, d', queue') && v !in d'
    ensures d'[current] == d[current]
    ensures Queued(current, d, queue, added + [v], d'[v := d[current] + 1], queue' + [v])
  {
    AppendAssoc(queue, added, v);
    NoRepeatSnoc(added, v);
    LabelsAdd(d, added, d', v, d[current] + 1);
  }

  /** Every neighbour of `u` is labelled. */
  ghost predicate AllLabelled<T(!new)>(adj: T -> seq<T>, u: T, d: map<T, nat>) {
    forall v :: v in adj(u) ==> v in d
  }

  /** A round of the search in terms of Queued: the head's neighbours are
      all labelled once the round is over. */
  lemma LayeredRound<T(!new)>(adj: T -> seq<T>, s: T, done: set<T>, queue: seq<T>, d: map<T, nat>,
                              added: seq<T>, d': map<T, nat>, queue': seq<T>)
    requires Layered(adj, s, done, queue, d) && queue != []
    requires Queued(queue[0], d, queue[1..], added, d', queue')
    requires AllLabelled(adj, queue[0], d')
    ensures Layered(adj, s, done + {queue[0]}, queue', d')
  {
    LayeredStep(adj, s, done, queue, d, added, d');
  }

  lemma LabelsAdd<T(!new)>(d: map<T, nat>, added: seq<T>, d': map<T, nat>, v: T, level: nat)
    requires forall x :: x in d' <==> x in d || x in added
    requires forall x :: x in d ==> d'[x] == d[x]
    requires forall x :: x in added ==> x !in d && d'[x] == level
    requires v !in d'
    ensures forall x :: x in d'[v := level] <==> x in d || x in added + [v]
    ensures forall x :: x in d ==> d'[v := level][x] == d[x]
    ensures forall x :: x in added + [v] ==> x !in d && d'[v := level][x] == level
  {
    forall x | x in added + [v] ensures x !in d && d'[v := level][x] == level {
      if x != v { assert x in added; }
    }
  }

  lemma AppendAssoc<T>(a: seq<T>, b: seq<T>, x: T)
    ensures a + b + [x] == a + (b + [x])
  {
  }

  lemma NoRepeatSnoc<T>(s: seq<T>, x: T)
    requires NoRepeat(s) && x !in s
    ensures NoRepeat(s + [x])
  {
  }

  /** A shortest walk visits no cell twice: cutting out the loop between
      two visits would give a shorter walk. */
  lemma ShortestNoRepeat<T(!new)>(adj: T -> seq<T>, w: seq<T>, s: T, t: T)
    requires WalkBetween(adj, w, s, t)
    requires forall v :: WalkBetween(adj, v, s, t) ==> |w| <= |v|
    ensures NoRepeat(w)
  {
    if !NoRepeat(w) {
      var i, j :| 0 <= i < j < |w| && w[i] == w[j];
      var v := w[..i] + w[j..];
      forall k | 0 <= k < |v| - 1 ensures v[k + 1] in adj(v[k]) {
        if k + 1 < i {
          assert v[k] == w[k] && v[k + 1] == w[k + 1];
        } else if k + 1 == i {
          assert v[k] == w[k] && v[k + 1] == w[j] == w[i];
        } else {
          assert v[k] == w[k - i + j] && v[k + 1] == w[k + 1 - i + j];
        }
      }
      assert WalkBetween(adj, v, s, t);
    }
  }

  // ---------------------------------------------------------------------
  // Lists grown at the end

  lemma KeptAt<T>(a: seq<T>, b: seq<T>, k: nat)
    requires k < |a| <= |b| && b[..|a|] == a
    ensures b[k] == a[k]
  {
    assert b[k] == b[..|a|][k];
  }

  lemma KeptMember<T>(a: seq<T>, b: seq<T>, x: T)
    requires |a| <= |b| && b[..|a|] == a && x in a
    ensures x in b
  {
    var k :| 0 <= k < |a| && a[k] == x;
    KeptAt(a, b, k);
  }

  lemma Reassemble<T>(prefix: seq<T>, w: seq<T>)
    requires |w| > 0
    ensures (prefix + [w[0]]) + w[1..] == prefix + w
  {
    assert w == [w[0]] + w[1..];
  }

  lemma GrowTwice<T>(a: seq<T>, b: seq<T>, c: seq<T>)
    requires |b| >= |a| && b[..|a|] == a && |c| >= |b| && c[..|b|] == b
    ensures c[..|a|] == a && c[|a|..] == b[|a|..] + c[|b|..]
  {
    assert c[..|a|] == c[..|b|][..|a|];
  }

  /** Lists of extensions of `prefix` grown twice: the entries added second,
      whose element after the prefix's next one is `v`, differ from those
      added first, whose element there is in `done`. */
  lemma NewDistinct<T>(prefix: seq<T>, paths0: seq<seq<T>>, paths: seq<seq<T>>, paths': seq<seq<T>>,
                       done: seq<T>, v: T)
    requires |paths0| <= |paths| <= |paths'| && paths'[..|paths|] == paths && v !in done
    requires NoRepeat(paths[|paths0|..]) && NoRepeat(paths'[|paths|..])
    requires forall k :: |paths0| <= k < |paths| ==> |paths[k]| > |prefix| + 1 && paths[k][|prefix| + 1] in done
    requires forall k :: |paths| <= k < |paths'| ==> |paths'[k]| > |prefix| + 1 && paths'[k][|prefix| + 1] == v
    ensures NoRepeat(paths'[|paths0|..])
  {
    var r := paths'[|paths0|..];
    forall i, j | 0 <= i < j < |r| ensures r[i] != r[j] {
      var a, b := |paths0| + i, |paths0| + j;
      if b < |paths| {
        assert r[i] == paths[|paths0|..][i] && r[j] == paths[|paths0|..][j];
      } else if a >= |paths| {
        assert r[i] == paths'[|paths|..][a - |paths|] && r[j] == paths'[|paths|..][b - |paths|];
      } else {
        assert r[i] == paths[a] && r[i][|prefix| + 1] in done;
        assert r[j][|prefix| + 1] == v;
      }
    }
  }
}
