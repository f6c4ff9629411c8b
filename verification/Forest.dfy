/** Chains of single-successor edges, as formed by following waiting_lock and
    then holder from thread to thread (threads/synch.c, the donation walk). */
module Forest {

  type Edges = map<nat, nat>

  /** path starts at t, follows edges, and stops where there is none. */
  ghost predicate IsWalk(e: Edges, t: nat, path: seq<nat>)
    decreases |path|
  {
    && |path| > 0
    && path[0] == t
    && if t in e then |path| > 1 && IsWalk(e, e[t], path[1..]) else |path| == 1
  }

  /** u is reached from t in n steps. */
  ghost predicate Steps(e: Edges, t: nat, n: nat, u: nat)
    decreases n
  {
    if n == 0 then t == u else t in e && Steps(e, e[t], n - 1, u)
  }

  ghost predicate Reaches(e: Edges, t: nat, u: nat) {
    exists n: nat :: Steps(e, t, n, u)
  }

  /** The walk from t ends. */
  ghost predicate HasWalk(e: Edges, t: nat) {
    exists path :: IsWalk(e, t, path)
  }

  ghost predicate Acyclic(e: Edges) {
    forall t: nat :: HasWalk(e, t)
  }

  lemma {:induction false} WalkUnique(e: Edges, t: nat, p: seq<nat>, q: seq<nat>)
    requires IsWalk(e, t, p) && IsWalk(e, t, q)
    ensures p == q
    decreases |p|
  {
    if t in e {
      WalkUnique(e, e[t], p[1..], q[1..]);
      assert p == [p[0]] + p[1..] && q == [q[0]] + q[1..];
    } else {
      assert p == [t] == q;
    }
  }

  /** A walk visits exactly the threads reached from its start. */
  lemma {:induction false} WalkSteps(e: Edges, t: nat, path: seq<nat>, n: nat, u: nat)
    requires IsWalk(e, t, path) && Steps(e, t, n, u)
    ensures n < |path| && path[n] == u
    decreases n
  {
    if n > 0 { WalkSteps(e, e[t], path[1..], n - 1, u); }
  }

  /** A thread with a finite walk is on no cycle. */
  lemma NoReturn(e: Edges, t: nat, path: seq<nat>, n: nat)
    requires IsWalk(e, t, path) && n > 0
    ensures !Steps(e, t, n, t)
  {
    if Steps(e, t, n, t) {
      WalkSteps(e, t, path, n, t);
      WalkSuffix(e, t, path, n);
      WalkUnique(e, t, path, path[n..]);
    }
  }

  lemma {:induction false} WalkSuffix(e: Edges, t: nat, path: seq<nat>, n: nat)
    requires IsWalk(e, t, path) && n < |path|
    ensures IsWalk(e, path[n], path[n..])
    decreases n
  {
    if n > 0 {
      WalkSuffix(e, e[t], path[1..], n - 1);
      assert path[1..][n - 1..] == path[n..];
    } else {
      assert path[0..] == path;
    }
  }

  lemma {:induction false} StepsTrans(e: Edges, a: nat, m: nat, b: nat, n: nat, c: nat)
    requires Steps(e, a, m, b) && Steps(e, b, n, c)
    ensures Steps(e, a, m + n, c)
    decreases m
  {
    if m > 0 { StepsTrans(e, e[a], m - 1, b, n, c); }
  }

  /** Removing edges leaves a forest a forest. */
  lemma SubForest(e: Edges, f: Edges)
    requires Acyclic(e)
    requires forall t :: t in f ==> t in e && e[t] == f[t]
    ensures Acyclic(f)
  {
    forall t: nat ensures HasWalk(f, t) {
      assert HasWalk(e, t);
      var p :| IsWalk(e, t, p);
      var q := CutWalk(e, f, t, p);
    }
  }

  lemma {:induction false} CutWalk(e: Edges, f: Edges, t: nat, p: seq<nat>) returns (q: seq<nat>)
    requires IsWalk(e, t, p)
    requires forall t :: t in f ==> t in e && e[t] == f[t]
    ensures IsWalk(f, t, q)
    decreases |p|
  {
    if t in f {
      var r := CutWalk(e, f, e[t], p[1..]);
      q := [t] + r;
      assert q[1..] == r;
    } else {
      q := [t];
    }
  }

  /** Adding the edge a -> b: the walk from b in the larger graph exists
      exactly when b did not already reach a. */
  lemma NewEdgeWalk(e: Edges, a: nat, b: nat)
    requires Acyclic(e) && a !in e
    ensures HasWalk(e[a := b], b) <==> !Reaches(e, b, a)
  {
    var f := e[a := b];
    if Reaches(e, b, a) {
      var n: nat :| Steps(e, b, n, a);
      StepsExtend(e, a, b, b, n, a);
      assert Steps(f, a, 0, a) && f[a] == b;
      assert Steps(f, b, 0, b);
      assert Steps(f, a, 1, b);
      StepsTrans(f, b, n, a, 1, b);
      forall path ensures !IsWalk(f, b, path) {
        if IsWalk(f, b, path) { NoReturn(f, b, path, n + 1); }
      }
    } else {
      assert HasWalk(e, b);
      var p :| IsWalk(e, b, p);
      WalkExtend(e, a, b, b, p);
    }
  }

  lemma {:induction false} StepsExtend(e: Edges, a: nat, b: nat, t: nat, n: nat, u: nat)
    requires a !in e && Steps(e, t, n, u)
    ensures Steps(e[a := b], t, n, u)
    decreases n
  {
    if n > 0 { StepsExtend(e, a, b, e[t], n - 1, u); }
  }

  lemma {:induction false} WalkExtend(e: Edges, a: nat, b: nat, t: nat, p: seq<nat>)
    requires a !in e && IsWalk(e, t, p) && !Reaches(e, t, a)
    ensures IsWalk(e[a := b], t, p)
    decreases |p|
  {
    assert Steps(e, t, 0, t);
    if t in e {
      if Reaches(e, e[t], a) {
        var n: nat :| Steps(e, e[t], n, a);
        assert Steps(e, t, n + 1, a);
      }
      WalkExtend(e, a, b, e[t], p[1..]);
    }
  }

  /** If the walk from b terminates with the edge a -> b in place, the larger
      graph is again a forest. */
  lemma AddEdge(e: Edges, a: nat, b: nat, path: seq<nat>)
    requires Acyclic(e) && a !in e
    requires IsWalk(e[a := b], b, path)
    ensures Acyclic(e[a := b])
  {
    var f := e[a := b];
    forall t: nat ensures HasWalk(f, t) {
      assert HasWalk(e, t);
      var p :| IsWalk(e, t, p);
      var q := JoinWalk(e, a, b, path, t, p);
    }
  }

  lemma {:induction false} JoinWalk(e: Edges, a: nat, b: nat, path: seq<nat>, t: nat, p: seq<nat>)
    returns (q: seq<nat>)
    requires a !in e && IsWalk(e[a := b], b, path) && IsWalk(e, t, p)
    ensures IsWalk(e[a := b], t, q)
    decreases |p|
  {
    if t == a {
      q := [a] + path;
      assert q[1..] == path;
    } else if t in e {
      var r := JoinWalk(e, a, b, path, e[t], p[1..]);
      q := [t] + r;
      assert q[1..] == r;
    } else {
      q := [t];
    }
  }
}
