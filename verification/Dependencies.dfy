// rec_depend of perl_dbi/ppport.h: everything a provided function depends on, directly or not.

module Dependencies {
  import opened Sequences

  type Graph = map<string, seq<string>>

  /** The names, each kept at its first occurrence only. */
  function Distinct(names: seq<string>, have: set<string>): (r: seq<string>)
    ensures forall x :: x in r <==> x in names && x !in have
    ensures NoRepeat(r)
  {
    if names == [] then []
    else if names[0] in have then Distinct(names[1..], have)
    else [names[0]] + Distinct(names[1..], have + {names[0]})
  }

  /** `seen` is the caller's copy: siblings do not share what one of them has seen. */
  function RecDepend(depends: Graph, func: string, seen: set<string>): (r: seq<string>)
    ensures NoRepeat(r)
    decreases |depends.Keys - seen|, 1, 0
  {
    if func !in depends || func in seen then []
    else
      assert depends.Keys - (seen + {func}) < depends.Keys - seen;
      Smaller(depends.Keys - (seen + {func}), depends.Keys - seen);
      Distinct(WithDependencies(depends, depends[func], seen + {func}), {})
  }

  /** Each name followed by its own dependencies. */
  function WithDependencies(depends: Graph, names: seq<string>, seen: set<string>): seq<string>
    decreases |depends.Keys - seen|, 2, |names|
  {
    if names == [] then []
    else [names[0]] + RecDepend(depends, names[0], seen) + WithDependencies(depends, names[1..], seen)
  }

  lemma {:induction false} Smaller<T>(a: set<T>, b: set<T>)
    requires a < b
    ensures |a| < |b|
  {
    var x :| x in b && x !in a;
    var b' := b - {x};
    assert a <= b';
    SubsetSize(a, b');
  }

  lemma {:induction false} SubsetSize<T>(a: set<T>, b: set<T>)
    requires a <= b
    ensures |a| <= |b|
  {
    if a != {} {
      var x :| x in a;
      SubsetSize(a - {x}, b - {x});
    }
  }

  // ---- Reachability -----------------------------------------------------------------------------------

  ghost predicate Edge(depends: Graph, a: string, b: string) {
    a in depends && b in depends[a]
  }

  /** A path of one or more edges whose nodes, the last one excepted, avoid `seen`. */
  ghost predicate Path(depends: Graph, p: seq<string>, seen: set<string>) {
    && |p| >= 2
    && (forall i :: 0 <= i < |p| - 1 ==> Edge(depends, p[i], p[i + 1]))
    && (forall i :: 0 <= i < |p| - 1 ==> p[i] !in seen)
  }

  ghost predicate Reaches(depends: Graph, a: string, b: string, seen: set<string>) {
    exists p :: Path(depends, p, seen) && p[0] == a && p[|p| - 1] == b
  }

  lemma ReachesEdge(depends: Graph, a: string, b: string, seen: set<string>)
    requires Edge(depends, a, b) && a !in seen
    ensures Reaches(depends, a, b, seen)
  {
    assert Path(depends, [a, b], seen) && [a, b][0] == a && [a, b][1] == b;
  }

  lemma ReachesCons(depends: Graph, a: string, b: string, c: string, seen: set<string>)
    requires Edge(depends, a, b) && a !in seen && Reaches(depends, b, c, seen + {a})
    ensures Reaches(depends, a, c, seen)
  {
    var p :| Path(depends, p, seen + {a}) && p[0] == b && p[|p| - 1] == c;
    var q := [a] + p;
    assert forall i :: 0 < i < |q| ==> q[i] == p[i - 1];
    assert Path(depends, q, seen) && q[0] == a && q[|q| - 1] == c;
  }

  // ---- Soundness: only reachable names are returned -------------------------------------------------------

  lemma {:induction false} OnlyReachable(depends: Graph, func: string, seen: set<string>, x: string)
    requires x in RecDepend(depends, func, seen)
    ensures Reaches(depends, func, x, seen)
    decreases |depends.Keys - seen|, 1, 0
  {
    Smaller(depends.Keys - (seen + {func}), depends.Keys - seen);
    OnlyReachableList(depends, func, depends[func], seen, x);
  }

  lemma {:induction false} OnlyReachableList(depends: Graph, func: string, names: seq<string>, seen: set<string>, x: string)
    requires func in depends && func !in seen && (forall n :: n in names ==> n in depends[func])
    requires x in WithDependencies(depends, names, seen + {func})
    ensures Reaches(depends, func, x, seen)
    decreases |depends.Keys - (seen + {func})|, 2, |names|
  {
    if x == names[0] {
      ReachesEdge(depends, func, x, seen);
    } else if x in RecDepend(depends, names[0], seen + {func}) {
      OnlyReachable(depends, names[0], seen + {func}, x);
      ReachesCons(depends, func, names[0], x, seen);
    } else {
      OnlyReachableList(depends, func, names[1..], seen, x);
    }
  }

  // ---- Completeness: a path that repeats no earlier node finds every reachable name ------------------------

  lemma {:induction false} ListHasAll(depends: Graph, names: seq<string>, seen: set<string>, n: string, x: string)
    requires n in names && (x == n || x in RecDepend(depends, n, seen))
    ensures x in WithDependencies(depends, names, seen)
    decreases |names|
  {
    if names[0] != n { ListHasAll(depends, names[1..], seen, n, x); }
  }

  lemma PathTail(depends: Graph, p: seq<string>, seen: set<string>, j: nat)
    requires Path(depends, p, seen) && j < |p| - 1
    ensures Path(depends, p[j..], seen)
  {
    var q := p[j..];
    forall i | 0 <= i < |q| - 1 ensures Edge(depends, q[i], q[i + 1]) && q[i] !in seen {
      assert q[i] == p[j + i] && q[i + 1] == p[j + i + 1];
    }
  }

  /** Either the start comes up again, and the part from there is a shorter path from it, or the rest
      of the path avoids it and the recursive call finds the end. */
  lemma {:induction false} FindsPathEnd(depends: Graph, p: seq<string>, seen: set<string>)
    requires Path(depends, p, seen)
    ensures p[|p| - 1] in RecDepend(depends, p[0], seen)
    decreases |p|
  {
    var func, x := p[0], p[|p| - 1];
    assert Edge(depends, p[0], p[1]);
    if j :| 0 < j < |p| - 1 && p[j] == func {
      PathTail(depends, p, seen, j);
      FindsPathEnd(depends, p[j..], seen);
    } else {
      Smaller(depends.Keys - (seen + {func}), depends.Keys - seen);
      if |p| > 2 {
        PathTail(depends, p, seen, 1);
        assert Path(depends, p[1..], seen + {func}) by {
          assert forall i :: 0 <= i < |p[1..]| - 1 ==> p[1..][i] == p[i + 1];
        }
        FindsPathEnd(depends, p[1..], seen + {func});
      }
      ListHasAll(depends, depends[func], seen + {func}, p[1], x);
    }
  }

  /** rec_depend returns, without repetition, exactly the names reachable by one or more edges, on
      every finite graph, cyclic ones included. */
  lemma RecDependIsReachability(depends: Graph, func: string, x: string)
    ensures x in RecDepend(depends, func, {}) <==> Reaches(depends, func, x, {})
    ensures NoRepeat(RecDepend(depends, func, {}))
  {
    if x in RecDepend(depends, func, {}) { OnlyReachable(depends, func, {}, x); }
    if Reaches(depends, func, x, {}) {
      var p :| Path(depends, p, {}) && p[0] == func && p[|p| - 1] == x;
      FindsPathEnd(depends, p, {});
    }
  }
}
