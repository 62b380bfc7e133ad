/** Reachability by explicit paths, and the sorting both readers and the compactor rely on. */
module Graphs {

  type Graph = nat -> set<nat>

  ghost predicate IsPath(g: Graph, path: seq<nat>) {
    path != [] && forall i :: 0 < i < |path| ==> path[i] in g(path[i - 1])
  }

  ghost predicate Reach(g: Graph, a: nat, b: nat) {
    exists path: seq<nat> :: IsPath(g, path) && path[0] == a && path[|path| - 1] == b
  }

  lemma ReachSelf(g: Graph, a: nat)
    ensures Reach(g, a, a)
  {
    assert IsPath(g, [a]);
  }

  lemma ReachStep(g: Graph, a: nat, b: nat, c: nat)
    requires Reach(g, a, b) && c in g(b)
    ensures Reach(g, a, c)
  {
    var path: seq<nat> :| IsPath(g, path) && path[0] == a && path[|path| - 1] == b;
    assert IsPath(g, path + [c]);
  }

  lemma ReachFirst(g: Graph, a: nat, b: nat, c: nat)
    requires b in g(a) && Reach(g, b, c)
    ensures Reach(g, a, c)
  {
    var path: seq<nat> :| IsPath(g, path) && path[0] == b && path[|path| - 1] == c;
    assert IsPath(g, [a] + path);
  }

  /** A set that holds `a` and is closed under the edges holds all that `a` reaches. */
  lemma ReachStaysInside(g: Graph, a: nat, b: nat, inside: set<nat>)
    requires a in inside && (forall x <- inside :: g(x) <= inside) && Reach(g, a, b)
    ensures b in inside
  {
    var path: seq<nat> :| IsPath(g, path) && path[0] == a && path[|path| - 1] == b;
    for i := 1 to |path|
      invariant path[i - 1] in inside
    {
    }
  }

  /** Graphs that agree on all that `a` reaches in one of them reach the same from `a`. */
  lemma SameReach(g: Graph, h: Graph, a: nat, b: nat)
    requires forall x: nat :: Reach(h, a, x) ==> g(x) == h(x)
    ensures Reach(g, a, b) <==> Reach(h, a, b)
  {
    hide Reach;
    ReachSelf(h, a);
    if Reach(g, a, b) {
      StepsAlong(g, h, a, b);
    }
    if Reach(h, a, b) {
      PathAlong(g, h, a, b);
    }
  }

  lemma StepsAlong(g: Graph, h: Graph, a: nat, b: nat)
    requires (forall x: nat :: Reach(h, a, x) ==> g(x) == h(x)) && Reach(g, a, b)
    ensures Reach(h, a, b)
  {
    var path: seq<nat> :| IsPath(g, path) && path[0] == a && path[|path| - 1] == b;
    ReachSelf(h, a);
    for i := 1 to |path|
      invariant Reach(h, a, path[i - 1])
    {
      ReachStep(h, a, path[i - 1], path[i]);
    }
  }

  lemma PathAlong(g: Graph, h: Graph, a: nat, b: nat)
    requires (forall x: nat :: Reach(h, a, x) ==> g(x) == h(x)) && Reach(h, a, b)
    ensures Reach(g, a, b)
  {
    var path: seq<nat> :| IsPath(h, path) && path[0] == a && path[|path| - 1] == b;
    ReachSelf(h, a);
    ReachSelf(g, a);
    for i := 1 to |path|
      invariant Reach(h, a, path[i - 1]) && Reach(g, a, path[i - 1])
    {
      ReachStep(h, a, path[i - 1], path[i]);
      ReachStep(g, a, path[i - 1], path[i]);
    }
  }

  // ---------- sorting ----------

  ghost predicate Ascending(s: seq<nat>) {
    forall i, j :: 0 <= i < j < |s| ==> s[i] <= s[j]
  }

  ghost predicate StrictlyAscending(s: seq<nat>) {
    forall i, j :: 0 <= i < j < |s| ==> s[i] < s[j]
  }

  ghost predicate Distinct<T>(s: seq<T>) {
    forall i, j :: 0 <= i < j < |s| ==> s[i] != s[j]
  }

  lemma DropLast(s: seq<nat>) returns (init: seq<nat>, last: nat)
    requires StrictlyAscending(s) && s != []
    ensures s == init + [last] && StrictlyAscending(init) && last in s
    ensures forall x: nat :: x in s ==> x <= last
    ensures forall x: nat :: x in init <==> x in s && x != last
  {
    init, last := s[..|s| - 1], s[|s| - 1];
  }

  lemma SomeMember(a: seq<nat>, b: seq<nat>)
    requires forall x: nat :: x in b ==> x in a
    ensures b != [] ==> a != []
  {
    if b != [] {
      assert b[0] in b;
    }
  }

  /** A strictly ascending list is fixed by its members. */
  lemma {:induction false} SameMembersSameList(a: seq<nat>, b: seq<nat>)
    requires StrictlyAscending(a) && StrictlyAscending(b) && forall x: nat :: x in a <==> x in b
    ensures a == b
    decreases |a|
  {
    hide StrictlyAscending;
    SomeMember(a, b);
    SomeMember(b, a);
    if a != [] {
      var x, p := DropLast(a);
      var y, q := DropLast(b);
      assert p == q;
      SameMembersSameList(x, y);
    }
  }

  function Elements(s: seq<nat>): set<nat> { set x <- s }

  ghost function Below(n: nat): (r: set<nat>)
    ensures forall x: nat :: x in r <==> x < n
  {
    if n == 0 then {} else Below(n - 1) + {n - 1}
  }

  function Insert(x: nat, s: seq<nat>): (r: seq<nat>)
    ensures multiset(r) == multiset(s) + multiset{x}
    ensures |r| == |s| + 1
  {
    if s == [] || x <= s[0] then [x] + s
    else
      assert s == [s[0]] + s[1..];
      [s[0]] + Insert(x, s[1..])
  }

  /** `sort_unstable` on page numbers. */
  function Sort(s: seq<nat>): (r: seq<nat>)
    ensures multiset(r) == multiset(s)
    ensures |r| == |s|
  {
    if s == [] then []
    else
      assert s == [s[0]] + s[1..];
      Insert(s[0], Sort(s[1..]))
  }

  lemma {:induction false} InsertMembers(x: nat, s: seq<nat>)
    ensures forall y <- Insert(x, s) :: y == x || y in s
  {
    hide Insert;
    forall y <- Insert(x, s)
      ensures y == x || y in s
    {
      assert y in multiset(Insert(x, s));
    }
  }

  lemma {:induction false} InsertAscends(x: nat, s: seq<nat>)
    requires Ascending(s)
    ensures Ascending(Insert(x, s))
  {
    if s != [] && x > s[0] {
      InsertAscends(x, s[1..]);
      InsertMembers(x, s[1..]);
      var tail := Insert(x, s[1..]);
      hide Insert;
      assert forall k :: 0 <= k < |tail| ==> tail[k] in tail;
      assert forall y <- tail :: s[0] <= y;
    }
  }

  lemma {:induction false} SortAscends(s: seq<nat>)
    ensures Ascending(Sort(s))
    ensures forall x: nat :: x in Sort(s) <==> x in s
    ensures Distinct(s) ==> StrictlyAscending(Sort(s))
  {
    var r := Sort(s);
    if s != [] {
      SortAscends(s[1..]);
      InsertAscends(s[0], Sort(s[1..]));
    }
    forall x: nat
      ensures x in r <==> x in s
    {
      assert x in multiset(r) <==> x in multiset(s);
    }
    if Distinct(s) {
      DistinctHasSingles(s);
      forall i, j | 0 <= i < j < |r|
        ensures r[i] < r[j]
      {
        if r[i] == r[j] {
          TwicePresent(r, i, j);
        }
      }
    }
  }

  lemma {:induction false} DistinctHasSingles(s: seq<nat>)
    requires Distinct(s)
    ensures forall x: nat :: multiset(s)[x] <= 1
  {
    if s != [] {
      DistinctHasSingles(s[1..]);
      assert s == [s[0]] + s[1..];
      assert s[0] !in s[1..];
    }
  }

  lemma TwicePresent(s: seq<nat>, i: nat, j: nat)
    requires i < j < |s| && s[i] == s[j]
    ensures multiset(s)[s[i]] >= 2
  {
    assert s == s[..j] + [s[j]] + s[j + 1..];
    assert s[i] in s[..j];
  }
}
