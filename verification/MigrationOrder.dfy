/** The dependency graph of migration groups, and what it means to order it. */
module MigrationOrder {
  type Group = string
  type Deps = map<Group, set<Group>>

  // ---------- specification ----------

  /** Each element of p depends directly on the next one. */
  ghost predicate IsPath(deps: Deps, p: seq<Group>) {
    |p| >= 2 && forall i :: 0 <= i < |p| - 1 ==> p[i] in deps && p[i + 1] in deps[p[i]]
  }

  ghost predicate Cyclic(deps: Deps) {
    exists p :: IsPath(deps, p) && p[0] == p[|p| - 1]
  }

  ghost predicate DependsOn(deps: Deps, g: Group, d: Group) {
    exists p :: IsPath(deps, p) && p[0] == g && p[|p| - 1] == d
  }

  function Unregistered(deps: Deps): set<Group> {
    set g, d | g in deps && d in deps[g] && d !in deps :: d
  }

  predicate NoDuplicates(s: seq<Group>) {
    forall i, j :: 0 <= i < j < |s| ==> s[i] != s[j]
  }

  function Elements(s: seq<Group>): set<Group> {
    set i | 0 <= i < |s| :: s[i]
  }

  /** Every registered dependency of an element of s comes before it. */
  ghost predicate DependenciesFirst(deps: Deps, s: seq<Group>) {
    forall i, d :: 0 <= i < |s| && s[i] in deps && d in deps[s[i]] && d in deps ==> d in s[..i]
  }

  ghost predicate IsLinearExtension(deps: Deps, order: seq<Group>) {
    NoDuplicates(order) && Elements(order) == deps.Keys && DependenciesFirst(deps, order)
  }

  // ---------- a linear extension excludes cycles ----------

  lemma {:induction false} PathGoesBack(deps: Deps, order: seq<Group>, p: seq<Group>, i: nat)
    requires IsLinearExtension(deps, order) && IsPath(deps, p)
    requires i < |order| && order[i] == p[0] && p[|p| - 1] in deps
    ensures p[|p| - 1] in order[..i]
  {
    assert p[0] in deps && p[1] in deps[p[0]];
    assert p[1] in deps by {
      if |p| > 2 { assert p[1] in deps; }
    }
    var j :| 0 <= j < i && order[j] == p[1];
    if |p| > 2 {
      assert IsPath(deps, p[1..]) by {
        forall k | 0 <= k < |p| - 2 ensures p[1..][k] in deps && p[1..][k + 1] in deps[p[1..][k]] {
          assert p[k + 1] in deps && p[k + 2] in deps[p[k + 1]];
        }
      }
      PathGoesBack(deps, order, p[1..], j);
      assert p[1..][|p| - 2] == p[|p| - 1];
    }
  }

  lemma ExtensionIsAcyclic(deps: Deps, order: seq<Group>)
    requires IsLinearExtension(deps, order)
    ensures !Cyclic(deps)
  {
    if Cyclic(deps) {
      var p :| IsPath(deps, p) && p[0] == p[|p| - 1];
      assert p[0] in deps && p[0] in Elements(order);
      var i :| 0 <= i < |order| && order[i] == p[0];
      PathGoesBack(deps, order, p, i);
      assert false;
    }
  }

  // ---------- a stuck set of groups contains a cycle ----------

  ghost predicate Stuck(deps: Deps, s: set<Group>) {
    s != {} && s <= deps.Keys && forall g :: g in s ==> deps[g] * s != {}
  }

  lemma {:induction false} LongWalk(deps: Deps, s: set<Group>, n: nat) returns (p: seq<Group>)
    requires Stuck(deps, s)
    ensures |p| == n + 2 && IsPath(deps, p) && Elements(p) <= s
  {
    if n == 0 {
      var g :| g in s;
      var d :| d in deps[g] * s;
      p := [g, d];
    } else {
      var q := LongWalk(deps, s, n - 1);
      assert q[|q| - 1] in Elements(q);
      var d :| d in deps[q[|q| - 1]] * s;
      p := q + [d];
      assert forall i :: 0 <= i < |p| ==> p[i] in s by {
        forall i | 0 <= i < |q| ensures q[i] in s { assert q[i] in Elements(q); }
      }
    }
  }

  lemma {:induction false} DistinctFit(p: seq<Group>, s: set<Group>)
    requires NoDuplicates(p) && Elements(p) <= s
    ensures |p| <= |s|
  {
    if p != [] {
      var front, last := p[..|p| - 1], p[|p| - 1];
      assert last in Elements(p);
      forall g | g in Elements(front) ensures g in s - {last} {
        assert g in Elements(p);
      }
      DistinctFit(front, s - {last});
    }
  }

  lemma SubPath(deps: Deps, p: seq<Group>, i: nat, j: nat)
    requires IsPath(deps, p) && i < j < |p|
    ensures IsPath(deps, p[i..j + 1])
  {
    var c := p[i..j + 1];
    forall k | 0 <= k < |c| - 1 ensures c[k] in deps && c[k + 1] in deps[c[k]] {
      assert p[i + k] in deps && p[i + k + 1] in deps[p[i + k]];
    }
  }

  lemma StuckIsCyclic(deps: Deps, s: set<Group>)
    requires Stuck(deps, s)
    ensures Cyclic(deps)
  {
    var p := LongWalk(deps, s, |s|);
    if NoDuplicates(p) { DistinctFit(p, s); }
    var i, j :| 0 <= i < j < |p| && p[i] == p[j];
    SubPath(deps, p, i, j);
    var c := p[i..j + 1];
    assert c[0] == c[|c| - 1];
  }

  // ---------- the sort ----------

  /** The topological sort of the graph of registered groups. Edges from unregistered
      groups are not part of the graph. Which of several ready groups comes next is left
      open, as it follows map iteration order in the program. */
  method Toposort(deps: Deps) returns (order: seq<Group>, ok: bool)
    ensures ok <==> !Cyclic(deps)
    ensures ok ==> IsLinearExtension(deps, order)
  {
    order := [];
    var remaining := deps.Keys;
    while remaining != {}
      invariant NoDuplicates(order) && DependenciesFirst(deps, order)
      invariant Elements(order) !! remaining && Elements(order) + remaining == deps.Keys
    {
      var ready := set g | g in remaining && deps[g] * remaining == {};
      if ready == {} {
        forall g | g in remaining ensures deps[g] * remaining != {} {
          assert g !in ready;
        }
        StuckIsCyclic(deps, remaining);
        return order, false;
      }
      var g :| g in ready;
      OrderExtends(deps, order, remaining, g);
      order, remaining := order + [g], remaining - {g};
    }
    ExtensionIsAcyclic(deps, order);
    ok := true;
  }

  lemma OrderExtends(deps: Deps, order: seq<Group>, remaining: set<Group>, g: Group)
    requires NoDuplicates(order) && DependenciesFirst(deps, order)
    requires Elements(order) !! remaining && Elements(order) + remaining == deps.Keys
    requires g in remaining && deps[g] * remaining == {}
    ensures NoDuplicates(order + [g]) && DependenciesFirst(deps, order + [g])
    ensures Elements(order + [g]) == Elements(order) + {g}
  {
    var next := order + [g];
    forall h ensures h in Elements(next) <==> h in Elements(order) + {g} {
      if h in Elements(order) {
        var i :| 0 <= i < |order| && order[i] == h;
        assert next[i] == h;
      }
      assert next[|order|] == g;
    }
    forall i | 0 <= i < |order| ensures next[i] != g {
      assert order[i] in Elements(order);
    }
    forall i, d | 0 <= i < |next| && next[i] in deps && d in deps[next[i]] && d in deps
      ensures d in next[..i]
    {
      if i < |order| {
        assert next[..i] == order[..i] && d in order[..i];
      } else {
        assert d in deps[g] * remaining <==> d in remaining;
        assert next[..i] == order && d in Elements(order);
      }
    }
  }
}
