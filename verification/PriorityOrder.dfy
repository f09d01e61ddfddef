/**
 Inserting names into a list ordered by priority, behind those of the same priority.
 */
module PriorityOrder {
  import opened StartOrder

  lemma InsertedByPriority(priority: map<Name, int>, s: seq<Name>, p: nat, a: Name)
    requires p <= |s| && a in priority && forall i :: 0 <= i < |s| ==> s[i] in priority
    requires forall i, j :: 0 <= i < j < |s| ==> priority[s[i]] <= priority[s[j]]
    requires p > 0 ==> priority[s[p - 1]] <= priority[a]
    requires forall k :: p <= k < |s| ==> priority[s[k]] > priority[a]
    ensures var r := s[..p] + [a] + s[p..];
            && (forall i :: 0 <= i < |r| ==> r[i] in priority)
            && (forall i, j :: 0 <= i < j < |r| ==> priority[r[i]] <= priority[r[j]])
  {
    var r := s[..p] + [a] + s[p..];
    assert forall i :: 0 <= i < p ==> r[i] == s[i];
    assert forall i :: p < i < |r| ==> r[i] == s[i - 1];
    assert forall i :: 0 <= i < p ==> priority[s[i]] <= priority[a];
  }

  /** x has the smaller priority, or the same and the earlier place. */
  ghost predicate Ahead(priority: map<Name, int>, names: seq<Name>, x: Name, y: Name) {
    && x in priority && y in priority
    && (priority[x] < priority[y] || (priority[x] == priority[y] && Precedes(names, x, y)))
  }

  ghost predicate StablySorted(priority: map<Name, int>, names: seq<Name>, s: seq<Name>) {
    forall i, j :: 0 <= i < j < |s| ==> Ahead(priority, names, s[i], s[j])
  }

  lemma InsertedStably(priority: map<Name, int>, names: seq<Name>, s: seq<Name>, p: nat, a: Name)
    requires StablySorted(priority, names, s) && a in priority && p <= |s|
    requires forall i :: 0 <= i < |s| ==> s[i] in priority && Precedes(names, s[i], a)
    requires forall i :: 0 <= i < p ==> priority[s[i]] <= priority[a]
    requires forall k :: p <= k < |s| ==> priority[s[k]] > priority[a]
    ensures StablySorted(priority, names, s[..p] + [a] + s[p..])
  {
    var r := s[..p] + [a] + s[p..];
    assert r[p] == a;
    assert forall i :: 0 <= i < p ==> r[i] == s[i];
    assert forall i :: p < i < |r| ==> r[i] == s[i - 1];
    forall i, j | 0 <= i < j < |r| ensures Ahead(priority, names, r[i], r[j]) {
    }
  }

  lemma EarlierNames(names: seq<Name>, s: seq<Name>, i: nat)
    requires i < |names| && multiset(s) == multiset(names[..i])
    ensures forall x :: x in s ==> Precedes(names, x, names[i])
  {
    forall x | x in s ensures Precedes(names, x, names[i]) {
      assert x in multiset(names[..i]);
      var k :| 0 <= k < i && names[k] == x;
    }
  }

  lemma AheadOneWay(priority: map<Name, int>, names: seq<Name>, x: Name, y: Name)
    requires Distinct(names) && Ahead(priority, names, x, y)
    ensures !Ahead(priority, names, y, x) && x != y
  {
    if priority[x] == priority[y] {
      var i, j :| 0 <= i < j < |names| && names[i] == x && names[j] == y;
    }
  }

  /** Nothing at or ahead of a leads to b. */
  ghost predicate Undisturbed(g: Graph, priority: map<Name, int>, names: seq<Name>, a: Name, b: Name) {
    forall c :: c == a || Ahead(priority, names, c, a) ==> !Reaches(g, c, b)
  }

  /** In a start order from stably sorted roots priority decides, unless a dependency is in the way. */
  ghost predicate PriorityKept(g: Graph, priority: map<Name, int>, names: seq<Name>, order: seq<Name>) {
    forall a, b :: a in g.nodes && b in g.nodes && Ahead(priority, names, a, b) && Undisturbed(g, priority, names, a, b)
      ==> Precedes(order, a, b)
  }

  /** Below each service, where nothing ahead of it has placed it yet, the listed dependencies decide in their turn. */
  ghost predicate DependenciesKept(g: Graph, priority: map<Name, int>, names: seq<Name>, order: seq<Name>) {
    exists roots :: StablySorted(priority, names, roots) && Elements(roots) == g.nodes && AllDecide(g, roots, order)
  }

  ghost predicate AllDecide(g: Graph, roots: seq<Name>, order: seq<Name>) {
    forall k :: 0 <= k < |roots| ==> DependenciesDecide(g, roots, order, k)
  }

  ghost predicate InTurn(g: Graph, priority: map<Name, int>, names: seq<Name>, order: seq<Name>) {
    && IsStartOrder(g, order)
    && PriorityKept(g, priority, names, order) && DependenciesKept(g, priority, names, order)
  }

  lemma LeaderAtOrAhead(g: Graph, priority: map<Name, int>, names: seq<Name>, roots: seq<Name>, order: seq<Name>,
                        j: nat, i: nat) returns (c: Name)
    requires StablySorted(priority, names, roots) && RootsDecide(g, roots, order)
    requires j < i < |order| && order[i] in Elements(roots)
    ensures (c == order[i] || Ahead(priority, names, c, order[i])) && Leads(g, c, order[j])
  {
    assert Prompt(g, roots, order, j, i);
    var k :| 0 <= k < |roots| && roots[k] == order[i];
    assert LedBy(g, roots, k + 1, order[j]);
    var r :| 0 <= r < k + 1 && Leads(g, roots[r], order[j]);
    assert r < k ==> Ahead(priority, names, roots[r], order[i]);
    c := roots[r];
  }

  lemma OrderKeepsPriority(g: Graph, priority: map<Name, int>, names: seq<Name>, roots: seq<Name>, order: seq<Name>)
    requires Distinct(names) && StablySorted(priority, names, roots) && Elements(roots) == g.nodes
    requires IsStartOrder(g, order) && RootsDecide(g, roots, order) && AllDecide(g, roots, order)
    ensures InTurn(g, priority, names, order)
  {
    forall a, b | a in g.nodes && b in g.nodes && Ahead(priority, names, a, b) && Undisturbed(g, priority, names, a, b)
      ensures Precedes(order, a, b)
    {
      AheadOneWay(priority, names, a, b);
      assert a in Elements(order) && b in Elements(order) && a in Elements(roots);
      var i, j :| 0 <= i < |order| && order[i] == a && 0 <= j < |order| && order[j] == b;
      if j < i {
        var c := LeaderAtOrAhead(g, priority, names, roots, order, j, i);
      }
    }
  }

  /** The names of one priority, in their order. */
  ghost function OfPriority(priority: map<Name, int>, s: seq<Name>, p: int): seq<Name> {
    if s == [] then []
    else (if s[0] in priority && priority[s[0]] == p then [s[0]] else []) + OfPriority(priority, s[1..], p)
  }

  lemma Associate(x: seq<Name>, y: seq<Name>, z: seq<Name>)
    ensures x + (y + z) == (x + y) + z
  {
  }

  lemma {:induction false} OfPriorityConcat(priority: map<Name, int>, s: seq<Name>, t: seq<Name>, p: int)
    ensures OfPriority(priority, s + t, p) == OfPriority(priority, s, p) + OfPriority(priority, t, p)
  {
    if s == [] {
      assert s + t == t;
    } else {
      OfPriorityConcat(priority, s[1..], t, p);
      assert (s + t)[1..] == s[1..] + t && (s + t)[0] == s[0];
      var first := if s[0] in priority && priority[s[0]] == p then [s[0]] else [];
      Associate(first, OfPriority(priority, s[1..], p), OfPriority(priority, t, p));
    }
  }

  lemma OfPriorityAppends(priority: map<Name, int>, s: seq<Name>, a: Name)
    ensures forall p :: OfPriority(priority, s + [a], p) == OfPriority(priority, s, p) + OfPriority(priority, [a], p)
  {
    forall p ensures OfPriority(priority, s + [a], p) == OfPriority(priority, s, p) + OfPriority(priority, [a], p) {
      OfPriorityConcat(priority, s, [a], p);
    }
  }

  lemma {:induction false} NoneOfPriority(priority: map<Name, int>, s: seq<Name>, p: int)
    requires forall i :: 0 <= i < |s| ==> s[i] in priority && priority[s[i]] != p
    ensures OfPriority(priority, s, p) == []
  {
    if s != [] {
      NoneOfPriority(priority, s[1..], p);
    }
  }

  /** A name placed before the higher priorities comes last among its own. */
  lemma InsertedLast(priority: map<Name, int>, s: seq<Name>, k: nat, a: Name)
    requires k <= |s| && a in priority && forall i :: 0 <= i < |s| ==> s[i] in priority
    requires forall i :: k <= i < |s| ==> priority[s[i]] > priority[a]
    ensures forall p :: OfPriority(priority, s[..k] + [a] + s[k..], p)
                     == OfPriority(priority, s, p) + OfPriority(priority, [a], p)
  {
    assert s == s[..k] + s[k..];
    forall p ensures OfPriority(priority, s[..k] + [a] + s[k..], p)
                  == OfPriority(priority, s, p) + OfPriority(priority, [a], p)
    {
      InsertedLastAt(priority, s[..k], s[k..], a, p);
    }
  }

  lemma InsertedLastAt(priority: map<Name, int>, x: seq<Name>, y: seq<Name>, a: Name, p: int)
    requires a in priority && forall i :: 0 <= i < |y| ==> y[i] in priority && priority[y[i]] > priority[a]
    ensures OfPriority(priority, x + [a] + y, p) == OfPriority(priority, x + y, p) + OfPriority(priority, [a], p)
  {
    OfPriorityConcat(priority, x + [a], y, p);
    OfPriorityConcat(priority, x, [a], p);
    OfPriorityConcat(priority, x, y, p);
    if p == priority[a] {
      NoneOfPriority(priority, y, p);
    } else {
      NoneOfPriority(priority, [a], p);
    }
    SwapEmpty(OfPriority(priority, x, p), OfPriority(priority, [a], p), OfPriority(priority, y, p));
  }

  lemma SwapEmpty(x: seq<Name>, y: seq<Name>, z: seq<Name>)
    requires y == [] || z == []
    ensures x + y + z == x + z + y
  {
  }

  lemma InsertedOnce(s: seq<Name>, p: nat, a: Name)
    requires p <= |s|
    ensures multiset(s[..p] + [a] + s[p..]) == multiset(s) + multiset{a}
  {
    assert s == s[..p] + s[p..];
  }

  lemma SameMembers(s: seq<Name>, t: seq<Name>)
    requires multiset(s) == multiset(t)
    ensures Elements(s) == Elements(t)
  {
    forall x ensures x in Elements(s) <==> x in Elements(t) {
      assert x in s <==> x in multiset(s);
      assert x in t <==> x in multiset(t);
    }
  }
}
