/**
 Grouping sibling folders that may be one series: `_group_possible_same_series_dirs` in
 scripts/cbz_library_maintenance.py. The stack search returns exactly the connected components of the neighbour graph
 that are large enough, each once.
 */
module SeriesGroups {
  import opened Ordering

  type Graph = map<string, set<string>>

  /** Every link goes both ways, between folders of the graph. */
  ghost predicate Symmetric(g: Graph) {
    forall x, y | x in g && y in g[x] :: y in g && x in g[y]
  }

  ghost predicate IsPath(g: Graph, p: seq<string>, x: string, y: string) {
    && p != [] && p[0] == x && p[|p| - 1] == y
    && (forall i | 0 <= i < |p| :: p[i] in g)
    && forall i | 0 < i < |p| :: p[i] in g[p[i - 1]]
  }

  ghost predicate Connected(g: Graph, x: string, y: string) {
    exists p :: IsPath(g, p, x, y)
  }

  /** The folders connected to `x`. */
  ghost function Component(g: Graph, x: string): set<string> {
    set y | y in g && Connected(g, x, y)
  }

  lemma ConnectedToItself(g: Graph, x: string)
    requires x in g
    ensures Connected(g, x, x)
  {
    assert IsPath(g, [x], x, x);
  }

  lemma ConnectedOn(g: Graph, x: string, y: string, z: string)
    requires Symmetric(g) && Connected(g, x, y) && z in g[y]
    ensures Connected(g, x, z)
  {
    var p :| IsPath(g, p, x, y);
    assert IsPath(g, p + [z], x, z);
  }

  lemma {:induction false} ConnectedThrough(g: Graph, x: string, y: string, z: string)
    requires Connected(g, x, y) && Connected(g, y, z)
    ensures Connected(g, x, z)
  {
    var p :| IsPath(g, p, x, y);
    var q :| IsPath(g, q, y, z);
    var r := p + q[1..];
    assert forall i | |p| <= i < |r| :: r[i] == q[i - |p| + 1];
    assert IsPath(g, r, x, z);
  }

  lemma ConnectedBack(g: Graph, x: string, y: string)
    requires Symmetric(g) && Connected(g, x, y)
    ensures Connected(g, y, x)
  {
    var p :| IsPath(g, p, x, y);
    var r := seq(|p|, i requires 0 <= i < |p| => p[|p| - 1 - i]);
    forall i | 0 < i < |r| ensures r[i] in g[r[i - 1]] {
      assert p[|p| - i] in g[p[|p| - i - 1]];
    }
    assert IsPath(g, r, y, x);
  }

  /** No link leaves the set. */
  ghost predicate Closed(g: Graph, s: set<string>) {
    forall x, y {:trigger y in g[x], y in s} | x in s && x in g && y in g[x] :: y in s
  }

  /** A closed set holds everything connected to its members. */
  lemma {:induction false} ClosedHolds(g: Graph, s: set<string>, p: seq<string>, x: string, y: string)
    requires Closed(g, s) && x in s && IsPath(g, p, x, y)
    ensures y in s
    decreases |p|
  {
    if |p| > 1 {
      assert p[1] in g[p[0]];
      ClosedHolds(g, s, p[1..], p[1], y);
    }
  }

  /** Connected folders have one component. */
  lemma OneComponent(g: Graph, x: string, y: string)
    requires Symmetric(g) && Connected(g, x, y)
    ensures Component(g, x) == Component(g, y)
  {
    ConnectedBack(g, x, y);
    forall z | z in g ensures Connected(g, x, z) <==> Connected(g, y, z) {
      if Connected(g, x, z) {
        ConnectedThrough(g, y, x, z);
      }
      if Connected(g, y, z) {
        ConnectedThrough(g, x, y, z);
      }
    }
  }

  // ------------------------------------------------------------ the graph

  predicate IsPair(x: string, y: string, a: string, b: string) {
    (x == a && y == b) || (x == b && y == a)
  }

  /** The pair at positions m < n of the list is linked and is x and y, either way round. */
  predicate LinkedPair(dirs: seq<string>, linked: (string, string) -> bool, m: nat, n: nat, x: string, y: string) {
    m < n < |dirs| && linked(dirs[m], dirs[n]) && IsPair(x, y, dirs[m], dirs[n])
  }

  /** A linked pair before position (i, j) of the double loop. */
  ghost predicate LinkedUpTo(dirs: seq<string>, linked: (string, string) -> bool, i: nat, j: nat, x: string, y: string) {
    exists m: nat, n: nat | m < i || (m == i && n < j) :: LinkedPair(dirs, linked, m, n, x, y)
  }

  /** A pair of the list is linked, looked at in list order. */
  ghost predicate Linked(dirs: seq<string>, linked: (string, string) -> bool, x: string, y: string) {
    exists m: nat, n: nat :: LinkedPair(dirs, linked, m, n, x, y)
  }

  ghost predicate GraphUpTo(g: Graph, dirs: seq<string>, linked: (string, string) -> bool, i: nat, j: nat) {
    g.Keys == Elements(dirs) && forall x, y | x in g :: y in g[x] <==> LinkedUpTo(dirs, linked, i, j, x, y)
  }

  function AddLink(g: Graph, a: string, b: string): (h: Graph)
    requires a in g && b in g && a != b
    ensures h.Keys == g.Keys
    ensures forall x, y | x in g :: y in h[x] <==> y in g[x] || IsPair(x, y, a, b)
  {
    g[a := g[a] + {b}][b := g[b] + {a}]
  }

  lemma OnePairMore(dirs: seq<string>, linked: (string, string) -> bool, i: nat, j: nat, x: string, y: string)
    ensures LinkedUpTo(dirs, linked, i, j + 1, x, y)
      <==> LinkedUpTo(dirs, linked, i, j, x, y) || LinkedPair(dirs, linked, i, j, x, y)
  {
  }

  /** A row of the double loop starts behind the diagonal and ends at the end of the list. */
  lemma RowEnds(dirs: seq<string>, linked: (string, string) -> bool, i: nat, x: string, y: string)
    ensures LinkedUpTo(dirs, linked, i, 0, x, y) <==> LinkedUpTo(dirs, linked, i, i + 1, x, y)
    ensures LinkedUpTo(dirs, linked, i, |dirs|, x, y) <==> LinkedUpTo(dirs, linked, i + 1, 0, x, y)
  {
  }

  lemma StepGraph(g: Graph, dirs: seq<string>, linked: (string, string) -> bool, i: nat, j: nat)
    requires i < j < |dirs| && dirs[i] != dirs[j] && GraphUpTo(g, dirs, linked, i, j)
    requires dirs[i] in g && dirs[j] in g
    ensures GraphUpTo(if linked(dirs[i], dirs[j]) then AddLink(g, dirs[i], dirs[j]) else g, dirs, linked, i, j + 1)
  {
    forall x, y | x in g ensures LinkedUpTo(dirs, linked, i, j + 1, x, y)
      <==> LinkedUpTo(dirs, linked, i, j, x, y) || (linked(dirs[i], dirs[j]) && IsPair(x, y, dirs[i], dirs[j]))
    {
      OnePairMore(dirs, linked, i, j, x, y);
    }
  }

  /** The neighbour graph. */
  ghost function LinkGraph(dirs: seq<string>, linked: (string, string) -> bool): Graph {
    map d | d in Elements(dirs) :: set e | e in Elements(dirs) && Linked(dirs, linked, d, e)
  }

  /** The loops that fill `neighbors`. */
  method Neighbours(dirs: seq<string>, linked: (string, string) -> bool) returns (g: Graph)
    requires NoRepeats(dirs)
    ensures g == LinkGraph(dirs, linked) && Symmetric(g)
  {
    g := map d | d in dirs :: {};
    for i := 0 to |dirs|
      invariant GraphUpTo(g, dirs, linked, i, 0)
    {
      forall x, y ensures LinkedUpTo(dirs, linked, i, 0, x, y) <==> LinkedUpTo(dirs, linked, i, i + 1, x, y) {
        RowEnds(dirs, linked, i, x, y);
      }
      for j := i + 1 to |dirs|
        invariant GraphUpTo(g, dirs, linked, i, j)
      {
        assert dirs[i] in Elements(dirs) && dirs[j] in Elements(dirs);
        StepGraph(g, dirs, linked, i, j);
        if linked(dirs[i], dirs[j]) {
          g := AddLink(g, dirs[i], dirs[j]);
        }
      }
      forall x, y ensures LinkedUpTo(dirs, linked, i, |dirs|, x, y) <==> LinkedUpTo(dirs, linked, i + 1, 0, x, y) {
        RowEnds(dirs, linked, i, x, y);
      }
    }
    FullGraph(g, dirs, linked);
  }

  lemma FullGraph(g: Graph, dirs: seq<string>, linked: (string, string) -> bool)
    requires GraphUpTo(g, dirs, linked, |dirs|, 0)
    ensures Symmetric(g) && g == LinkGraph(dirs, linked)
  {
    forall x, y | x in g
      ensures y in g[x] <==> Linked(dirs, linked, x, y)
      ensures y in g[x] ==> y in g && x in g[y]
    {
      if m: nat, n: nat :| LinkedPair(dirs, linked, m, n, x, y) {
        assert m < |dirs| && LinkedPair(dirs, linked, m, n, y, x);
        assert LinkedUpTo(dirs, linked, |dirs|, 0, x, y) && LinkedUpTo(dirs, linked, |dirs|, 0, y, x);
        assert dirs[m] in Elements(dirs) && dirs[n] in Elements(dirs);
      }
    }
    forall x | x in g ensures g[x] == LinkGraph(dirs, linked)[x] {
    }
  }

  // ------------------------------------------------------------ the search

  /** What one search knows: `done` and `stack` together are what it has seen beyond `before`, all connected to `start`,
      and nothing next to `done` is unseen. */
  ghost predicate Searching(g: Graph, before: set<string>, start: string, component: seq<string>, stack: seq<string>,
                            seen: set<string>) {
    && seen == before + Elements(component) + Elements(stack)
    && Elements(component) !! Elements(stack) && before !! Elements(component) + Elements(stack)
    && seen <= g.Keys && start in Elements(component) + Elements(stack)
    && NoRepeats(component) && NoRepeats(stack)
    && (forall x | x in Elements(component) + Elements(stack) :: Connected(g, start, x))
    && forall x, y | x in component && y in g[x] :: y in seen
  }

  ghost predicate NoRepeats(s: seq<string>) {
    forall i, j | 0 <= i < j < |s| :: s[i] != s[j]
  }

  lemma {:induction false} NoRepeatsSize(s: seq<string>)
    requires NoRepeats(s)
    ensures |Elements(s)| == |s|
  {
    if s != [] {
      var init, last := s[..|s| - 1], s[|s| - 1];
      NoRepeatsSize(init);
      ElementsAppend(init, last);
      assert s == init + [last];
    } else {
      NoElements(s);
    }
  }

  /** A folder popped from the stack, with those next to it that were not seen. */
  lemma PopStep(g: Graph, before: set<string>, start: string, component: seq<string>, stack: seq<string>,
                seen: set<string>, news: seq<string>)
    requires Symmetric(g) && Searching(g, before, start, component, stack, seen) && stack != []
    requires NoRepeats(news) && Elements(news) == g[stack[|stack| - 1]] - seen
    ensures Searching(g, before, start, component + [stack[|stack| - 1]], stack[..|stack| - 1] + news,
                      seen + Elements(news))
  {
    var rest, cur := stack[..|stack| - 1], stack[|stack| - 1];
    assert stack == rest + [cur];
    ElementsAppend(rest, cur);
    ElementsAppend(component, cur);
    ElementsSum(rest, news);
    assert cur in Elements(stack);
    forall x | x in Elements(news) ensures Connected(g, start, x) {
      ConnectedOn(g, start, cur, x);
    }
    RepeatsSum(rest, news);
    forall i | 0 <= i < |component| ensures component[i] != cur {
      assert component[i] in Elements(component);
    }
  }

  lemma ElementsSum(a: seq<string>, b: seq<string>)
    ensures Elements(a + b) == Elements(a) + Elements(b)
  {
  }

  lemma RepeatsSum(a: seq<string>, b: seq<string>)
    requires NoRepeats(a) && NoRepeats(b) && Elements(a) !! Elements(b)
    ensures NoRepeats(a + b)
  {
    forall i, j | 0 <= i < |a| && 0 <= j < |b| ensures a[i] != b[j] {
      assert a[i] in Elements(a) && b[j] in Elements(b);
    }
  }

  lemma BoundedSize(keys: set<string>, s: seq<string>)
    requires NoRepeats(s) && Elements(s) <= keys
    ensures |s| <= |keys|
  {
    NoRepeatsSize(s);
    assert keys == Elements(s) + (keys - Elements(s));
  }

  /** With an empty stack the search has found the whole component, if what was seen before was complete. */
  lemma SearchComplete(g: Graph, before: set<string>, start: string, component: seq<string>, seen: set<string>)
    requires Symmetric(g) && Searching(g, before, start, component, [], seen)
    requires Closed(g, before)
    ensures Elements(component) == Component(g, start) && |component| == |Component(g, start)|
    ensures Closed(g, seen)
  {
    var s := Elements(component);
    NoElements<string>([]);
    forall x, y | x in s && x in g && y in g[x] ensures y in s {
      assert y in seen && x in g[y];
    }
    forall y | y in Component(g, start) ensures y in s {
      var p :| IsPath(g, p, start, y);
      ClosedHolds(g, s, p, start, y);
    }
    NoRepeatsSize(component);
  }

  /** The inner loop over the neighbours of one folder. */
  method Unseen(next: set<string>, seen: set<string>) returns (news: seq<string>)
    ensures NoRepeats(news) && Elements(news) == next - seen
  {
    news := [];
    var rest := next;
    while rest != {}
      invariant rest <= next && NoRepeats(news) && Elements(news) == next - rest - seen
    {
      var n :| n in rest;
      rest := rest - {n};
      if n !in seen {
        ElementsAppend(news, n);
        assert n !in Elements(news);
        news := news + [n];
      }
    }
  }

  /** The stack search from one folder. */
  method Search(g: Graph, before: set<string>, start: string) returns (component: seq<string>, seen: set<string>)
    requires Symmetric(g) && start in g && start !in before && before <= g.Keys
    requires Closed(g, before)
    ensures Elements(component) == Component(g, start) && |component| == |Component(g, start)|
    ensures seen == before + Component(g, start) && seen <= g.Keys
    ensures Closed(g, seen)
  {
    var stack := [start];
    component, seen := [], before + {start};
    ConnectedToItself(g, start);
    while stack != []
      invariant Searching(g, before, start, component, stack, seen)
      decreases |g.Keys| - |component|
    {
      var cur := stack[|stack| - 1];
      assert cur in Elements(stack);
      var news := Unseen(g[cur], seen);
      PopStep(g, before, start, component, stack, seen, news);
      BoundedSize(g.Keys, component + [cur]);
      component := component + [cur];
      stack := stack[..|stack| - 1] + news;
      assert Elements(news) == set x | x in news;
      seen := seen + set x | x in news;
    }
    SearchComplete(g, before, start, component, seen);
  }

  ghost predicate IsGroup(g: Graph, minimum: nat, seen: set<string>, c: set<string>) {
    |c| >= minimum && exists d | d in seen :: c == Component(g, d)
  }

  /** The groups found so far: components of what was seen, large enough, each once. */
  ghost predicate GroupsOf(g: Graph, minimum: nat, seen: set<string>, groups: seq<set<string>>) {
    && (forall i {:trigger IsGroup(g, minimum, seen, groups[i])} | 0 <= i < |groups| :: IsGroup(g, minimum, seen, groups[i]))
    && (forall d {:trigger Component(g, d)} | d in seen && |Component(g, d)| >= minimum :: Component(g, d) in groups)
    && forall i, j | 0 <= i < j < |groups| :: groups[i] !! groups[j]
  }

  lemma OneGroupMore(g: Graph, minimum: nat, before: set<string>, groups: seq<set<string>>, start: string)
    requires Symmetric(g) && start in g && start !in before && before <= g.Keys
    requires Closed(g, before)
    requires GroupsOf(g, minimum, before, groups)
    ensures var c := Component(g, start);
      GroupsOf(g, minimum, before + c, if |c| >= minimum then groups + [c] else groups)
  {
    var c := Component(g, start);
    var more := if |c| >= minimum then groups + [c] else groups;
    ConnectedToItself(g, start);
    forall i | 0 <= i < |groups| ensures groups[i] !! c && IsGroup(g, minimum, before + c, groups[i]) {
      assert IsGroup(g, minimum, before, groups[i]);
      var d :| d in before && groups[i] == Component(g, d);
      assert d in before + c;
      ApartFrom(g, before, d, start);
    }
    forall i | 0 <= i < |more| ensures IsGroup(g, minimum, before + c, more[i]) {
      assert start in before + c;
    }
    forall d | d in before + c && |Component(g, d)| >= minimum ensures Component(g, d) in more {
      if d in before {
        assert Component(g, d) in groups;
      } else {
        OneComponent(g, start, d);
        assert |c| >= minimum ==> more[|groups|] == c;
      }
    }
  }

  /** A closed set keeps the components of its members apart from the others. */
  lemma ApartFrom(g: Graph, before: set<string>, d: string, start: string)
    requires Symmetric(g) && Closed(g, before) && d in before && start !in before
    ensures Component(g, d) !! Component(g, start)
  {
    forall x | x in Component(g, d) ensures x !in Component(g, start) {
      var p :| IsPath(g, p, d, x);
      ClosedHolds(g, before, p, d, x);
      StaysIn(g, before, x, start);
    }
  }

  lemma StaysIn(g: Graph, before: set<string>, x: string, start: string)
    requires Symmetric(g) && Closed(g, before) && x in before && start !in before
    ensures !Connected(g, start, x)
  {
    if Connected(g, start, x) {
      ConnectedBack(g, start, x);
      var q :| IsPath(g, q, x, start);
      ClosedHolds(g, before, q, x, start);
    }
  }

  lemma TooFew(g: Graph, minimum: nat)
    requires |g.Keys| < minimum
    ensures GroupsOf(g, minimum, g.Keys, [])
  {
    forall d ensures |Component(g, d)| < minimum {
      assert g.Keys == Component(g, d) + (g.Keys - Component(g, d));
    }
  }

  /** The loop over all folders. */
  method SearchAll(g: Graph, dirs: seq<string>, minimum: nat) returns (groups: seq<set<string>>)
    requires Symmetric(g) && g.Keys == Elements(dirs)
    ensures GroupsOf(g, minimum, g.Keys, groups)
  {
    groups := [];
    var seen: set<string> := {};
    for k := 0 to |dirs|
      invariant Elements(dirs[..k]) <= seen <= g.Keys && Closed(g, seen)
      invariant GroupsOf(g, minimum, seen, groups)
    {
      var start := dirs[k];
      assert start in Elements(dirs);
      ElementsAppend(dirs[..k], start);
      assert dirs[..k + 1] == dirs[..k] + [start];
      if start !in seen {
        OneGroupMore(g, minimum, seen, groups, start);
        ConnectedToItself(g, start);
        var component, all := Search(g, seen, start);
        assert Elements(component) == set d | d in component;
        seen := all;
        if |component| >= minimum {
          groups := groups + [set d | d in component];
        }
      }
    }
    assert dirs[..|dirs|] == dirs;
    assert seen == g.Keys;
  }

  /** The groups of `_group_possible_same_series_dirs`: exactly the components of at least the minimum size, without
      overlap. */
  method Groups(dirs: seq<string>, linked: (string, string) -> bool, minimum: nat) returns (groups: seq<set<string>>)
    requires NoRepeats(dirs)
    ensures GroupsOf(LinkGraph(dirs, linked), minimum, Elements(dirs), groups)
  {
    var g := Neighbours(dirs, linked);
    assert g.Keys == Elements(dirs);
    if |dirs| < minimum {
      NoRepeatsSize(dirs);
      TooFew(g, minimum);
      return [];
    }
    groups := SearchAll(g, dirs, minimum);
  }

  /** No folder is in two groups, no folder connected to one of a group is missing, and a folder is in no group only when
      its component is too small. */
  lemma GroupsAreComponents(g: Graph, minimum: nat, groups: seq<set<string>>, i: nat, x: string, y: string)
    requires Symmetric(g) && GroupsOf(g, minimum, g.Keys, groups) && i < |groups| && x in groups[i] && y in g
    ensures y in groups[i] <==> Connected(g, x, y)
    ensures forall j | 0 <= j < |groups| && j != i :: x !in groups[j]
  {
    assert IsGroup(g, minimum, g.Keys, groups[i]);
    var d :| d in g.Keys && groups[i] == Component(g, d);
    OneComponent(g, d, x);
    assert y in Component(g, x) <==> Connected(g, x, y);
  }
}
