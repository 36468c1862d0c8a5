/**
 The breadth-first iterator: one queue in which a marker separates two levels,
 and a set of visited nodes.  It enumerates exactly the reachable nodes, each
 once, and reports the length of a shortest path to each.
 */
module BreadthFirst {
  import opened Wrappers

  /** A node's successors in order; nodes without an entry have none. */
  type Graph<N(==)> = map<N, seq<N>>

  function Children<N(==)>(g: Graph<N>, u: N): seq<N> {
    if u in g then g[u] else []
  }

  // ------------------------------------------------------------- distances

  /** There is a walk of exactly `n` edges from `root` to `v`. */
  ghost predicate Walk<N(!new)>(g: Graph<N>, root: N, n: nat, v: N) {
    if n == 0 then v == root else exists u | u in g :: v in g[u] && Walk(g, root, n - 1, u)
  }

  ghost predicate Reachable<N(!new)>(g: Graph<N>, root: N, v: N) {
    exists n: nat :: Walk(g, root, n, v)
  }

  /** The shortest walk to `v` has `d` edges. */
  ghost predicate AtDistance<N(!new)>(g: Graph<N>, root: N, v: N, d: nat) {
    Walk(g, root, d, v) && forall n: nat | n < d :: !Walk(g, root, n, v)
  }

  /** Every reachable node has a distance, no longer than any walk to it. */
  lemma {:induction false} HasDistance<N(!new)>(g: Graph<N>, root: N, v: N, n: nat) returns (d: nat)
    requires Walk(g, root, n, v)
    ensures d <= n && AtDistance(g, root, v, d)
  {
    if k: nat :| k < n && Walk(g, root, k, v) {
      d := HasDistance(g, root, v, k);
    } else {
      d := n;
    }
  }

  /** The last step of a shortest walk comes from a node one step closer. */
  lemma Predecessor<N(!new)>(g: Graph<N>, root: N, v: N, d: nat) returns (u: N)
    requires AtDistance(g, root, v, d + 1)
    ensures v in Children(g, u) && AtDistance(g, root, u, d)
  {
    u :| u in g && v in g[u] && Walk(g, root, d, u);
    var k := HasDistance(g, root, u, d);
    assert Walk(g, root, k + 1, v);
  }

  lemma OneDistance<N(!new)>(g: Graph<N>, root: N, v: N, d: nat, e: nat)
    requires AtDistance(g, root, v, d) && AtDistance(g, root, v, e)
    ensures d == e
  {
  }

  // ------------------------------------------------------- search, as a value

  ghost predicate Distinct<N>(s: seq<N>) {
    forall i, j | 0 <= i < j < |s| :: s[i] != s[j]
  }

  /**
   All visited nodes in the order of their discovery, with their distances.
   The iterator has left the first `front` of them behind; the first `marker`
   are as far as the current level, the others are one step further away.
   */
  datatype Search<!N(==)> = Search(order: seq<N>, dist: seq<nat>, front: nat, marker: nat, level: nat)

  ghost predicate Ordered<N>(s: Search<N>) {
    && |s.dist| == |s.order| && s.front <= s.marker <= |s.order| && Distinct(s.order)
    && (s.front == s.marker ==> s.front == |s.order|)
    && (forall i, j | 0 <= i <= j < |s.order| :: s.dist[i] <= s.dist[j])
    && (forall i | 0 <= i < s.marker :: s.dist[i] <= s.level)
    && (forall i | s.front <= i < s.marker :: s.dist[i] == s.level)
    && (forall i | s.marker <= i < |s.order| :: s.dist[i] == s.level + 1)
  }

  /** Every recorded distance is right and no node that is at most `level` away is missing. */
  ghost predicate Measured<N(!new)>(g: Graph<N>, root: N, s: Search<N>)
    requires |s.dist| == |s.order|
  {
    && (forall i | 0 <= i < |s.order| :: AtDistance(g, root, s.order[i], s.dist[i]))
    && (forall v, d: nat | d <= s.level && AtDistance(g, root, v, d) :: v in s.order)
  }

  /** The children of the first `n` nodes have been discovered. */
  ghost predicate Expanded<N>(g: Graph<N>, s: Search<N>, n: nat) {
    n <= |s.order| && forall i, v | 0 <= i < n && v in Children(g, s.order[i]) :: v in s.order
  }

  ghost predicate Consistent<N(!new)>(g: Graph<N>, root: N, s: Search<N>) {
    Ordered(s) && Measured(g, root, s) && Expanded(g, s, s.front) && root in s.order
  }

  /** An unvisited child of a node at distance `d` is at distance `d + 1`. */
  lemma ChildDistance<N(!new)>(g: Graph<N>, root: N, u: N, v: N, d: nat)
    requires AtDistance(g, root, u, d) && v in Children(g, u)
    requires forall e: nat | e <= d :: !AtDistance(g, root, v, e)
    ensures AtDistance(g, root, v, d + 1)
  {
    assert Walk(g, root, d + 1, v);
    var e := HasDistance(g, root, v, d + 1);
  }

  /** The search once the unvisited children of the front node have been appended. */
  ghost predicate Expansion<N(!new)>(g: Graph<N>, s: Search<N>, s': Search<N>) {
    && Ordered(s) && Ordered(s') && s.front < |s.order|
    && s.order <= s'.order && s'.front == s.front && s'.marker == s.marker && s'.level == s.level && s.dist <= s'.dist
    && (forall i | |s.order| <= i < |s'.order| :: s'.order[i] in Children(g, s.order[s.front]))
  }

  function Discover<N>(s: Search<N>, v: N): Search<N> {
    s.(order := s.order + [v], dist := s.dist + [s.level + 1])
  }

  lemma DiscoverOrdered<N>(s: Search<N>, v: N)
    requires Ordered(s) && s.front < |s.order| && v !in s.order
    ensures Ordered(Discover(s, v))
  {
  }

  lemma ExpandOne<N(!new)>(g: Graph<N>, s: Search<N>, s': Search<N>, v: N)
    requires Expansion(g, s, s') && v !in s'.order && v in Children(g, s.order[s.front])
    ensures Expansion(g, s, Discover(s', v))
  {
    DiscoverOrdered(s', v);
  }

  lemma ExpansionMeasured<N(!new)>(g: Graph<N>, root: N, s: Search<N>, s': Search<N>)
    requires Expansion(g, s, s') && Measured(g, root, s)
    ensures Measured(g, root, s')
  {
    forall i | 0 <= i < |s'.order|
      ensures AtDistance(g, root, s'.order[i], s'.dist[i])
    {
      if i >= |s.order| {
        var u, v := s.order[s.front], s'.order[i];
        assert v !in s.order by {
          assert forall j | 0 <= j < |s.order| :: s'.order[j] == s.order[j];
        }
        ChildDistance(g, root, u, v, s.level);
      }
    }
    assert forall v | v in s.order :: v in s'.order;
  }

  /** Leaves the front node behind; at the marker, the next level begins. */
  function Advance<N>(s: Search<N>): Search<N>
    requires s.front < |s.order|
  {
    if s.front + 1 < s.marker then s.(front := s.front + 1)
    else s.(front := s.front + 1, marker := |s.order|, level := s.level + 1)
  }

  /** One whole step of the iterator. */
  lemma StepConsistent<N(!new)>(g: Graph<N>, root: N, s: Search<N>, s': Search<N>)
    requires Consistent(g, root, s) && Expansion(g, s, s')
    requires forall v | v in Children(g, s.order[s.front]) :: v in s'.order
    ensures Consistent(g, root, Advance(s'))
  {
    ExpansionMeasured(g, root, s, s');
    assert forall i | 0 <= i < |s.order| :: s'.order[i] == s.order[i];
    assert forall v | v in s.order :: v in s'.order;
    assert Expanded(g, s', s'.front + 1);
    if s'.front + 1 == s'.marker {
      forall v, d: nat | d <= s'.level + 1 && AtDistance(g, root, v, d)
        ensures v in s'.order
      {
        if d == s'.level + 1 {
          LevelComplete(g, root, s', v);
        }
      }
    }
  }

  /** When all nodes before the marker are expanded, the whole next level has been discovered. */
  lemma LevelComplete<N(!new)>(g: Graph<N>, root: N, s: Search<N>, v: N)
    requires Ordered(s) && Measured(g, root, s) && Expanded(g, s, s.marker) && AtDistance(g, root, v, s.level + 1)
    ensures v in s.order
  {
    var u := Predecessor(g, root, v, s.level);
    var i :| 0 <= i < |s.order| && s.order[i] == u;
    OneDistance(g, root, u, s.level, s.dist[i]);
    assert v in Children(g, s.order[i]);
  }

  /** At the end, exactly the reachable nodes have been discovered. */
  lemma {:induction false} AllReached<N(!new)>(g: Graph<N>, root: N, s: Search<N>, n: nat, v: N)
    requires Consistent(g, root, s) && s.front == |s.order| && Walk(g, root, n, v)
    ensures v in s.order
  {
    if n > 0 {
      var u :| u in g && v in g[u] && Walk(g, root, n - 1, u);
      AllReached(g, root, s, n - 1, u);
      var i :| 0 <= i < |s.order| && s.order[i] == u;
      assert v in Children(g, s.order[i]);
    }
  }

  // ------------------------------------------------------- order of discovery

  /** Node `k` is child `e` of node `q`. */
  predicate IsChild<N(==)>(g: Graph<N>, order: seq<N>, q: nat, e: nat, k: nat) {
    q < |order| && k < |order| && e < |Children(g, order[q])| && Children(g, order[q])[e] == order[k]
  }

  /** An earlier parent, or an earlier child of the same one. */
  predicate Earlier(q: nat, e: nat, p: nat, c: nat) {
    q < p || (q == p && e < c)
  }

  /** Looking at children in turn, up to child `c` of node `p`, finds node `k`. */
  ghost predicate FoundBefore<N>(g: Graph<N>, order: seq<N>, k: nat, p: nat, c: nat) {
    exists q: nat, e: nat :: Earlier(q, e, p, c) && IsChild(g, order, q, e, k)
  }

  /**
   The nodes stand in the order in which their parents' children are looked
   at: whichever way a node is found, those listed before it have been found
   before.
   */
  ghost predicate InTurn<N>(g: Graph<N>, order: seq<N>, p: nat, c: nat) {
    && (forall k: nat | 0 < k < |order| :: FoundBefore(g, order, k, p, c))
    && (forall k: nat, l: nat, q: nat, e: nat | 0 < k < l < |order| && Earlier(q, e, p, c) && IsChild(g, order, q, e, l) ::
          FoundBefore(g, order, k, q, e))
  }

  /** Every child looked at is listed. */
  ghost predicate LookedAt<N>(g: Graph<N>, order: seq<N>, p: nat, c: nat) {
    forall q: nat, e: nat | q < |order| && Earlier(q, e, p, c) && e < |Children(g, order[q])| :: Children(g, order[q])[e] in order
  }

  lemma IsChildMore<N>(g: Graph<N>, order: seq<N>, v: N, q: nat, e: nat, k: nat)
    requires q < |order| && k < |order|
    ensures IsChild(g, order + [v], q, e, k) <==> IsChild(g, order, q, e, k)
  {
  }

  lemma FoundMore<N>(g: Graph<N>, order: seq<N>, v: N, k: nat, p: nat, c: nat)
    requires FoundBefore(g, order, k, p, c)
    ensures FoundBefore(g, order + [v], k, p, c)
  {
    var q: nat, e: nat :| Earlier(q, e, p, c) && IsChild(g, order, q, e, k);
    IsChildMore(g, order, v, q, e, k);
  }

  lemma AllFoundLater<N>(g: Graph<N>, order: seq<N>, p: nat, c: nat, q: nat, d: nat)
    requires forall k: nat | 0 < k < |order| :: FoundBefore(g, order, k, p, c)
    requires forall a: nat, e: nat | a < |order| && e < |Children(g, order[a])| && Earlier(a, e, p, c) :: Earlier(a, e, q, d)
    ensures forall k: nat | 0 < k < |order| :: FoundBefore(g, order, k, q, d)
  {
    forall k: nat | 0 < k < |order|
      ensures FoundBefore(g, order, k, q, d)
    {
      assert FoundBefore(g, order, k, p, c);
      var a: nat, e: nat :| Earlier(a, e, p, c) && IsChild(g, order, a, e, k);
      assert Earlier(a, e, q, d);
    }
  }

  /** One more child that has been listed already. */
  lemma KnownChild<N>(g: Graph<N>, order: seq<N>, p: nat, c: nat)
    requires InTurn(g, order, p, c) && LookedAt(g, order, p, c)
    requires p < |order| && c < |Children(g, order[p])| && Children(g, order[p])[c] in order
    ensures InTurn(g, order, p, c + 1) && LookedAt(g, order, p, c + 1)
  {
    AllFoundLater(g, order, p, c, p, c + 1);
    forall k: nat, l: nat, q: nat, e: nat | 0 < k < l < |order| && Earlier(q, e, p, c + 1) && IsChild(g, order, q, e, l)
      ensures FoundBefore(g, order, k, q, e)
    {
      assert Earlier(q, e, p, c) || (q == p && e == c);
    }
  }

  /** One more child, which is new. */
  lemma NewChild<N>(g: Graph<N>, order: seq<N>, p: nat, c: nat)
    requires InTurn(g, order, p, c) && LookedAt(g, order, p, c)
    requires p < |order| && c < |Children(g, order[p])| && Children(g, order[p])[c] !in order
    ensures var more := order + [Children(g, order[p])[c]]; InTurn(g, more, p, c + 1) && LookedAt(g, more, p, c + 1)
  {
    var more, d := order + [Children(g, order[p])[c]], c + 1;
    forall k: nat | 0 < k < |more|
      ensures FoundBefore(g, more, k, p, d)
    {
      NewChildFound(g, order, p, c, k);
    }
    forall k: nat, l: nat, q: nat, e: nat | 0 < k < l < |more| && Earlier(q, e, p, d) && IsChild(g, more, q, e, l)
      ensures FoundBefore(g, more, k, q, e)
    {
      NewChildTurn(g, order, p, c, k, l, q, e);
    }
    NewChildLooked(g, order, p, c);
  }

  lemma NewChildFound<N>(g: Graph<N>, order: seq<N>, p: nat, c: nat, k: nat)
    requires InTurn(g, order, p, c) && p < |order| && c < |Children(g, order[p])| && 0 < k <= |order|
    ensures FoundBefore(g, order + [Children(g, order[p])[c]], k, p, c + 1)
  {
    var v := Children(g, order[p])[c];
    var more := order + [v];
    if k < |order| {
      FoundMore(g, order, v, k, p, c);
      var q: nat, e: nat :| Earlier(q, e, p, c) && IsChild(g, more, q, e, k);
      assert Earlier(q, e, p, c + 1);
    } else {
      assert more[p] == order[p];
      assert IsChild(g, more, p, c, k) && Earlier(p, c, p, c + 1);
    }
  }

  lemma NewChildTurn<N>(g: Graph<N>, order: seq<N>, p: nat, c: nat, k: nat, l: nat, q: nat, e: nat)
    requires InTurn(g, order, p, c) && LookedAt(g, order, p, c)
    requires p < |order| && c < |Children(g, order[p])| && Children(g, order[p])[c] !in order
    requires var more := order + [Children(g, order[p])[c]];
             0 < k < l < |more| && Earlier(q, e, p, c + 1) && IsChild(g, more, q, e, l)
    ensures FoundBefore(g, order + [Children(g, order[p])[c]], k, q, e)
  {
    var n, v := |order|, Children(g, order[p])[c];
    assert (order + [v])[q] == order[q];
    if Earlier(q, e, p, c) {
      assert l < n;
      IsChildMore(g, order, v, q, e, l);
      FoundMore(g, order, v, k, q, e);
    } else {
      assert q == p && e == c;
      assert k < n;
      FoundMore(g, order, v, k, p, c);
    }
  }

  lemma NewChildLooked<N>(g: Graph<N>, order: seq<N>, p: nat, c: nat)
    requires LookedAt(g, order, p, c) && p < |order| && c < |Children(g, order[p])|
    ensures LookedAt(g, order + [Children(g, order[p])[c]], p, c + 1)
  {
    var more := order + [Children(g, order[p])[c]];
    forall q: nat, e: nat | q < |more| && Earlier(q, e, p, c + 1) && e < |Children(g, more[q])|
      ensures Children(g, more[q])[e] in more
    {
      assert more[q] == order[q];
      assert Earlier(q, e, p, c) || (q == p && e == c);
    }
  }

  ghost predicate Listed<N>(g: Graph<N>, order: seq<N>, p: nat, c: nat) {
    InTurn(g, order, p, c) && LookedAt(g, order, p, c)
  }

  lemma ListChild<N>(g: Graph<N>, order: seq<N>, p: nat, c: nat)
    requires p < |order| && c < |Children(g, order[p])|
    ensures var v := Children(g, order[p])[c];
            Listed(g, order, p, c) ==> Listed(g, if v in order then order else order + [v], p, c + 1)
  {
    if Listed(g, order, p, c) {
      if Children(g, order[p])[c] in order {
        KnownChild(g, order, p, c);
      } else {
        NewChild(g, order, p, c);
      }
    }
  }

  lemma ListNext<N>(g: Graph<N>, order: seq<N>, p: nat)
    requires p < |order|
    ensures Listed(g, order, p, |Children(g, order[p])|) ==> Listed(g, order, p + 1, 0)
  {
    if Listed(g, order, p, |Children(g, order[p])|) {
      NextParent(g, order, p);
    }
  }

  /** After the last child of a node, the children of the next one are looked at. */
  lemma NextParent<N>(g: Graph<N>, order: seq<N>, p: nat)
    requires p < |order| && Listed(g, order, p, |Children(g, order[p])|)
    ensures Listed(g, order, p + 1, 0)
  {
    var c := |Children(g, order[p])|;
    AllFoundLater(g, order, p, c, p + 1, 0);
    forall k: nat, l: nat, q: nat, e: nat | 0 < k < l < |order| && Earlier(q, e, p + 1, 0) && IsChild(g, order, q, e, l)
      ensures FoundBefore(g, order, k, q, e)
    {
      assert Earlier(q, e, p, c);
    }
    forall q: nat, e: nat | q < |order| && Earlier(q, e, p + 1, 0) && e < |Children(g, order[q])|
      ensures Children(g, order[q])[e] in order
    {
      assert Earlier(q, e, p, c);
    }
  }

  // -------------------------------------------------------------- iterator

  /** Queued nodes, as the queue holds them. */
  ghost function Pending<N>(s: seq<N>): (q: seq<Option<N>>)
    ensures |q| == |s| && forall i | 0 <= i < |s| :: q[i] == Some(s[i])
  {
    seq(|s|, i requires 0 <= i < |s| => Some(s[i]))
  }

  ghost function QueueOf<N>(s: Search<N>): seq<Option<N>>
    requires s.front <= s.marker <= |s.order|
  {
    if s.front == s.marker then []
    else Pending(s.order[s.front..s.marker]) + [None] + Pending(s.order[s.marker..])
  }

  class BfIterator<N(==, !new)> {
    const graph: Graph<N>
    var visitQueue: seq<Option<N>>  // `None` is the level marker
    var visited: set<N>
    var level: nat

    ghost var search: Search<N>

    ghost predicate Valid()
      reads this
    {
      && Ordered(search)
      && visitQueue == QueueOf(search)
      && (forall v :: v in visited <==> v in search.order)
      && level == search.level
    }

    /** `bf_begin`. */
    constructor (g: Graph<N>, entry: N)
      ensures Valid() && graph == g && search == Search([entry], [0], 0, 1, 0)
    {
      graph := g;
      visited, level := {entry}, 0;
      visitQueue := [Some(entry), None];
      search := Search([entry], [0], 0, 1, 0);
      new;
      assert QueueOf(search) == [Some(entry), None];
    }

    /** Comparison with `bf_end`, whose queue is empty. */
    method AtEnd() returns (end: bool)
      requires Valid()
      ensures end <==> search.front == |search.order|
    {
      end := visitQueue == [];
    }

    /** Dereferencing: the node in front, at the current level. */
    method Current() returns (u: N)
      requires Valid() && search.front < |search.order|
      ensures u == search.order[search.front] && level == search.dist[search.front]
    {
      u := visitQueue[0].value;
    }

    /** Queues a child of the front node unless it has been visited. */
    method VisitChild(v: N)
      requires Valid() && search.front < |search.order|
      modifies this`visitQueue, this`visited, this`search
      ensures Valid() && v in visited && old(visited) <= visited
      ensures search == if v in old(visited) then old(search) else Discover(old(search), v)
    {
      if v !in visited {
        DiscoverOrdered(search, v);
        ghost var s := search;
        visited := visited + {v};
        visitQueue := visitQueue + [Some(v)];
        search := Discover(search, v);
        assert search.order[s.front..s.marker] == s.order[s.front..s.marker];
        assert Pending(search.order[s.marker..]) == Pending(s.order[s.marker..]) + [Some(v)];
      }
    }

    /** Queues the unvisited children of the front node. */
    method Expand()
      requires Valid() && search.front < |search.order|
      modifies this`visitQueue, this`visited, this`search
      ensures Valid() && Expansion(graph, old(search), search)
      ensures forall v | v in Children(graph, old(search.order[search.front])) :: v in search.order
      ensures Listed(graph, old(search.order), search.front, 0) ==> Listed(graph, search.order, search.front + 1, 0)
    {
      ghost var u := search.order[search.front];
      var children := Children(graph, visitQueue[0].value);
      var child := 0;
      while child != |children|
        invariant child <= |children| && Valid() && Expansion(graph, old(search), search) == true
        invariant forall j | 0 <= j < child :: children[j] in visited
        invariant search.order[search.front] == u
        invariant Listed(graph, old(search.order), search.front, 0) ==> Listed(graph, search.order, search.front, child) == true
      {
        ListChild(graph, search.order, search.front, child);
        if children[child] !in search.order {
          ExpandOne(graph, old(search), search, children[child]);
        }
        var v := children[child];
        child := child + 1;
        VisitChild(v);
      }
      ListNext(graph, search.order, search.front);
    }

    /** Moves on to the next node: breadth first, level by level. */
    method ToNext() returns (ghost expanded: Search<N>)
      requires Valid() && search.front < |search.order|
      modifies this`visitQueue, this`visited, this`level, this`search
      ensures Valid() && Expansion(graph, old(search), expanded) && search == Advance(expanded)
      ensures forall v | v in Children(graph, old(search.order[search.front])) :: v in expanded.order
      ensures Listed(graph, old(search.order), old(search.front), 0) ==> Listed(graph, search.order, search.front, 0)
    {
      Expand();
      expanded := search;
      NextQueue(expanded);
      AdvanceOrdered(expanded);
      search := Advance(expanded);
      visitQueue := visitQueue[1..];
      if visitQueue != [] {
        var head := visitQueue[0];
        if head != None {
          return;
        }
        level := level + 1;
        visitQueue := visitQueue[1..];
        if visitQueue != [] {
          visitQueue := visitQueue + [None];
        }
      }
    }
  }

  lemma AdvanceOrdered<N>(s: Search<N>)
    requires Ordered(s) && s.front < |s.order|
    ensures Ordered(Advance(s)) && Advance(s).order == s.order
    ensures Advance(s).level == if s.front + 1 < s.marker then s.level else s.level + 1
  {
  }

  /** The queue without its first node, and without the marker if that comes next, is the next queue but for its marker. */
  lemma NextQueue<N>(s: Search<N>)
    requires Ordered(s) && s.front < |s.order|
    ensures var q, next := QueueOf(s)[1..], QueueOf(Advance(s));
            && q != []
            && if s.front + 1 < s.marker then q[0] != None && q == next
               else q[0] == None && if q[1..] == [] then next == [] else q[1..] + [None] == next
  {
    var level, more := s.order[s.front..s.marker], Pending(s.order[s.marker..]);
    PendingTail(level);
    assert level[1..] == s.order[s.front + 1..s.marker];
    assert QueueOf(s)[1..] == Pending(level[1..]) + ([None] + more);
    if s.front + 1 == s.marker {
      assert Pending(level[1..]) == [] && ([None] + more)[1..] == more;
      EmptyRun(s);
    } else {
      assert Pending(level[1..]) + ([None] + more) == Pending(level[1..]) + [None] + more;
    }
  }

  lemma PendingTail<N>(s: seq<N>)
    requires s != []
    ensures Pending(s)[1..] == Pending(s[1..])
  {
  }

  /** At the end of a level the next one is all that is queued, followed by a new marker. */
  lemma EmptyRun<N>(s: Search<N>)
    requires Ordered(s) && s.front + 1 == s.marker
    ensures var more := Pending(s.order[s.marker..]);
            QueueOf(Advance(s)) == if more == [] then [] else more + [None]
  {
    var n := Advance(s);
    var more := Pending(s.order[s.marker..]);
    assert n.order[n.marker..] == [] && n.order[n.front..n.marker] == s.order[s.marker..];
    assert Pending(n.order[n.marker..]) == [];
    assert more + [None] + [] == more + [None];
  }

  /** Every node that can occur in a walk. */
  ghost function Universe<N(!new)>(g: Graph<N>, root: N): set<N> {
    {root} + set u, v | u in g && v in g[u] :: v
  }

  lemma {:induction false} WalkStaysInUniverse<N(!new)>(g: Graph<N>, root: N, n: nat, v: N)
    requires Walk(g, root, n, v)
    ensures v in Universe(g, root)
  {
    if n > 0 {
      var u :| u in g && v in g[u] && Walk(g, root, n - 1, u);
    }
  }

  /** A sequence without repetition is no longer than a set that holds it. */
  lemma {:induction false} DistinctFits<N>(s: seq<N>, all: set<N>)
    requires Distinct(s) && forall v | v in s :: v in all
    ensures |s| <= |all|
  {
    if s != [] {
      var last := s[|s| - 1];
      forall v | v in s[..|s| - 1]
        ensures v in all - {last}
      {
        var i :| 0 <= i < |s| - 1 && s[i] == v;
      }
      DistinctFits(s[..|s| - 1], all - {last});
    }
  }

  /**
   A loop over `breadth_first(graph)`: it ends, sees exactly the nodes that are
   reachable from the entry, each once, in order of distance, and the
   iterator's level at each is the length of a shortest path to it.
   */
  method Traverse<N(==, !new)>(g: Graph<N>, entry: N) returns (nodes: seq<N>, levels: seq<nat>)
    ensures |levels| == |nodes| && Distinct(nodes)
    ensures forall v :: v in nodes <==> Reachable(g, entry, v)
    ensures forall i | 0 <= i < |nodes| :: AtDistance(g, entry, nodes[i], levels[i])
    ensures forall i, j | 0 <= i <= j < |nodes| :: levels[i] <= levels[j]
    ensures nodes != [] && nodes[0] == entry && InTurn(g, nodes, |nodes|, 0)
  {
    nodes, levels := [], [];
    var it := new BfIterator(g, entry);
    assert Walk(g, entry, 0, entry) && Consistent(g, entry, it.search);
    BeginsListed(g, entry);
    var end := it.AtEnd();
    while !end
      invariant it.Valid() && fresh(it) && it.graph == g && Consistent(g, entry, it.search)
      invariant end <==> it.search.front == |it.search.order|
      invariant BeginsWith(g, it.search, entry) == true
      invariant nodes == it.search.order[..it.search.front] && levels == it.search.dist[..it.search.front]
      decreases |Universe(g, entry)| - it.search.front
    {
      var u, d := Visit(it, g, entry);
      nodes, levels := nodes + [u], levels + [d];
      end := it.AtEnd();
    }
    Complete(g, entry, it.search);
    ListedAll(g, it.search, entry);
  }

  /** From the entry on, everything is listed in turn. */
  ghost predicate BeginsWith<N>(g: Graph<N>, s: Search<N>, entry: N) {
    s.order != [] && s.order[0] == entry && Listed(g, s.order, s.front, 0)
  }

  lemma ListedAll<N>(g: Graph<N>, s: Search<N>, entry: N)
    requires BeginsWith(g, s, entry) && s.front == |s.order|
    ensures s.order[..s.front] == s.order && s.order != [] && s.order[0] == entry && InTurn(g, s.order, |s.order|, 0)
  {
  }

  lemma BeginsListed<N>(g: Graph<N>, entry: N)
    ensures BeginsWith(g, Search([entry], [0], 0, 1, 0), entry)
  {
  }

  /** One round of the loop: looks at the front node and moves on. */
  method Visit<N(==, !new)>(it: BfIterator<N>, ghost g: Graph<N>, ghost entry: N) returns (u: N, d: nat)
    requires it.Valid() && it.graph == g && Consistent(g, entry, it.search) && it.search.front < |it.search.order|
    modifies it
    ensures it.Valid() && Consistent(g, entry, it.search)
    ensures it.search.front == old(it.search.front) + 1 <= |Universe(g, entry)|
    ensures it.search.order[..it.search.front] == old(it.search.order[..it.search.front]) + [u]
    ensures it.search.dist[..it.search.front] == old(it.search.dist[..it.search.front]) + [d]
    ensures BeginsWith(g, old(it.search), entry) ==> BeginsWith(g, it.search, entry)
  {
    u := it.Current();
    d := it.level;
    ghost var s := it.search;
    ghost var expanded := it.ToNext();
    StepYields(g, entry, s, expanded);
  }

  lemma StepYields<N(!new)>(g: Graph<N>, root: N, s: Search<N>, s': Search<N>)
    requires Consistent(g, root, s) && Expansion(g, s, s')
    requires forall v | v in Children(g, s.order[s.front]) :: v in s'.order
    ensures var r, n := Advance(s'), s.front + 1;
            && Consistent(g, root, r) && r.front == n <= |Universe(g, root)|
            && r.order[..n] == s.order[..s.front] + [s.order[s.front]]
            && r.dist[..n] == s.dist[..s.front] + [s.dist[s.front]]
  {
    StepConsistent(g, root, s, s');
    InUniverse(g, root, s);
  }

  /** What the finished search has found. */
  lemma Complete<N(!new)>(g: Graph<N>, root: N, s: Search<N>)
    requires Consistent(g, root, s) && s.front == |s.order|
    ensures forall v :: v in s.order <==> Reachable(g, root, v)
    ensures forall i | 0 <= i < |s.order| :: AtDistance(g, root, s.order[i], s.dist[i])
    ensures Distinct(s.order) && forall i, j | 0 <= i <= j < |s.order| :: s.dist[i] <= s.dist[j]
  {
    forall v | Reachable(g, root, v)
      ensures v in s.order
    {
      var n: nat :| Walk(g, root, n, v);
      AllReached(g, root, s, n, v);
    }
  }

  lemma InUniverse<N(!new)>(g: Graph<N>, root: N, s: Search<N>)
    requires Consistent(g, root, s)
    ensures |s.order| <= |Universe(g, root)|
  {
    forall v | v in s.order
      ensures v in Universe(g, root)
    {
      var i :| 0 <= i < |s.order| && s.order[i] == v;
      WalkStaysInUniverse(g, root, s.dist[i], v);
    }
    DistinctFits(s.order, Universe(g, root));
  }
}
