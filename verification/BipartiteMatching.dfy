/** Maximum bipartite matching by depth-first augmentation
    (libs/googlemock/src/gmock-matchers.cc).

    Every left node is tried exactly once. The proof that one try is enough is the
    exchange argument in ExchangeAroundSeen: when a search from a left node fails, the
    right nodes it has seen are all matched and closed under alternating steps, so any
    matching can give up its edges into them for the current ones without loss. */
module BipartiteMatching {

  const UNUSED: int := -1

  type Edge = (int, int)

  datatype MatchMatrix = MatchMatrix(lhsSize: nat, rhsSize: nat, rows: seq<seq<bool>>) {
    predicate Valid() {
      |rows| == lhsSize && forall l :: 0 <= l < lhsSize ==> |rows[l]| == rhsSize
    }

    predicate HasEdge(l: int, r: int)
      requires Valid() && 0 <= l < lhsSize && 0 <= r < rhsSize
    {
      rows[l][r]
    }

    /** What the matrix says: element l matches matcher r. */
    ghost predicate IsEdge(l: int, r: int)
      requires Valid()
    {
      0 <= l < lhsSize && 0 <= r < rhsSize && rows[l][r]
    }
  }

  // ---------- matchings as sets of edges: the specification ----------

  /** Edges of the graph, no two of which share a node. */
  ghost predicate IsMatching(g: MatchMatrix, m: set<Edge>)
    requires g.Valid()
  {
    && (forall e <- m :: g.IsEdge(e.0, e.1))
    && (forall e, f | e in m && f in m :: e.0 == f.0 || e.1 == f.1 ==> e == f)
  }

  ghost predicate IsMaximumMatching(g: MatchMatrix, m: set<Edge>)
    requires g.Valid()
  {
    IsMatching(g, m) && forall n: set<Edge> :: IsMatching(g, n) ==> |n| <= |m|
  }

  ghost predicate UsesOnly(m: set<Edge>, bound: int) {
    forall e <- m :: e.0 < bound
  }

  /** size is the largest a matching of the first bound left nodes can be. */
  ghost predicate BoundsMatchings(g: MatchMatrix, bound: int, size: nat)
    requires g.Valid()
  {
    forall n: set<Edge> :: IsMatching(g, n) && UsesOnly(n, bound) ==> |n| <= size
  }

  ghost predicate InRight(m: set<Edge>, r: int) {
    exists e :: e in m && e.1 == r
  }

  ghost predicate CoversRight(g: MatchMatrix, m: set<Edge>) {
    forall r :: 0 <= r < g.rhsSize ==> InRight(m, r)
  }

  /** f[r] is an element of its own for every matcher r, and one that matches it. */
  ghost predicate Assigns(g: MatchMatrix, f: seq<nat>)
    requires g.Valid()
  {
    && |f| == g.rhsSize
    && (forall r :: 0 <= r < |f| ==> f[r] < g.lhsSize && g.rows[f[r]][r])
    && (forall q, r :: 0 <= q < r < |f| ==> f[q] != f[r])
  }

  ghost function PartnerOf(m: set<Edge>, r: int): int
    requires InRight(m, r)
  {
    var e :| e in m && e.1 == r;
    e.0
  }

  lemma PartnerIsEdge(m: set<Edge>, r: int)
    requires InRight(m, r)
    ensures (PartnerOf(m, r), r) in m
  {
    var e :| e in m && e.1 == r && e.0 == PartnerOf(m, r);
    assert e == (PartnerOf(m, r), r);
  }

  /** A matching that covers the right side is an assignment. */
  lemma CoverIsAssignment(g: MatchMatrix, m: set<Edge>) returns (f: seq<nat>)
    requires g.Valid() && IsMatching(g, m) && CoversRight(g, m)
    ensures Assigns(g, f)
  {
    forall r | 0 <= r < g.rhsSize ensures InRight(m, r) && g.IsEdge(PartnerOf(m, r), r) {
      PartnerIsEdge(m, r);
    }
    f := seq(g.rhsSize, r requires 0 <= r < g.rhsSize && InRight(m, r) && PartnerOf(m, r) >= 0 => PartnerOf(m, r));
    forall q, r | 0 <= q < r < |f| ensures f[q] != f[r] {
      PartnerIsEdge(m, q);
      PartnerIsEdge(m, r);
    }
  }

  lemma AssignmentCovers(g: MatchMatrix, f: seq<nat>) returns (m: set<Edge>)
    requires g.Valid() && Assigns(g, f)
    ensures IsMatching(g, m) && CoversRight(g, m)
  {
    m := set r | 0 <= r < |f| :: (f[r] as int, r);
    forall r | 0 <= r < g.rhsSize ensures InRight(m, r) {
      assert (f[r] as int, r) in m;
    }
  }

  lemma CoverIffAssignment(g: MatchMatrix)
    requires g.Valid()
    ensures (exists m: set<Edge> :: IsMatching(g, m) && CoversRight(g, m)) <==> exists f: seq<nat> :: Assigns(g, f)
  {
    hide IsMatching, CoversRight, Assigns;
    if m: set<Edge> :| IsMatching(g, m) && CoversRight(g, m) {
      var f := CoverIsAssignment(g, m);
    }
    if f: seq<nat> :| Assigns(g, f) {
      var m := AssignmentCovers(g, f);
    }
  }

  // ---------- the two vectors ----------

  ghost predicate InRange(v: seq<int>, n: nat, bound: nat) {
    |v| == n && forall i :: 0 <= i < n ==> UNUSED <= v[i] < bound
  }

  /** The vectors describe a matching of g redundantly: entries are unused or mutually
      referent, and what is matched is an edge. */
  ghost predicate Consistent(g: MatchMatrix, left: seq<int>, right: seq<int>)
    requires g.Valid()
  {
    && InRange(left, g.lhsSize, g.rhsSize)
    && InRange(right, g.rhsSize, g.lhsSize)
    && (forall l :: 0 <= l < |left| && left[l] != UNUSED ==> right[left[l]] == l && g.HasEdge(l, left[l]))
    && (forall r :: 0 <= r < |right| && right[r] != UNUSED ==> left[right[r]] == r)
  }

  ghost function Matched(left: seq<int>): (s: set<int>) {
    set l | 0 <= l < |left| && left[l] != UNUSED
  }

  ghost function Pairs(left: seq<int>): (s: set<Edge>) {
    set l | 0 <= l < |left| && left[l] != UNUSED :: (l, left[l])
  }

  ghost function Unseen(seen: seq<bool>): set<int> {
    set r | 0 <= r < |seen| && !seen[r]
  }

  // ---------- what a search leaves behind ----------

  ghost predicate NeighboursSeen(g: MatchMatrix, l: int, upTo: int, seen: seq<bool>)
    requires g.Valid() && 0 <= l < g.lhsSize && upTo <= g.rhsSize == |seen|
  {
    forall r :: 0 <= r < upTo && g.HasEdge(l, r) ==> seen[r]
  }

  /** Every right node seen since before is matched, to a left node all of whose
      neighbours are seen. */
  ghost predicate DeadEnds(g: MatchMatrix, right: seq<int>, before: seq<bool>, seen: seq<bool>)
    requires g.Valid() && InRange(right, g.rhsSize, g.lhsSize) && |before| == |seen| == g.rhsSize
  {
    forall r :: 0 <= r < |seen| && seen[r] && !before[r] ==>
      right[r] != UNUSED && NeighboursSeen(g, right[r], g.rhsSize, seen)
  }

  ghost predicate Grew(before: seq<bool>, seen: seq<bool>) {
    |before| == |seen| && forall r :: 0 <= r < |seen| && before[r] ==> seen[r]
  }

  /** The state after a successful search from ilhs, which held hole before (UNUSED at top
      level). Inside the recursion right[hole] still names ilhs: that entry dangles until the
      caller overwrites it. Only entries of right nodes seen during the search changed. */
  ghost predicate Augmented(g: MatchMatrix, ilhs: int, left0: seq<int>, right0: seq<int>, before: seq<bool>,
                            left: seq<int>, right: seq<int>, seen: seq<bool>)
    requires g.Valid() && Consistent(g, left0, right0) && 0 <= ilhs < g.lhsSize
    requires |before| == |seen| == g.rhsSize
  {
    && InRange(left, g.lhsSize, g.rhsSize)
    && InRange(right, g.rhsSize, g.lhsSize)
    && (forall l :: 0 <= l < |left| ==> (left[l] == UNUSED <==> left0[l] == UNUSED && l != ilhs))
    && (forall l :: 0 <= l < |left| && left[l] != UNUSED ==> right[left[l]] == l && g.HasEdge(l, left[l]))
    && (forall r :: 0 <= r < |right| && right[r] != UNUSED && r != left0[ilhs] ==> left[right[r]] == r)
    && (forall r :: 0 <= r < |right| && before[r] ==> right[r] == right0[r])
    && !before[left[ilhs]]
    && (forall l :: 0 <= l < |left| && l != ilhs && (left0[l] == UNUSED || before[left0[l]]) ==> left[l] == left0[l])
  }

  /** Undoing the recursion by one step: ilhs takes over irhs, whose entry dangles if it was
      matched, and leaves its own former partner dangling instead. */
  lemma Relink(g: MatchMatrix, ilhs: int, irhs: int, left0: seq<int>, right0: seq<int>, before: seq<bool>,
               marked: seq<bool>, left1: seq<int>, right1: seq<int>, seen: seq<bool>)
    requires g.Valid() && Consistent(g, left0, right0) && g.IsEdge(ilhs, irhs)
    requires |before| == |marked| == |seen| == g.rhsSize
    requires left0[ilhs] != UNUSED ==> before[left0[ilhs]]
    requires !before[irhs] && marked[irhs] && Grew(before, marked)
    requires if right0[irhs] == UNUSED then left1 == left0 && right1 == right0
             else Augmented(g, right0[irhs], left0, right0, marked, left1, right1, seen)
    ensures Augmented(g, ilhs, left0, right0, before, left1[ilhs := irhs], right1[irhs := ilhs], seen)
    ensures left0[ilhs] == UNUSED ==> Consistent(g, left1[ilhs := irhs], right1[irhs := ilhs])
  {
  }

  // ---------- counting ----------

  function LeftOf(e: Edge): int { e.0 }

  function RightOf(e: Edge): int { e.1 }

  ghost function Below(n: nat): (s: set<int>)
    ensures |s| == n && forall i :: i in s <==> 0 <= i < n
  {
    if n == 0 then {} else Below(n - 1) + {n - 1}
  }

  lemma {:induction false} AtMost(m: set<Edge>, s: set<int>, node: Edge -> int)
    requires forall e <- m :: node(e) in s
    requires forall e, f | e in m && f in m && node(e) == node(f) :: e == f
    ensures |m| <= |s|
  {
    if m != {} {
      var e :| e in m;
      AtMost(m - {e}, s - {node(e)}, node);
    }
  }

  lemma {:induction false} AtLeast(m: set<Edge>, s: set<int>, node: Edge -> int)
    requires forall i: int :: i in s ==> exists e: Edge :: e in m && node(e) == i
    ensures |s| <= |m|
  {
    if i :| i in s {
      var e :| e in m && node(e) == i;
      forall j: int | j in s - {i} ensures exists f: Edge :: f in m - {e} && node(f) == j {
        var f :| f in m && node(f) == j;
        assert f in m - {e};
      }
      AtLeast(m - {e}, s - {i}, node);
    } else {
      assert forall i: int :: i !in s;
      assert s == {};
    }
  }

  lemma PairsSize(left: seq<int>)
    ensures |Pairs(left)| == |Matched(left)|
  {
    AtMost(Pairs(left), Matched(left), LeftOf);
    forall l: int | l in Matched(left) ensures exists e: Edge :: e in Pairs(left) && LeftOf(e) == l {
      assert LeftOf((l, left[l])) == l;
    }
    AtLeast(Pairs(left), Matched(left), LeftOf);
  }

  lemma ConsistentPairsMatch(g: MatchMatrix, left: seq<int>, right: seq<int>)
    requires g.Valid() && Consistent(g, left, right)
    ensures IsMatching(g, Pairs(left))
  {
  }

  lemma PairsAreMaximum(g: MatchMatrix, left: seq<int>, right: seq<int>)
    requires g.Valid() && Consistent(g, left, right) && BoundsMatchings(g, g.lhsSize, |Matched(left)|)
    ensures IsMaximumMatching(g, Pairs(left))
  {
    ConsistentPairsMatch(g, left, right);
    PairsSize(left);
    forall n: set<Edge> | IsMatching(g, n) ensures |n| <= |Pairs(left)| {
      assert UsesOnly(n, g.lhsSize);
    }
  }

  // ---------- the exchange argument ----------

  ghost function Dropped(n: set<Edge>, seen: seq<bool>): set<Edge> {
    set e | e in n && 0 <= e.1 < |seen| && seen[e.1]
  }

  ghost function Current(right: seq<int>, seen: seq<bool>): set<Edge>
    requires |right| == |seen|
  {
    set r | 0 <= r < |seen| && seen[r] :: (right[r], r)
  }

  /** n without its edges into seen right nodes, plus the current edges of those nodes. */
  ghost function Exchange(n: set<Edge>, right: seq<int>, seen: seq<bool>): set<Edge>
    requires |right| == |seen|
  {
    (n - Dropped(n, seen)) + Current(right, seen)
  }

  /** After a failed search from ilhs, any matching that may use ilhs can be turned into one
      that is at least as large and does not use it. */
  lemma ExchangeAroundSeen(g: MatchMatrix, ilhs: int, left: seq<int>, right: seq<int>, before: seq<bool>,
                           seen: seq<bool>, n: set<Edge>)
    requires g.Valid() && Consistent(g, left, right) && |seen| == |before| == g.rhsSize
    requires 0 <= ilhs < g.lhsSize && forall l :: ilhs <= l < |left| ==> left[l] == UNUSED
    requires forall r :: 0 <= r < |before| ==> !before[r]
    requires NeighboursSeen(g, ilhs, g.rhsSize, seen) && DeadEnds(g, right, before, seen)
    requires IsMatching(g, n) && UsesOnly(n, ilhs + 1)
    ensures var n' := Exchange(n, right, seen);
            IsMatching(g, n') && UsesOnly(n', ilhs) && |n| <= |n'|
  {
    hide IsMatching, UsesOnly, DeadEnds, NeighboursSeen, Dropped, Current;
    var dropped, kept, added := Dropped(n, seen), n - Dropped(n, seen), Current(right, seen);
    SubMatching(g, n, kept);
    KeptIsClear(g, ilhs, left, right, before, seen, n);
    CurrentIsMatching(g, ilhs, left, right, before, seen);
    DisjointMatchings(g, ilhs, kept, added);
    DroppedAtMostCurrent(g, right, seen, n);
    assert n == kept + dropped by { DroppedIsPart(n, seen); }
  }

  lemma DroppedIsPart(n: set<Edge>, seen: seq<bool>)
    ensures Dropped(n, seen) <= n
  {
  }

  lemma SubMatching(g: MatchMatrix, m: set<Edge>, n: set<Edge>)
    requires g.Valid() && IsMatching(g, m) && n <= m
    ensures IsMatching(g, n)
  {
  }

  lemma DisjointMatchings(g: MatchMatrix, bound: int, m: set<Edge>, n: set<Edge>)
    requires g.Valid() && IsMatching(g, m) && IsMatching(g, n) && UsesOnly(m, bound) && UsesOnly(n, bound)
    requires forall e, a | e in m && a in n :: e.0 != a.0 && e.1 != a.1
    ensures IsMatching(g, m + n) && UsesOnly(m + n, bound) && |m + n| == |m| + |n|
  {
    assert m !! n;
  }

  lemma DroppedAtMostCurrent(g: MatchMatrix, right: seq<int>, seen: seq<bool>, n: set<Edge>)
    requires g.Valid() && |right| == |seen| && IsMatching(g, n)
    ensures |Dropped(n, seen)| <= |Current(right, seen)|
  {
    var s := set r | 0 <= r < |seen| && seen[r];
    AtMost(Dropped(n, seen), s, RightOf);
    var added := Current(right, seen);
    forall r: int | r in s ensures exists e: Edge :: e in added && RightOf(e) == r {
      assert RightOf((right[r], r)) == r;
    }
    AtLeast(added, s, RightOf);
  }

  lemma CurrentIsMatching(g: MatchMatrix, ilhs: int, left: seq<int>, right: seq<int>, before: seq<bool>,
                          seen: seq<bool>)
    requires g.Valid() && Consistent(g, left, right) && |seen| == |before| == g.rhsSize
    requires 0 <= ilhs < g.lhsSize && forall l :: ilhs <= l < |left| ==> left[l] == UNUSED
    requires forall r :: 0 <= r < |before| ==> !before[r]
    requires DeadEnds(g, right, before, seen)
    ensures IsMatching(g, Current(right, seen)) && UsesOnly(Current(right, seen), ilhs)
  {
  }

  /** An edge that avoids the seen right nodes avoids the current edges of those nodes. */
  lemma KeptIsClear(g: MatchMatrix, ilhs: int, left: seq<int>, right: seq<int>, before: seq<bool>, seen: seq<bool>,
                    n: set<Edge>)
    requires g.Valid() && Consistent(g, left, right) && |seen| == |before| == g.rhsSize
    requires 0 <= ilhs < g.lhsSize
    requires forall r :: 0 <= r < |before| ==> !before[r]
    requires NeighboursSeen(g, ilhs, g.rhsSize, seen) && DeadEnds(g, right, before, seen)
    requires IsMatching(g, n) && UsesOnly(n, ilhs + 1)
    ensures UsesOnly(n - Dropped(n, seen), ilhs)
    ensures forall e, a | e in n - Dropped(n, seen) && a in Current(right, seen) :: e.0 != a.0 && e.1 != a.1
  {
    forall e | e in n - Dropped(n, seen)
      ensures e.0 < ilhs && g.IsEdge(e.0, e.1) && !seen[e.1]
    {
      assert g.IsEdge(e.0, e.1);
    }
    forall e, a | e in n - Dropped(n, seen) && a in Current(right, seen)
      ensures e.0 != a.0 && e.1 != a.1
    {
      assert NeighboursSeen(g, right[a.1], g.rhsSize, seen);
      assert g.IsEdge(e.0, e.1);
    }
  }

  lemma NothingToMatch(g: MatchMatrix, left: seq<int>)
    requires g.Valid()
    requires forall l :: 0 <= l < |left| ==> left[l] == UNUSED
    ensures BoundsMatchings(g, 0, |Matched(left)|)
  {
    forall n: set<Edge> | IsMatching(g, n) && UsesOnly(n, 0) ensures |n| <= |Matched(left)| {
      assert forall e: Edge :: e !in n;
      assert n == {};
    }
  }

  /** So a failed search keeps the current matching maximum. */
  lemma FailureKeepsBound(g: MatchMatrix, ilhs: int, left: seq<int>, right: seq<int>, before: seq<bool>,
                          seen: seq<bool>)
    requires g.Valid() && Consistent(g, left, right) && |seen| == |before| == g.rhsSize
    requires 0 <= ilhs < g.lhsSize && forall l :: ilhs <= l < |left| ==> left[l] == UNUSED
    requires forall r :: 0 <= r < |before| ==> !before[r]
    requires NeighboursSeen(g, ilhs, g.rhsSize, seen) && DeadEnds(g, right, before, seen)
    requires BoundsMatchings(g, ilhs, |Matched(left)|)
    ensures BoundsMatchings(g, ilhs + 1, |Matched(left)|)
  {
    forall n: set<Edge> | IsMatching(g, n) && UsesOnly(n, ilhs + 1)
      ensures |n| <= |Matched(left)|
    {
      ExchangeAroundSeen(g, ilhs, left, right, before, seen, n);
    }
  }

  /** A successful search adds one edge, and one more left node adds at most one. */
  lemma SuccessKeepsBound(g: MatchMatrix, ilhs: int, left0: seq<int>, left: seq<int>)
    requires g.Valid() && |left0| == |left| == g.lhsSize
    requires 0 <= ilhs < g.lhsSize && left0[ilhs] == UNUSED
    requires forall l :: 0 <= l < |left| ==> (left[l] == UNUSED <==> left0[l] == UNUSED && l != ilhs)
    requires BoundsMatchings(g, ilhs, |Matched(left0)|)
    ensures |Matched(left)| == |Matched(left0)| + 1
    ensures BoundsMatchings(g, ilhs + 1, |Matched(left)|)
  {
    assert Matched(left) == Matched(left0) + {ilhs};
    forall n: set<Edge> | IsMatching(g, n) && UsesOnly(n, ilhs + 1)
      ensures |n| <= |Matched(left)|
    {
      OneMoreLeftNode(g, ilhs, |Matched(left0)|, n);
    }
  }

  lemma OneMoreLeftNode(g: MatchMatrix, ilhs: int, size: nat, n: set<Edge>)
    requires g.Valid() && BoundsMatchings(g, ilhs, size)
    requires IsMatching(g, n) && UsesOnly(n, ilhs + 1)
    ensures |n| <= size + 1
  {
    hide IsMatching;
    var rest := WithoutLeft(n, ilhs);
    SubMatching(g, n, rest);
    AtMostOneEdge(g, ilhs, n);
  }

  ghost function WithoutLeft(n: set<Edge>, l: int): set<Edge> {
    set e | e in n && e.0 != l
  }

  lemma AtMostOneEdge(g: MatchMatrix, l: int, n: set<Edge>)
    requires g.Valid() && IsMatching(g, n)
    ensures |n| <= |WithoutLeft(n, l)| + 1
  {
    var rest := WithoutLeft(n, l);
    if e :| e in n && e.0 == l {
      assert n == rest + {e};
    } else {
      assert n == rest;
    }
  }

  /** The right side is covered exactly when a maximum matching has as many edges. */
  lemma CoverIffFullSize(g: MatchMatrix, m: set<Edge>)
    requires g.Valid() && IsMaximumMatching(g, m)
    ensures |m| == g.rhsSize <==> exists n: set<Edge> :: IsMatching(g, n) && CoversRight(g, n)
  {
    var all := Below(g.rhsSize);
    AtMost(m, all, RightOf);
    if |m| == g.rhsSize {
      forall r | 0 <= r < g.rhsSize ensures InRight(m, r) {
        if !InRight(m, r) {
          AtMost(m, all - {r}, RightOf);
        }
      }
      assert CoversRight(g, m);
    }
    if n: set<Edge> :| IsMatching(g, n) && CoversRight(g, n) {
      forall r: int | r in all ensures exists e: Edge :: e in n && RightOf(e) == r {
        assert InRight(n, r);
        var e :| e in n && e.1 == r;
        assert RightOf(e) == r;
      }
      AtLeast(n, all, RightOf);
    }
  }

  // ---------- the algorithm ----------

  ghost predicate Ascending(result: seq<Edge>) {
    forall i, j :: 0 <= i < j < |result| ==> result[i].0 < result[j].0
  }

  ghost function Elements(result: seq<Edge>): set<Edge> {
    set e | e in result
  }

  /** The matched pairs of the first n left nodes, in order. */
  ghost predicate Collected(left: seq<int>, n: nat, result: seq<Edge>) {
    && Ascending(result) && (forall e <- result :: e.0 < n && e in Pairs(left))
    && (forall l :: 0 <= l < n && l < |left| && left[l] != UNUSED ==> (l, left[l]) in result)
  }

  lemma NothingCollected(left: seq<int>)
    ensures Collected(left, 0, [])
  {
  }

  lemma CollectNext(left: seq<int>, n: nat, result: seq<Edge>)
    requires Collected(left, n, result) && n < |left|
    ensures Collected(left, n + 1, if left[n] != UNUSED then result + [(n, left[n])] else result)
  {
  }

  lemma MatchedInMatrix(g: MatchMatrix, result: seq<Edge>)
    requires g.Valid() && IsMatching(g, Elements(result))
    ensures forall e <- result :: 0 <= e.0 < g.lhsSize && 0 <= e.1 < g.rhsSize && g.rows[e.0][e.1]
  {
    forall e | e in result ensures g.IsEdge(e.0, e.1) {
      assert e in Elements(result);
    }
  }

  lemma CollectedAll(left: seq<int>, result: seq<Edge>)
    requires Collected(left, |left|, result)
    ensures Ascending(result) && Elements(result) == Pairs(left)
  {
  }

  class MaxBipartiteMatchState {
    const graph: MatchMatrix
    const left: array<int>
    const right: array<int>

    ghost predicate Valid()
      reads this, left, right
    {
      graph.Valid() && left != right && Consistent(graph, left[..], right[..])
    }

    constructor (g: MatchMatrix)
      requires g.Valid()
      ensures Valid() && graph == g && fresh(left) && fresh(right)
      ensures forall l :: 0 <= l < left.Length ==> left[l] == UNUSED
    {
      graph := g;
      left := new int[g.lhsSize](_ => UNUSED);
      right := new int[g.rhsSize](_ => UNUSED);
    }

    /** Depth-first search from ilhs for a right node that can still take flow. */
    method TryAugment(ilhs: nat, seen: array<bool>) returns (found: bool)
      requires Valid() && ilhs < graph.lhsSize && seen.Length == graph.rhsSize
      requires left[ilhs] != UNUSED ==> seen[left[ilhs]]
      modifies left, right, seen
      ensures Grew(old(seen[..]), seen[..])
      ensures !found ==>
        && left[..] == old(left[..]) && right[..] == old(right[..])
        && NeighboursSeen(graph, ilhs, graph.rhsSize, seen[..])
        && DeadEnds(graph, right[..], old(seen[..]), seen[..])
      ensures found ==>
        Augmented(graph, ilhs, old(left[..]), old(right[..]), old(seen[..]), left[..], right[..], seen[..])
      ensures found && old(left[ilhs]) == UNUSED ==> Valid()
      decreases Unseen(seen[..])
    {
      hide Augmented;
      ghost var left0, right0, before := left[..], right[..], seen[..];
      for irhs := 0 to graph.rhsSize
        invariant left[..] == left0 && right[..] == right0
        invariant Grew(before, seen[..])
        invariant NeighboursSeen(graph, ilhs, irhs, seen[..])
        invariant DeadEnds(graph, right0, before, seen[..])
      {
        if seen[irhs] {
          continue;
        }
        if !graph.HasEdge(ilhs, irhs) {
          continue;
        }
        seen[irhs] := true;
        ghost var marked := seen[..];
        assert irhs in Unseen(before) && irhs !in Unseen(marked);
        var reached := right[irhs] == UNUSED;
        if !reached {
          reached := TryAugment(right[irhs], seen);
        }
        if reached {
          ghost var left1, right1 := left[..], right[..];
          left[ilhs] := irhs;
          right[irhs] := ilhs;
          assert left[..] == left1[ilhs := irhs] && right[..] == right1[irhs := ilhs];
          Relink(graph, ilhs, irhs, left0, right0, before, marked, left1, right1, seen[..]);
          return true;
        }
      }
      return false;
    }

    /** One search per left node, then the matched pairs in order of left node. */
    method Compute() returns (result: seq<Edge>)
      requires Valid() && forall l :: 0 <= l < left.Length ==> left[l] == UNUSED
      modifies left, right
      ensures Ascending(result)
      ensures forall e <- result :: 0 <= e.0 < graph.lhsSize && 0 <= e.1 < graph.rhsSize && graph.rows[e.0][e.1]
      ensures IsMaximumMatching(graph, Elements(result))
    {
      hide IsMatching, Collected, Pairs, Elements, Ascending;
      NothingToMatch(graph, left[..]);
      for ilhs := 0 to graph.lhsSize
        invariant Valid()
        invariant forall l :: ilhs <= l < left.Length ==> left[l] == UNUSED
        invariant BoundsMatchings(graph, ilhs, |Matched(left[..])|)
      {
        assert left[ilhs] == UNUSED;
        var seen := new bool[graph.rhsSize](_ => false);
        ghost var left0, before := left[..], seen[..];
        var found := TryAugment(ilhs, seen);
        if found {
          SuccessKeepsBound(graph, ilhs, left0, left[..]);
        } else {
          FailureKeepsBound(graph, ilhs, left[..], right[..], before, seen[..]);
        }
      }
      PairsAreMaximum(graph, left[..], right[..]);
      ghost var matched := left[..];
      result := [];
      NothingCollected(matched);
      for ilhs := 0 to left.Length
        invariant left[..] == matched && Collected(matched, ilhs, result)
      {
        CollectNext(matched, ilhs, result);
        if left[ilhs] != UNUSED {
          result := result + [(ilhs, left[ilhs])];
        }
      }
      CollectedAll(matched, result);
      MatchedInMatrix(graph, result);
    }
  }

  lemma {:induction false} AscendingSize(result: seq<Edge>)
    requires Ascending(result)
    ensures |Elements(result)| == |result|
  {
    if result != [] {
      var init, last := result[..|result| - 1], result[|result| - 1];
      AscendingSize(init);
      assert result == init + [last];
      assert Elements(result) == Elements(init) + {last};
    }
  }

  method FindMaxBipartiteMatching(g: MatchMatrix) returns (result: seq<Edge>)
    requires g.Valid()
    ensures Ascending(result)
    ensures forall e <- result :: 0 <= e.0 < g.lhsSize && 0 <= e.1 < g.rhsSize && g.rows[e.0][e.1]
    ensures IsMaximumMatching(g, Elements(result))
  {
    var state := new MaxBipartiteMatchState(g);
    result := state.Compute();
  }

  /** True exactly when some matching gives every matcher an element of its own. */
  method FindPairing(g: MatchMatrix) returns (result: bool)
    requires g.Valid()
    ensures result <==> exists f: seq<nat> :: Assigns(g, f)
    ensures result <==> exists n: set<Edge> :: IsMatching(g, n) && CoversRight(g, n)
  {
    hide IsMatching, CoversRight, Assigns;
    CoverIffAssignment(g);
    var matches := FindMaxBipartiteMatching(g);
    result := |matches| == g.rhsSize;
    AscendingSize(matches);
    CoverIffFullSize(g, Elements(matches));
  }
}
