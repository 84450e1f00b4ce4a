/** The skip list of db/SkipList.h as a heap structure, used by one thread at a time.

    Each level is a linked list through Node.next. The representation invariant says of every
    level that next leads to the next larger key among the nodes tall enough for the level. */
module SkipList {

  const MAX_HEIGHT: nat := 12

  /** A key stands for its rank in the order of the list's comparator. */
  type Key = int

  class Node {
    const key: Key
    var next: seq<Node?>

    constructor (key: Key, height: nat)
      ensures this.key == key && next == seq(height, _ => null)
    {
      this.key := key;
      next := seq(height, _ => null);
    }

    method SetNext(level: nat, x: Node?)
      requires level < |next|
      modifies this`next
      ensures next == old(next)[level := x]
    {
      next := next[level := x];
    }
  }

  /** The next pointers of a set of nodes at one moment. */
  type Links = map<Node, seq<Node?>>

  // ---------- one level, as a specification on links ----------

  ghost predicate OnLevel(m: Links, i: int, n: Node) {
    n in m && 0 <= i < |m[n]|
  }

  ghost predicate Before(head: Node, n: Node, k: Key) {
    n == head || n.key < k
  }

  /** p is the node of s after n on level i. */
  ghost predicate Follows(m: Links, head: Node, s: set<Node>, i: int, n: Node, p: Node?) {
    && (p != null ==> p in s && OnLevel(m, i, p) && Before(head, n, p.key))
    && (forall b :: b in s && OnLevel(m, i, b) && Before(head, n, b.key) ==> p != null && p.key <= b.key)
  }

  ghost predicate LevelOk(m: Links, head: Node, s: set<Node>, i: int) {
    forall n :: n in s + {head} && OnLevel(m, i, n) ==> Follows(m, head, s, i, n, m[n][i])
  }

  /** n is the last node of level i before k. */
  ghost predicate Precedes(m: Links, head: Node, s: set<Node>, i: int, n: Node?, k: Key) {
    && n != null && n in s + {head} && OnLevel(m, i, n) && Before(head, n, k)
    && var p := m[n][i]; p == null || k <= p.key
  }

  ghost predicate KeysDiffer(s: set<Node>) {
    forall a, b :: a in s && b in s && a.key == b.key ==> a == b
  }

  /** Linking x after prev on level i, given that prev is its predecessor there. */
  lemma SpliceLevel(m: Links, m': Links, head: Node, s: set<Node>, i: int, prev: Node, x: Node)
    requires LevelOk(m, head, s, i) && Precedes(m, head, s, i, prev, x.key)
    requires KeysDiffer(s + {x}) && head !in s && x !in s && x != head && OnLevel(m, i, x)
    requires m' == m[x := m[x][i := m[prev][i]]][prev := m[prev][i := x]]
    ensures LevelOk(m', head, s + {x}, i)
  {
    assert Follows(m, head, s, i, prev, m[prev][i]);
    forall n | n in s + {x} + {head} && OnLevel(m', i, n)
      ensures Follows(m', head, s + {x}, i, n, m'[n][i])
    {
      if n != x && n != prev {
        assert Follows(m, head, s, i, n, m[n][i]);
      }
    }
  }

  /** The nodes of s and the head have the same heights, and the same pointers on level j. */
  ghost predicate SameLevel(m: Links, m': Links, head: Node, s: set<Node>, j: int) {
    forall n :: n in s + {head} ==>
      n in m && n in m' && |m'[n]| == |m[n]| && (0 <= j < |m[n]| ==> m'[n][j] == m[n][j])
  }

  lemma LevelUnchanged(m: Links, m': Links, head: Node, s: set<Node>, j: int)
    requires LevelOk(m, head, s, j) && SameLevel(m, m', head, s, j)
    ensures LevelOk(m', head, s, j)
  {
    forall n | n in s + {head} && OnLevel(m', j, n) ensures Follows(m', head, s, j, n, m'[n][j]) {
      assert Follows(m, head, s, j, n, m[n][j]);
    }
  }

  /** A node of lower height makes no difference to a level. */
  lemma LevelIgnoresLowNode(m: Links, head: Node, s: set<Node>, j: int, x: Node)
    requires LevelOk(m, head, s, j) && !OnLevel(m, j, x)
    ensures LevelOk(m, head, s + {x}, j)
  {
    forall n | n in s + {x} + {head} && OnLevel(m, j, n) ensures Follows(m, head, s + {x}, j, n, m[n][j]) {
      assert Follows(m, head, s, j, n, m[n][j]);
    }
  }

  /** x is linked on the levels below i; prev holds its predecessors on the others. */
  ghost predicate LinkedBelow(m: Links, head: Node, s: set<Node>, i: nat, height: nat, prev: seq<Node?>, x: Node) {
    && |prev| == MAX_HEIGHT && height <= MAX_HEIGHT && x in m && |m[x]| == height
    && (forall j :: 0 <= j < i ==> LevelOk(m, head, s + {x}, j))
    && (forall j :: i <= j < MAX_HEIGHT ==> LevelOk(m, head, s, j))
    && (forall j :: i <= j < height ==> Precedes(m, head, s, j, prev[j], x.key))
  }

  /** The store of one round changes nothing on the other levels. */
  lemma OtherLevelsSame(m: Links, m': Links, head: Node, s: set<Node>, i: int, prev: Node, x: Node, j: int)
    requires OnLevel(m, i, x) && OnLevel(m, i, prev) && m.Keys == s + {head, x} && prev != x && j != i
    requires m' == m[x := m[x][i := m[prev][i]]][prev := m[prev][i := x]]
    ensures SameLevel(m, m', head, s + {x}, j) && SameLevel(m, m', head, s, j)
  {
  }

  lemma PredecessorStays(m: Links, m': Links, head: Node, s: set<Node>, j: int, n: Node?, k: Key)
    requires Precedes(m, head, s, j, n, k) && SameLevel(m, m', head, s, j)
    ensures Precedes(m', head, s, j, n, k)
  {
  }

  lemma LinkOneMore(m: Links, m': Links, head: Node, s: set<Node>, i: nat, height: nat, prev: seq<Node?>, x: Node)
    requires LinkedBelow(m, head, s, i, height, prev, x) && i < height
    requires KeysDiffer(s + {x}) && head !in s && x !in s && x != head && m.Keys == s + {head, x}
    requires m' == m[x := m[x][i := m[prev[i]][i]]][prev[i] := m[prev[i]][i := x]]
    ensures LinkedBelow(m', head, s, i + 1, height, prev, x)
  {
    hide LevelOk, KeysDiffer, SameLevel;
    assert Precedes(m, head, s, i, prev[i], x.key);
    SpliceLevel(m, m', head, s, i, prev[i], x);
    hide Precedes;
    forall j | 0 <= j < i ensures LevelOk(m', head, s + {x}, j) {
      OtherLevelsSame(m, m', head, s, i, prev[i], x, j);
      LevelUnchanged(m, m', head, s + {x}, j);
    }
    forall j | i < j < MAX_HEIGHT ensures LevelOk(m', head, s, j) {
      OtherLevelsSame(m, m', head, s, i, prev[i], x, j);
      LevelUnchanged(m, m', head, s, j);
    }
    forall j | i < j < height ensures Precedes(m', head, s, j, prev[j], x.key) {
      OtherLevelsSame(m, m', head, s, i, prev[i], x, j);
      PredecessorStays(m, m', head, s, j, prev[j], x.key);
    }
  }

  lemma NextPredecessor(m: Links, head: Node, s: set<Node>, i: nat, height: nat, prev: seq<Node?>, x: Node)
    requires LinkedBelow(m, head, s, i, height, prev, x) && i < height
    ensures |prev| == MAX_HEIGHT && Precedes(m, head, s, i, prev[i], x.key)
  {
  }

  lemma LinkedOnAll(m: Links, head: Node, s: set<Node>, height: nat, prev: seq<Node?>, x: Node)
    requires LinkedBelow(m, head, s, height, height, prev, x)
    ensures forall j :: 0 <= j < MAX_HEIGHT ==> LevelOk(m, head, s + {x}, j)
  {
    forall j | height <= j < MAX_HEIGHT ensures LevelOk(m, head, s + {x}, j) {
      LevelIgnoresLowNode(m, head, s, j, x);
    }
  }

  /** Before any linking, bringing in x changes nothing. */
  lemma LinkedBelowZero(m: Links, m': Links, head: Node, s: set<Node>, height: nat, prev: seq<Node?>, x: Node)
    requires forall j :: 0 <= j < MAX_HEIGHT ==> LevelOk(m, head, s, j)
    requires m.Keys == s + {head} && x !in m && |prev| == MAX_HEIGHT && height <= MAX_HEIGHT
    requires forall j :: 0 <= j < height ==> Precedes(m, head, s, j, prev[j], x.key)
    requires x in m' && m' == m[x := m'[x]] && |m'[x]| == height
    ensures LinkedBelow(m', head, s, 0, height, prev, x)
  {
    forall j | 0 <= j < MAX_HEIGHT ensures LevelOk(m', head, s, j) {
      LevelUnchanged(m, m', head, s, j);
    }
    forall j | 0 <= j < height ensures Precedes(m', head, s, j, prev[j], x.key) {
      assert Precedes(m, head, s, j, prev[j], x.key);
    }
  }

  ghost function LinksOf(s: set<Node>): Links
    reads s
  {
    map n | n in s :: n.next
  }

  class List {
    const head: Node
    var maxHeight: nat
    /** The nodes that hold keys; the head's own key is never looked at. */
    ghost var nodes: set<Node>

    ghost function Links(): Links
      reads this, head, nodes
    {
      LinksOf(nodes + {head})
    }

    ghost predicate Valid()
      reads this, head, nodes
    {
      && head !in nodes && |head.next| == MAX_HEIGHT && 1 <= maxHeight <= MAX_HEIGHT
      && (forall n <- nodes :: 1 <= |n.next| <= maxHeight)
      && KeysDiffer(nodes)
      && forall i :: 0 <= i < MAX_HEIGHT ==> LevelOk(Links(), head, nodes, i)
    }

    ghost function Contents(): set<Key>
      reads this
    {
      set n | n in nodes :: n.key
    }

    constructor ()
      ensures Valid() && Contents() == {} && maxHeight == 1
    {
      head := new Node(0, MAX_HEIGHT);
      maxHeight := 1;
      nodes := {};
    }

    ghost function NodesAfter(n: Node): set<Node>
      reads this
    {
      set b | b in nodes && Before(head, n, b.key)
    }

    predicate KeyIsAfterNode(key: Key, n: Node?) {
      n != null && n.key < key
    }

    /** x is the node with the least key >= key, or null; prev, if given, gets for every level in
        use the node that precedes key there. */
    method FindGreaterOrEqual(key: Key, prev: array?<Node?>) returns (x: Node?)
      requires Valid() && (prev != null ==> prev.Length == MAX_HEIGHT)
      modifies if prev == null then {} else {prev}
      ensures x != null ==> x in nodes && key <= x.key
      ensures forall b :: b in nodes && key <= b.key ==> x != null && x.key <= b.key
      ensures prev != null ==> forall j :: 0 <= j < maxHeight ==> Precedes(Links(), head, nodes, j, prev[j], key)
      ensures prev != null ==> prev[maxHeight..] == old(prev[maxHeight..])
    {
      hide LevelOk, Follows, Precedes, KeysDiffer, NodesAfter;
      var node: Node := head;
      var level := maxHeight - 1;
      while true
        invariant 0 <= level < maxHeight
        invariant node in nodes + {head} && level < |node.next| && Before(head, node, key)
        invariant prev != null ==> forall j :: level < j < maxHeight ==> Precedes(Links(), head, nodes, j, prev[j], key)
        invariant prev != null ==> prev[maxHeight..] == old(prev[maxHeight..])
        decreases level, NodesAfter(node)
      {
        var next := node.next[level];
        SearchStep(level, node, key);
        if KeyIsAfterNode(key, next) {
          node := next;
        } else {
          if prev != null {
            prev[level] := node;
          }
          if level == 0 {
            x := next;
            return;
          } else {
            level := level - 1;
          }
        }
      }
    }

    /** One load of a search for key that stands at node. */
    lemma SearchStep(level: nat, node: Node, key: Key)
      requires Valid() && node in nodes + {head} && level < |node.next| && Before(head, node, key)
      ensures KeyIsAfterNode(key, node.next[level]) ==>
                var next := node.next[level];
                next in nodes && level < |next.next| && NodesAfter(next) < NodesAfter(node)
      ensures !KeyIsAfterNode(key, node.next[level]) ==> Precedes(Links(), head, nodes, level, node, key)
      ensures !KeyIsAfterNode(key, node.next[level]) && level == 0 ==>
                var next := node.next[level];
                && (next != null ==> next in nodes)
                && forall b :: b in nodes && key <= b.key ==> next != null && next.key <= b.key
    {
      assert level < MAX_HEIGHT && LevelOk(Links(), head, nodes, level);
      assert Links()[node] == node.next;
      var next := node.next[level];
      assert Follows(Links(), head, nodes, level, node, next);
      if KeyIsAfterNode(key, next) {
        assert next in NodesAfter(node) && next !in NodesAfter(next);
      }
    }

    /** Insertion with a height of the caller's choosing. */
    method InsertWithHeight(key: Key, height: nat)
      requires Valid() && key !in Contents() && 1 <= height <= MAX_HEIGHT
      modifies this, head, nodes
      ensures Valid()
      ensures exists x: Node :: fresh(x) && x.key == key && |x.next| == height && nodes == old(nodes) + {x}
      ensures forall n :: n in old(nodes) ==> |n.next| == old(|n.next|)
      ensures Contents() == old(Contents()) + {key}
      ensures maxHeight == if height > old(maxHeight) then height else old(maxHeight)
    {
      hide LevelOk, Follows, Precedes, LinkedBelow;
      var prev := new Node?[MAX_HEIGHT](_ => null);
      var found := FindGreaterOrEqual(key, prev);
      assert found == null || found.key != key;
      if height > maxHeight {
        RaiseHeight(key, height, prev);
      }
      assert Valid() && nodes == old(nodes);
      var x := new Node(key, height);
      Connect(x, prev);
    }

    /** Insert from the point where the new node exists. */
    method Connect(x: Node, prev: array<Node?>)
      requires Valid() && x !in nodes && x != head && x.key !in Contents() && 1 <= |x.next| <= maxHeight
      requires prev.Length == MAX_HEIGHT
      requires forall j :: 0 <= j < |x.next| ==> Precedes(Links(), head, nodes, j, prev[j], x.key)
      modifies this`nodes, x, head, nodes
      ensures Valid() && nodes == old(nodes) + {x} && |x.next| == old(|x.next|)
      ensures forall n :: n in old(nodes) ==> |n.next| == old(|n.next|)
    {
      hide LevelOk, Follows, Precedes, LinkedBelow, KeysDiffer;
      ghost var all := nodes + {head, x};
      assert LinksOf(all) == Links()[x := x.next];
      LinkedBelowZero(Links(), LinksOf(all), head, nodes, |x.next|, prev[..], x);
      NewKeyDiffers(x);
      LinkNode(x, prev);
      ghost var links := LinksOf(all);
      nodes := nodes + {x};
      assert nodes + {head} == all;
      assert Links() == links;
    }

    lemma NewKeyDiffers(x: Node)
      requires KeysDiffer(nodes) && x.key !in Contents()
      ensures KeysDiffer(nodes + {x})
    {
    }

    /** Insert's preparation of levels that were not in use. */
    method RaiseHeight(key: Key, height: nat, prev: array<Node?>)
      requires Valid() && prev.Length == MAX_HEIGHT && maxHeight < height <= MAX_HEIGHT
      requires forall j :: 0 <= j < maxHeight ==> Precedes(Links(), head, nodes, j, prev[j], key)
      modifies this`maxHeight, prev
      ensures Valid() && maxHeight == height
      ensures forall j :: 0 <= j < height ==> Precedes(Links(), head, nodes, j, prev[j], key)
    {
      hide LevelOk, Follows, Precedes;
      for i := maxHeight to height
        modifies prev
        invariant forall j :: 0 <= j < i ==> Precedes(Links(), head, nodes, j, prev[j], key)
      {
        prev[i] := head;
        HeadPrecedes(i, key);
      }
      ghost var links := Links();
      maxHeight := height;
      assert Links() == links;
    }

    /** One round of the linking loop. */
    method LinkLevel(x: Node, p: Node, i: nat, height: nat, ghost prev: seq<Node?>)
      requires head !in nodes && x !in nodes && x != head && KeysDiffer(nodes + {x})
      requires LinkedBelow(LinksOf(nodes + {head, x}), head, nodes, i, height, prev, x)
      requires |prev| == MAX_HEIGHT && i < height == |x.next| <= MAX_HEIGHT && p == prev[i]
      requires p in nodes + {head} && i < |p.next|
      modifies x`next, head`next, nodes`next
      ensures LinkedBelow(LinksOf(nodes + {head, x}), head, nodes, i + 1, height, prev, x)
      ensures forall n <- nodes + {head, x} :: |n.next| == old(|n.next|)
    {
      hide KeysDiffer, LinkedBelow;
      ghost var all := nodes + {head, x};
      ghost var before := LinksOf(all);
      x.SetNext(i, p.next[i]);
      ghost var between := LinksOf(all);
      assert between == before[x := x.next];
      p.SetNext(i, x);
      assert LinksOf(all) == between[p := p.next];
      LinkOneMore(before, LinksOf(all), head, nodes, i, height, prev, x);
    }

    /** The linking loop of Insert, from level 0 up. */
    method LinkNode(x: Node, prev: array<Node?>)
      requires head !in nodes && x !in nodes && x != head && KeysDiffer(nodes + {x})
      requires prev.Length == MAX_HEIGHT && |x.next| <= MAX_HEIGHT
      requires LinkedBelow(LinksOf(nodes + {head, x}), head, nodes, 0, |x.next|, prev[..], x)
      modifies x`next, head`next, nodes`next
      ensures forall n <- nodes + {head, x} :: |n.next| == old(|n.next|)
      ensures forall j :: 0 <= j < MAX_HEIGHT ==> LevelOk(LinksOf(nodes + {head, x}), head, nodes + {x}, j)
    {
      hide LevelOk, KeysDiffer, Follows, LinkedBelow;
      ghost var all, predecessors := nodes + {head, x}, prev[..];
      var height := |x.next|;
      for i := 0 to height
        invariant LinkedBelow(LinksOf(all), head, nodes, i, height, predecessors, x)
        invariant forall n <- all :: |n.next| == old(|n.next|)
      {
        NextPredecessor(LinksOf(all), head, nodes, i, height, predecessors, x);
        LinkLevel(x, prev[i], i, height, predecessors);
      }
      LinkedOnAll(LinksOf(all), head, nodes, height, predecessors, x);
    }

    /** On a level above every node, the head precedes every key. */
    lemma HeadPrecedes(i: nat, key: Key)
      requires Valid() && maxHeight <= i < MAX_HEIGHT
      ensures Precedes(Links(), head, nodes, i, head, key)
    {
      assert LevelOk(Links(), head, nodes, i);
      assert Follows(Links(), head, nodes, i, head, Links()[head][i]);
    }

    /** The source's Insert: every node gets height 5. */
    method Insert(key: Key)
      requires Valid() && key !in Contents()
      modifies this, head, nodes
      ensures Valid()
      ensures exists x: Node :: fresh(x) && x.key == key && |x.next| == 5 && nodes == old(nodes) + {x}
      ensures forall n :: n in old(nodes) ==> |n.next| == old(|n.next|)
      ensures Contents() == old(Contents()) + {key}
      ensures maxHeight == if 5 > old(maxHeight) then 5 else old(maxHeight)
    {
      InsertWithHeight(key, 5);
    }

    method Contains(key: Key) returns (found: bool)
      requires Valid()
      ensures found <==> key in Contents()
    {
      var x := FindGreaterOrEqual(key, null);
      found := x != null && x.key == key;
    }
  }
}
