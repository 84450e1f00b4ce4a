/** The skip list of db/SkipList.h under one inserting writer and any number of readers.

    Every load or store of a next pointer or of max_height_ is one step, and steps of the
    writer and the readers interleave freely under sequential consistency. Contains and
    Insert are linearizable: the machine refines an atomic set, with Insert taking effect at
    its level-0 SetNext and Contains at its last level-0 load. */
module ConcurrentSkipList {

  const MAX_HEIGHT: nat := 12
  const HEAD: int := 0
  const NULL: int := -1

  /** A key stands for its rank in the order of the list's comparator. */
  type Key = int
  type ReaderId = nat

  /** Nodes are named by their index in State.nodes; next has one pointer per level. */
  datatype Node = Node(key: Key, next: seq<int>)

  /** Where Insert stands. Searching is FindGreaterOrEqual with a prev array; LoadNext, StoreOwn
      and SetNext are the three accesses of one round of the linking loop. */
  datatype Writer =
    | Idle
    | Searching(key: Key, height: nat, prev: seq<int>, x: int, level: int)
    | Comparing(key: Key, height: nat, prev: seq<int>, found: int)
    | Filling(key: Key, height: nat, prev: seq<int>)
    | Raising(key: Key, height: nat, prev: seq<int>)
    | Allocating(key: Key, height: nat, prev: seq<int>)
    | LoadNext(key: Key, height: nat, prev: seq<int>, node: int, i: nat)
    | StoreOwn(key: Key, height: nat, prev: seq<int>, node: int, i: nat, next: int)
    | SetNext(key: Key, height: nat, prev: seq<int>, node: int, i: nat, next: int)
    | Inserted(key: Key)

  datatype Reader =
    | NotReading
    | Reading(key: Key, x: int, level: int)
    | Answered(key: Key, answer: bool)

  datatype State = State(nodes: seq<Node>, maxHeight: nat, writer: Writer, readers: map<ReaderId, Reader>)

  // ---------- the levels as ordered sets ----------

  ghost predicate Linking(w: Writer) {
    w.LoadNext? || w.StoreOwn? || w.SetNext?
  }

  /** Node n is in the list of level i: it is tall enough, and if Insert is still linking it,
      its level-i SetNext has happened. */
  ghost predicate Linked(s: State, i: int, n: int) {
    && 0 <= n < |s.nodes| && 0 <= i < |s.nodes[n].next|
    && (Linking(s.writer) && n == s.writer.node ==> i < s.writer.i)
  }

  ghost predicate Before(s: State, n: int, k: Key)
    requires 0 <= n < |s.nodes|
  {
    n == HEAD || s.nodes[n].key < k
  }

  /** p is the node that follows n in the sorted list of level i. */
  ghost predicate Follows(s: State, i: int, n: int, p: int)
    requires 0 <= n < |s.nodes|
  {
    && (p != NULL ==> p != HEAD && Linked(s, i, p) && Before(s, n, s.nodes[p].key))
    && (forall b :: Linked(s, i, b) && b != HEAD && Before(s, n, s.nodes[b].key) ==>
          p != NULL && s.nodes[p].key <= s.nodes[b].key)
  }

  ghost predicate Contains(s: State, k: Key) {
    exists n :: Linked(s, 0, n) && n != HEAD && s.nodes[n].key == k
  }

  // ---------- the invariant ----------

  ghost predicate NodesOk(s: State) {
    && |s.nodes| > 0 && |s.nodes[HEAD].next| == MAX_HEIGHT
    && 1 <= s.maxHeight <= MAX_HEIGHT
    && (forall n :: 0 < n < |s.nodes| ==> 1 <= |s.nodes[n].next| <= s.maxHeight)
    && (forall m, n :: 0 < m < n < |s.nodes| ==> s.nodes[m].key != s.nodes[n].key)
  }

  ghost predicate LevelsOk(s: State) {
    forall i, n {:trigger Linked(s, i, n)} :: Linked(s, i, n) ==> Follows(s, i, n, s.nodes[n].next[i])
  }

  /** x is where a search for k may stand on level i. */
  ghost predicate SearchOk(s: State, i: int, x: int, k: Key) {
    Linked(s, i, x) && Before(s, x, k)
  }

  /** x is the last node of level i before key k, which is not in that level. */
  ghost predicate Precedes(s: State, i: int, x: int, k: Key) {
    SearchOk(s, i, x, k) &&
    var p := s.nodes[x].next[i];
    p == NULL || (0 <= p < |s.nodes| && k < s.nodes[p].key)
  }

  ghost predicate PrevOk(s: State, from: int, to: int, prev: seq<int>, k: Key) {
    |prev| == MAX_HEIGHT && 0 <= from && to <= MAX_HEIGHT && forall j :: from <= j < to ==> Precedes(s, j, prev[j], k)
  }

  ghost predicate NewKey(s: State, k: Key) {
    forall n :: 0 < n < |s.nodes| ==> s.nodes[n].key != k
  }

  ghost predicate WriterOk(s: State) {
    var w := s.writer;
    match w
    case Idle => true
    case Searching(k, height, prev, x, level) =>
      1 <= height <= MAX_HEIGHT && NewKey(s, k) && 0 <= level < s.maxHeight &&
      SearchOk(s, level, x, k) && PrevOk(s, level + 1, s.maxHeight, prev, k)
    case Comparing(k, height, prev, found) =>
      1 <= height <= MAX_HEIGHT && NewKey(s, k) && PrevOk(s, 0, s.maxHeight, prev, k) &&
      (found == NULL || (0 < found < |s.nodes| && s.nodes[found].key > k))
    case Filling(k, height, prev) =>
      s.maxHeight < height <= MAX_HEIGHT && NewKey(s, k) && PrevOk(s, 0, s.maxHeight, prev, k)
    case Raising(k, height, prev) =>
      s.maxHeight < height <= MAX_HEIGHT && NewKey(s, k) && PrevOk(s, 0, height, prev, k)
    case Allocating(k, height, prev) =>
      1 <= height <= s.maxHeight && NewKey(s, k) && PrevOk(s, 0, height, prev, k)
    case LoadNext(k, height, prev, node, i) =>
      LinkOk(s, k, height, prev, node, i)
    case StoreOwn(k, height, prev, node, i, next) =>
      LinkOk(s, k, height, prev, node, i) && s.nodes[prev[i]].next[i] == next
    case SetNext(k, height, prev, node, i, next) =>
      LinkOk(s, k, height, prev, node, i) && s.nodes[prev[i]].next[i] == next && s.nodes[node].next[i] == next
    case Inserted(k) => Contains(s, k)
  }

  ghost predicate LinkOk(s: State, k: Key, height: nat, prev: seq<int>, node: int, i: nat) {
    && 0 < node < |s.nodes| && s.nodes[node].key == k && |s.nodes[node].next| == height
    && i < height <= MAX_HEIGHT && PrevOk(s, i, height, prev, k)
  }

  ghost predicate ReadersOk(s: State) {
    forall r :: r in s.readers && s.readers[r].Reading? ==>
      SearchOk(s, s.readers[r].level, s.readers[r].x, s.readers[r].key)
  }

  ghost predicate Inv(s: State) {
    NodesOk(s) && LevelsOk(s) && WriterOk(s) && ReadersOk(s)
  }

  // ---------- steps ----------

  datatype Step =
    | CallInsert(key: Key, height: nat, junk: seq<int>)
    | WriterMove
    | Allocate(junk: seq<int>)
    | ReturnInsert
    | CallContains(r: ReaderId, key: Key)
    | ReaderMove(r: ReaderId)
    | ReturnContains(r: ReaderId)

  /** Insert is called only by the one writer, only with a key not in the list. Uninitialised
      memory (the prev array, a new node's pointers) holds arbitrary junk. */
  ghost predicate Enabled(s: State, step: Step) {
    match step
    case CallInsert(key, height, junk) =>
      s.writer.Idle? && 1 <= height <= MAX_HEIGHT && |junk| == MAX_HEIGHT && !Contains(s, key)
    case WriterMove => !s.writer.Idle? && !s.writer.Allocating? && !s.writer.Inserted?
    case Allocate(junk) => s.writer.Allocating? && |junk| == s.writer.height
    case ReturnInsert => s.writer.Inserted?
    case CallContains(r, key) => r !in s.readers || s.readers[r].NotReading?
    case ReaderMove(r) => r in s.readers && s.readers[r].Reading?
    case ReturnContains(r) => r in s.readers && s.readers[r].Answered?
  }

  predicate KeyIsAfterNode(nodes: seq<Node>, k: Key, n: int)
    requires n == NULL || 0 <= n < |nodes|
  {
    n != NULL && nodes[n].key < k
  }

  ghost function StoreNext(nodes: seq<Node>, n: int, i: int, p: int): (r: seq<Node>)
    requires 0 <= n < |nodes| && 0 <= i < |nodes[n].next|
    ensures |r| == |nodes|
  {
    nodes[n := nodes[n].(next := nodes[n].next[i := p])]
  }

  ghost function FillWithHead(prev: seq<int>, from: nat, to: nat): (p: seq<int>)
    requires from <= to <= |prev|
    ensures |p| == |prev| && forall j :: 0 <= j < |p| ==> p[j] == if from <= j < to then HEAD else prev[j]
  {
    seq(|prev|, j requires 0 <= j < |prev| => if from <= j < to then HEAD else prev[j])
  }

  /** One shared access of the writer. Inv is what makes every access fall inside a node. */
  ghost function MoveWriter(s: State): State
    requires Inv(s) && Enabled(s, WriterMove)
  {
    match s.writer
    case Searching(k, height, prev, x, level) =>
      var next := s.nodes[x].next[level];
      if KeyIsAfterNode(s.nodes, k, next) then
        s.(writer := Searching(k, height, prev, next, level))
      else if level == 0 then
        s.(writer := Comparing(k, height, prev[0 := x], next))
      else
        s.(writer := Searching(k, height, prev[level := x], x, level - 1))
    case Comparing(k, height, prev, found) =>
      if height > s.maxHeight then s.(writer := Filling(k, height, prev)) else s.(writer := Allocating(k, height, prev))
    case Filling(k, height, prev) =>
      s.(writer := Raising(k, height, FillWithHead(prev, s.maxHeight, height)))
    case Raising(k, height, prev) =>
      s.(maxHeight := height, writer := Allocating(k, height, prev))
    case LoadNext(k, height, prev, node, i) =>
      s.(writer := StoreOwn(k, height, prev, node, i, s.nodes[prev[i]].next[i]))
    case StoreOwn(k, height, prev, node, i, next) =>
      s.(nodes := StoreNext(s.nodes, node, i, next), writer := SetNext(k, height, prev, node, i, next))
    case SetNext(k, height, prev, node, i, next) =>
      s.(nodes := StoreNext(s.nodes, prev[i], i, node),
         writer := if i + 1 == height then Inserted(k) else LoadNext(k, height, prev, node, i + 1))
  }

  /** One load of a reader in FindGreaterOrEqual; the last one decides the answer. */
  ghost function MoveReader(s: State, rd: Reader): Reader
    requires Inv(s) && rd.Reading? && SearchOk(s, rd.level, rd.x, rd.key)
  {
    var next := s.nodes[rd.x].next[rd.level];
    assert Follows(s, rd.level, rd.x, next);
    if KeyIsAfterNode(s.nodes, rd.key, next) then rd.(x := next)
    else if rd.level == 0 then Answered(rd.key, next != NULL && s.nodes[next].key == rd.key)
    else rd.(level := rd.level - 1)
  }

  ghost function Apply(s: State, step: Step): State
    requires Inv(s) && Enabled(s, step)
  {
    match step
    case CallInsert(key, height, junk) =>
      s.(writer := Searching(key, height, junk, HEAD, s.maxHeight - 1))
    case WriterMove => MoveWriter(s)
    case Allocate(junk) =>
      s.(nodes := s.nodes + [Node(s.writer.key, junk)],
         writer := LoadNext(s.writer.key, s.writer.height, s.writer.prev, |s.nodes|, 0))
    case ReturnInsert => s.(writer := Idle)
    case CallContains(r, key) => s.(readers := s.readers[r := Reading(key, HEAD, s.maxHeight - 1)])
    case ReaderMove(r) => s.(readers := s.readers[r := MoveReader(s, s.readers[r])])
    case ReturnContains(r) => s.(readers := s.readers[r := NotReading])
  }

  ghost function Init(): State {
    State([Node(0, seq(MAX_HEIGHT, _ => NULL))], 1, Idle, map[])
  }

  // ---------- what every step keeps ----------

  /** Nodes keep their keys and heights. */
  ghost predicate SameNodes(s: State, t: State) {
    && |s.nodes| <= |t.nodes|
    && forall n :: 0 <= n < |s.nodes| ==> t.nodes[n].key == s.nodes[n].key && |t.nodes[n].next| == |s.nodes[n].next|
  }

  /** The lists of t contain those of s. */
  ghost predicate Extends(s: State, t: State) {
    SameNodes(s, t) && forall i, n {:trigger Linked(s, i, n)} :: Linked(s, i, n) ==> Linked(t, i, n)
  }

  /** The lists of t are those of s. */
  ghost predicate SameLists(s: State, t: State) {
    && SameNodes(s, t)
    && (forall i, n {:trigger Linked(t, i, n)} :: Linked(t, i, n) ==> Linked(s, i, n))
    && (forall i, n {:trigger Linked(s, i, n)} :: Linked(s, i, n) ==>
          Linked(t, i, n) && t.nodes[n].next[i] == s.nodes[n].next[i])
  }

  lemma ReadersStable(s: State, t: State)
    requires ReadersOk(s) && Extends(s, t) && t.readers == s.readers
    ensures ReadersOk(t)
  {
  }

  lemma LevelsStable(s: State, t: State)
    requires LevelsOk(s) && SameLists(s, t)
    ensures LevelsOk(t)
  {
    forall i, n | Linked(t, i, n) ensures Follows(t, i, n, t.nodes[n].next[i]) {
      assert Follows(s, i, n, s.nodes[n].next[i]);
    }
  }

  lemma PrevStable(s: State, t: State, from: int, to: int, prev: seq<int>, k: Key)
    requires LevelsOk(s) && PrevOk(s, from, to, prev, k) && SameLists(s, t)
    ensures PrevOk(t, from, to, prev, k)
  {
    forall j | from <= j < to ensures Precedes(t, j, prev[j], k) {
      assert Precedes(s, j, prev[j], k);
      assert Follows(s, j, prev[j], s.nodes[prev[j]].next[j]);
    }
  }

  /** Loads, and the store to max_height_, touch no list. */
  lemma QuietMove(s: State)
    requires Inv(s) && Enabled(s, WriterMove) && !s.writer.SetNext? && !s.writer.StoreOwn?
    ensures SameLists(s, MoveWriter(s))
  {
    hide Follows, Precedes, SearchOk, LevelsOk, PrevOk, ReadersOk, NewKey;
  }

  lemma PrevExtend(s: State, level: int, to: int, prev: seq<int>, x: int, k: Key)
    requires PrevOk(s, level + 1, to, prev, k) && 0 <= level < MAX_HEIGHT && Precedes(s, level, x, k)
    ensures PrevOk(s, level, to, prev[level := x], k)
  {
    hide Precedes;
  }

  /** Where a search stands after one load. */
  lemma SearchStep(s: State, level: int, x: int, k: Key) returns (next: int)
    requires NodesOk(s) && LevelsOk(s) && SearchOk(s, level, x, k) && NewKey(s, k)
    ensures 0 <= x < |s.nodes| && 0 <= level < |s.nodes[x].next| && next == s.nodes[x].next[level]
    ensures next == NULL || 0 < next < |s.nodes|
    ensures if KeyIsAfterNode(s.nodes, k, next) then SearchOk(s, level, next, k)
            else Precedes(s, level, x, k) && (level > 0 ==> SearchOk(s, level - 1, x, k))
  {
    next := s.nodes[x].next[level];
    assert Follows(s, level, x, next);
  }

  lemma SearchMoveKeepsWriter(s: State)
    requires Inv(s) && s.writer.Searching?
    ensures WriterOk(MoveWriter(s)) && SameLists(s, MoveWriter(s))
  {
    hide Linked, Follows, Precedes, SearchOk, LevelsOk, ReadersOk;
    var t := MoveWriter(s);
    QuietMove(s);
    var Searching(k, height, prev, x, level) := s.writer;
    var next := SearchStep(s, level, x, k);
    if !KeyIsAfterNode(s.nodes, k, next) {
      PrevExtend(s, level, s.maxHeight, prev, x, k);
      PrevStable(s, t, level, s.maxHeight, prev[level := x], k);
    } else {
      PrevStable(s, t, level + 1, s.maxHeight, prev, k);
    }
    SearchStable(s, t);
  }

  lemma SearchStable(s: State, t: State)
    requires Extends(s, t)
    ensures forall i, x, k {:trigger SearchOk(t, i, x, k)} :: SearchOk(s, i, x, k) ==> SearchOk(t, i, x, k)
  {
  }

  lemma LocalMoveKeepsWriter(s: State)
    requires Inv(s) && (s.writer.Comparing? || s.writer.LoadNext?)
    ensures WriterOk(MoveWriter(s)) && SameLists(s, MoveWriter(s))
  {
    hide Linked, Follows, Precedes, SearchOk, LevelsOk, ReadersOk;
    var t := MoveWriter(s);
    QuietMove(s);
    if s.writer.Comparing? {
      PrevStable(s, t, 0, s.maxHeight, s.writer.prev, s.writer.key);
    } else {
      PrevStable(s, t, s.writer.i, s.writer.height, s.writer.prev, s.writer.key);
    }
  }

  /** Above max_height_ only the head is linked, so it precedes every key there. */
  lemma FillingKeepsWriter(s: State)
    requires Inv(s) && s.writer.Filling?
    ensures WriterOk(MoveWriter(s)) && SameLists(s, MoveWriter(s))
  {
    var t := MoveWriter(s);
    var Filling(k, height, prev) := s.writer;
    QuietMove(s);
    PrevStable(s, t, 0, s.maxHeight, prev, k);
    forall j | s.maxHeight <= j < height ensures Precedes(t, j, HEAD, k) {
      assert Linked(s, j, HEAD);
      assert Follows(s, j, HEAD, s.nodes[HEAD].next[j]);
    }
  }

  lemma RaisingKeepsWriter(s: State)
    requires Inv(s) && s.writer.Raising?
    ensures WriterOk(MoveWriter(s)) && SameLists(s, MoveWriter(s)) && NodesOk(MoveWriter(s))
  {
    hide Linked, Follows, Precedes, SearchOk, LevelsOk, ReadersOk, PrevOk;
    var t := MoveWriter(s);
    QuietMove(s);
    PrevStable(s, t, 0, s.writer.height, s.writer.prev, s.writer.key);
  }

  /** The store goes to a node that is not linked on that level yet. */
  lemma StoreOwnIsHidden(s: State)
    requires Inv(s) && s.writer.StoreOwn?
    ensures SameLists(s, MoveWriter(s))
  {
    hide Follows, Precedes, SearchOk, LevelsOk, PrevOk, ReadersOk, NewKey;
  }

  /** So it is not the predecessor's, which still leads to what was loaded. */
  lemma PredecessorKeepsNext(s: State)
    requires Inv(s) && s.writer.StoreOwn?
    ensures var w := s.writer;
            && w.i < |w.prev| && 0 <= w.prev[w.i] < |s.nodes| && w.prev[w.i] != w.node
            && Precedes(s, w.i, w.prev[w.i], w.key)
  {
    hide LevelsOk, ReadersOk, Follows;
    assert Precedes(s, s.writer.i, s.writer.prev[s.writer.i], s.writer.key);
  }

  lemma StoreOwnKeepsInv(s: State)
    requires Inv(s) && s.writer.StoreOwn?
    ensures Inv(MoveWriter(s)) && SameLists(s, MoveWriter(s))
  {
    hide Linked, Follows, Precedes, SearchOk, LevelsOk, PrevOk, ReadersOk;
    var t := MoveWriter(s);
    StoreOwnIsHidden(s);
    PredecessorKeepsNext(s);
    LevelsStable(s, t);
    ReadersStable(s, t);
    PrevStable(s, t, s.writer.i, s.writer.height, s.writer.prev, s.writer.key);
  }

  lemma AllocateKeepsInv(s: State, junk: seq<int>)
    requires Inv(s) && Enabled(s, Allocate(junk))
    ensures Inv(Apply(s, Allocate(junk))) && SameLists(s, Apply(s, Allocate(junk)))
  {
    var t := Apply(s, Allocate(junk));
    assert SameLists(s, t);
    hide Linked, Follows, Precedes, SearchOk, LevelsOk, PrevOk, ReadersOk;
    LevelsStable(s, t);
    ReadersStable(s, t);
    PrevStable(s, t, 0, s.writer.height, s.writer.prev, s.writer.key);
  }

  /** t is s with node put into level i right after prev, before next. */
  ghost predicate Spliced(s: State, t: State, i: int, prev: int, node: int, next: int) {
    && SameNodes(s, t)
    && 0 < node < |s.nodes| && 0 <= i < |s.nodes[node].next| && !Linked(s, i, node) && Linked(s, i, prev)
    && s.nodes[prev].next[i] == next == s.nodes[node].next[i]
    && Linked(t, i, node) && t.nodes[node].next[i] == next
    && (forall j, n {:trigger Linked(t, j, n)} :: Linked(t, j, n) ==> Linked(s, j, n) || (j == i && n == node))
    && (forall j, n {:trigger Linked(s, j, n)} :: Linked(s, j, n) ==>
          Linked(t, j, n) && t.nodes[n].next[j] == if j == i && n == prev then node else s.nodes[n].next[j])
  }

  lemma SetNextSplices(s: State)
    requires Inv(s) && s.writer.SetNext?
    ensures var w := s.writer; Spliced(s, MoveWriter(s), w.i, w.prev[w.i], w.node, w.next)
  {
    var w := s.writer;
    assert Precedes(s, w.i, w.prev[w.i], w.key);
  }

  lemma OtherLevelsStay(s: State, t: State, i: int, prev: int, node: int, next: int, j: int, n: int)
    requires LevelsOk(s) && Spliced(s, t, i, prev, node, next) && j != i && Linked(t, j, n)
    ensures Follows(t, j, n, t.nodes[n].next[j])
  {
    assert Follows(s, j, n, s.nodes[n].next[j]);
  }

  lemma SplicedLevelFollows(s: State, t: State, i: int, prev: int, node: int, next: int, n: int)
    requires LevelsOk(s) && Spliced(s, t, i, prev, node, next) && Linked(t, i, n)
    requires |s.nodes| > 0 && forall m, n :: 0 < m < n < |s.nodes| ==> s.nodes[m].key != s.nodes[n].key
    requires Precedes(s, i, prev, s.nodes[node].key)
    ensures Follows(t, i, n, t.nodes[n].next[i])
  {
    assert Follows(s, i, prev, next);
    if n != prev && n != node {
      assert Follows(s, i, n, s.nodes[n].next[i]);
    }
  }

  /** Splicing a node between its neighbours keeps every level sorted. */
  lemma SpliceKeepsLevels(s: State, t: State, i: int, prev: int, node: int, next: int)
    requires LevelsOk(s) && Spliced(s, t, i, prev, node, next)
    requires |s.nodes| > 0 && forall m, n :: 0 < m < n < |s.nodes| ==> s.nodes[m].key != s.nodes[n].key
    requires Precedes(s, i, prev, s.nodes[node].key)
    ensures LevelsOk(t)
  {
    hide Follows, Precedes, Spliced;
    forall j, n | Linked(t, j, n) ensures Follows(t, j, n, t.nodes[n].next[j]) {
      if j != i {
        OtherLevelsStay(s, t, i, prev, node, next, j, n);
      } else {
        SplicedLevelFollows(s, t, i, prev, node, next, n);
      }
    }
  }

  lemma SetNextKeepsInv(s: State)
    requires Inv(s) && s.writer.SetNext?
    ensures Inv(MoveWriter(s)) && Extends(s, MoveWriter(s))
    ensures forall x :: Contains(MoveWriter(s), x) <==> Contains(s, x) || (s.writer.i == 0 && x == s.writer.key)
  {
    hide Linked, Follows, Precedes, SearchOk, LevelsOk, ReadersOk, Contains, StoreNext, Spliced;
    var t, w := MoveWriter(s), s.writer;
    assert Precedes(s, w.i, w.prev[w.i], w.key);
    SetNextSplices(s);
    SpliceExtends(s, t, w.i, w.prev[w.i], w.node, w.next);
    SpliceKeepsLevels(s, t, w.i, w.prev[w.i], w.node, w.next);
    SpliceGrowsContents(s, t, w.i, w.prev[w.i], w.node, w.next);
    ReadersStable(s, t);
    PrevAfterSplice(s, t, w.node, w.next);
    ContainsLinkingKey(s, t);
  }

  lemma SpliceExtends(s: State, t: State, i: int, prev: int, node: int, next: int)
    requires Spliced(s, t, i, prev, node, next)
    ensures Extends(s, t)
    ensures |s.nodes| == |t.nodes| && NodesOk(s) && s.maxHeight == t.maxHeight ==> NodesOk(t)
  {
  }

  /** From its level-0 SetNext on, the key being inserted is in the set. */
  lemma ContainsLinkingKey(s: State, t: State)
    requires WriterOk(s) && s.writer.SetNext?
    requires Spliced(s, t, s.writer.i, s.writer.prev[s.writer.i], s.writer.node, s.writer.next)
    ensures Contains(t, s.writer.key)
  {
    assert Linked(t, s.writer.i, s.writer.node);
    if s.writer.i > 0 {
      assert Linked(s, 0, s.writer.node);
    }
    ContainsLinked(t, s.writer.node);
  }

  lemma ContainsLinked(s: State, n: int)
    requires Linked(s, 0, n) && n != HEAD
    ensures Contains(s, s.nodes[n].key)
  {
  }

  lemma SpliceGrowsContents(s: State, t: State, i: int, prev: int, node: int, next: int)
    requires Spliced(s, t, i, prev, node, next)
    ensures forall x :: Contains(t, x) <==> Contains(s, x) || (i == 0 && x == s.nodes[node].key)
  {
    forall x ensures Contains(t, x) <==> Contains(s, x) || (i == 0 && x == s.nodes[node].key) {
      if n :| Linked(s, 0, n) && n != HEAD && s.nodes[n].key == x {
        assert Linked(t, 0, n);
      }
    }
  }

  lemma PrevAfterSplice(s: State, t: State, node: int, next: int)
    requires LevelsOk(s) && s.writer.SetNext?
    requires LinkOk(s, s.writer.key, s.writer.height, s.writer.prev, node, s.writer.i)
    requires Spliced(s, t, s.writer.i, s.writer.prev[s.writer.i], node, next)
    ensures PrevOk(t, s.writer.i + 1, s.writer.height, s.writer.prev, s.writer.key)
  {
    var w := s.writer;
    forall j | w.i + 1 <= j < w.height ensures Precedes(t, j, w.prev[j], w.key) {
      assert Precedes(s, j, w.prev[j], w.key);
      assert Follows(s, j, w.prev[j], s.nodes[w.prev[j]].next[j]);
    }
  }

  lemma SameListsSameContents(s: State, t: State)
    requires SameLists(s, t)
    ensures forall x :: Contains(t, x) <==> Contains(s, x)
  {
    forall x ensures Contains(t, x) <==> Contains(s, x) {
      if n :| Linked(s, 0, n) && n != HEAD && s.nodes[n].key == x {
        assert Linked(t, 0, n);
      }
    }
  }

  /** Insert changes the set at its level-0 SetNext and nowhere else. */
  ghost predicate TakesEffect(s: State) {
    s.writer.SetNext? && s.writer.i == 0
  }

  lemma WriterMoveKeepsInv(s: State)
    requires Inv(s) && Enabled(s, WriterMove)
    ensures Inv(MoveWriter(s))
    ensures forall x :: Contains(MoveWriter(s), x) <==> Contains(s, x) || (TakesEffect(s) && x == s.writer.key)
  {
    hide Linked, Follows, Precedes, SearchOk, LevelsOk, PrevOk, ReadersOk, WriterOk, Contains;
    var t := MoveWriter(s);
    if s.writer.SetNext? {
      SetNextKeepsInv(s);
    } else if s.writer.StoreOwn? {
      StoreOwnKeepsInv(s);
      SameListsSameContents(s, t);
    } else {
      LocalMoveKeepsInv(s);
      SameListsSameContents(s, t);
    }
  }

  lemma LocalMoveKeepsInv(s: State)
    requires Inv(s) && Enabled(s, WriterMove) && !s.writer.SetNext? && !s.writer.StoreOwn?
    ensures Inv(MoveWriter(s)) && SameLists(s, MoveWriter(s))
  {
    hide Linked, Follows, Precedes, SearchOk, LevelsOk, PrevOk, ReadersOk, WriterOk;
    var t := MoveWriter(s);
    if s.writer.Searching? {
      SearchMoveKeepsWriter(s);
    } else if s.writer.Filling? {
      FillingKeepsWriter(s);
    } else if s.writer.Raising? {
      RaisingKeepsWriter(s);
    } else {
      LocalMoveKeepsWriter(s);
    }
    LevelsStable(s, t);
    ReadersStable(s, t);
  }

  /** The level-0 load that ends a search sees the set as it is at that moment. */
  lemma LastLoadDecides(s: State, x: int, k: Key)
    requires NodesOk(s) && LevelsOk(s) && SearchOk(s, 0, x, k)
    ensures var next := s.nodes[x].next[0];
            (next == NULL || 0 <= next < |s.nodes|) &&
            (!KeyIsAfterNode(s.nodes, k, next) ==> (next != NULL && s.nodes[next].key == k <==> Contains(s, k)))
  {
    assert Follows(s, 0, x, s.nodes[x].next[0]);
  }

  lemma ReaderMoveKeepsReader(s: State, rd: Reader)
    requires Inv(s) && rd.Reading? && SearchOk(s, rd.level, rd.x, rd.key)
    ensures var rd' := MoveReader(s, rd);
            && !rd'.NotReading? && rd'.key == rd.key
            && (rd'.Reading? ==> SearchOk(s, rd'.level, rd'.x, rd'.key))
            && (rd'.Answered? ==> (rd'.answer <==> Contains(s, rd.key)))
  {
    assert Follows(s, rd.level, rd.x, s.nodes[rd.x].next[rd.level]);
    if rd.level == 0 {
      LastLoadDecides(s, rd.x, rd.key);
    }
  }

  lemma CallInsertKeepsInv(s: State, k: Key, height: nat, junk: seq<int>)
    requires Inv(s) && Enabled(s, CallInsert(k, height, junk))
    ensures Inv(Apply(s, CallInsert(k, height, junk)))
  {
    var t := Apply(s, CallInsert(k, height, junk));
    IdleNewKey(s, k);
    CallKeepsInv(s, t);
    ReadersStable(s, t);
    assert Linked(s, s.maxHeight - 1, HEAD);
  }

  lemma ReaderStepKeepsInv(s: State, step: Step)
    requires Inv(s) && Enabled(s, step) && (step.CallContains? || step.ReaderMove? || step.ReturnContains?)
    ensures Inv(Apply(s, step)) && SameLists(s, Apply(s, step))
  {
    var t := Apply(s, step);
    CallKeepsInv(s, t);
    WriterStable(s, t);
    if step.ReaderMove? {
      ReaderMoveKeepsReader(s, s.readers[step.r]);
    }
  }

  lemma WriterStable(s: State, t: State)
    requires WriterOk(s) && t.nodes == s.nodes && t.maxHeight == s.maxHeight && t.writer == s.writer
    ensures WriterOk(t)
  {
    assert forall i, n {:trigger Linked(s, i, n)} {:trigger Linked(t, i, n)} :: Linked(s, i, n) <==> Linked(t, i, n);
  }

  /** Every step keeps the invariant, and only the level-0 SetNext of Insert changes the set. */
  lemma StepKeepsInv(s: State, step: Step)
    requires Inv(s) && Enabled(s, step)
    ensures Inv(Apply(s, step))
    ensures forall x :: Contains(Apply(s, step), x) <==>
              Contains(s, x) || (step.WriterMove? && TakesEffect(s) && x == s.writer.key)
  {
    hide Linked, Follows, LevelsOk, ReadersOk, WriterOk, Contains;
    var t := Apply(s, step);
    match step
    case WriterMove =>
      WriterMoveKeepsInv(s);
    case Allocate(junk) =>
      AllocateKeepsInv(s, junk);
      SameListsSameContents(s, t);
    case CallInsert(k, height, junk) =>
      CallInsertKeepsInv(s, k, height, junk);
      CallKeepsInv(s, t);
    case ReturnInsert =>
      ReturnKeepsInv(s);
      CallKeepsInv(s, t);
    case CallContains(_, _) =>
      ReaderStepKeepsInv(s, step);
      SameListsSameContents(s, t);
    case ReaderMove(_) =>
      ReaderStepKeepsInv(s, step);
      SameListsSameContents(s, t);
    case ReturnContains(_) =>
      ReaderStepKeepsInv(s, step);
      SameListsSameContents(s, t);
  }

  lemma ReturnKeepsInv(s: State)
    requires Inv(s) && s.writer.Inserted?
    ensures Inv(Apply(s, ReturnInsert))
  {
    CallKeepsInv(s, Apply(s, ReturnInsert));
    ReadersStable(s, Apply(s, ReturnInsert));
  }

  lemma IdleNewKey(s: State, k: Key)
    requires NodesOk(s) && s.writer.Idle? && !Contains(s, k)
    ensures NewKey(s, k)
  {
    forall n | 0 < n < |s.nodes| ensures s.nodes[n].key != k {
      assert Linked(s, 0, n);
    }
  }

  lemma CallKeepsInv(s: State, t: State)
    requires NodesOk(s) && LevelsOk(s) && t.nodes == s.nodes && t.maxHeight == s.maxHeight
    requires t.writer == s.writer || (!Linking(s.writer) && !Linking(t.writer))
    ensures NodesOk(t) && LevelsOk(t) && SameLists(s, t)
    ensures forall x :: Contains(t, x) <==> Contains(s, x)
  {
    assert SameLists(s, t);
    LevelsStable(s, t);
    SameListsSameContents(s, t);
  }

  lemma InitSatisfiesInv()
    ensures Inv(Init()) && forall x :: !Contains(Init(), x)
  {
  }

  // ---------- runs ----------

  /** Apply is defined where Inv makes every access fall inside a node; were that ever lost,
      anything could follow. */
  ghost predicate Next(s: State, step: Step, t: State) {
    Enabled(s, step) && (Inv(s) ==> t == Apply(s, step))
  }

  /** states[0] is the empty list, and each step leads from one state to the next. */
  ghost predicate IsRun(states: seq<State>, steps: seq<Step>) {
    && |states| == |steps| + 1 && states[0] == Init()
    && forall i :: 0 <= i < |steps| ==> Next(states[i], steps[i], states[i + 1])
  }

  /** The invariant holds at every state of every run. */
  lemma {:induction false} RunKeepsInv(states: seq<State>, steps: seq<Step>, i: nat)
    requires IsRun(states, steps) && i < |states|
    ensures Inv(states[i])
  {
    hide Inv, Enabled, Apply;
    if i == 0 {
      InitSatisfiesInv();
    } else {
      RunKeepsInv(states, steps, i - 1);
      assert Next(states[i - 1], steps[i - 1], states[i]);
      StepKeepsInv(states[i - 1], steps[i - 1]);
    }
  }

  // ---------- the atomic set that the list implements ----------

  datatype Client = NoCall | Pending(key: Key) | Done(key: Key, answer: bool)

  datatype SetState = SetState(elems: iset<Key>, writer: Client, readers: map<ReaderId, Client>)

  /** One pending call takes effect: the whole operation at one instant. */
  ghost predicate Effect(a: SetState, b: SetState) {
    || (a.writer.Pending? && a.writer.key !in a.elems &&
        b == a.(elems := a.elems + iset{a.writer.key}, writer := Done(a.writer.key, true)))
    || exists r: ReaderId :: r in a.readers && a.readers[r].Pending? &&
         b == a.(readers := a.readers[r := Done(a.readers[r].key, a.readers[r].key in a.elems)])
  }

  /** Calls and returns are those of the list; any other step is invisible or one Effect. */
  ghost predicate SetNextState(a: SetState, step: Step, b: SetState) {
    match step
    case CallInsert(k, _, _) => a.writer.NoCall? && k !in a.elems && b == a.(writer := Pending(k))
    case ReturnInsert => a.writer.Done? && b == a.(writer := NoCall)
    case CallContains(r, k) =>
      (r in a.readers ==> a.readers[r].NoCall?) && b == a.(readers := a.readers[r := Pending(k)])
    case ReturnContains(r) =>
      r in a.readers && a.readers[r].Done? && b == a.(readers := a.readers[r := NoCall])
    case WriterMove => a == b || Effect(a, b)
    case Allocate(_) => a == b || Effect(a, b)
    case ReaderMove(_) => a == b || Effect(a, b)
  }

  ghost function AbsWriter(w: Writer): Client {
    if w.Idle? then NoCall
    else if w.Inserted? || (Linking(w) && w.i > 0) then Done(w.key, true)
    else Pending(w.key)
  }

  ghost function AbsReader(rd: Reader): Client {
    match rd
    case NotReading => NoCall
    case Reading(k, _, _) => Pending(k)
    case Answered(k, answer) => Done(k, answer)
  }

  ghost function AbsReaders(readers: map<ReaderId, Reader>): map<ReaderId, Client> {
    map r | r in readers :: AbsReader(readers[r])
  }

  ghost function Abs(s: State): SetState {
    SetState((iset k: Key | Contains(s, k)), AbsWriter(s.writer), AbsReaders(s.readers))
  }

  lemma AbsReadersUpdate(readers: map<ReaderId, Reader>, r: ReaderId, rd: Reader)
    ensures AbsReaders(readers[r := rd]) == AbsReaders(readers)[r := AbsReader(rd)]
  {
  }

  lemma ReaderStepRefines(s: State, r: ReaderId)
    requires Inv(s) && Enabled(s, ReaderMove(r))
    ensures var a, b := Abs(s), Abs(Apply(s, ReaderMove(r))); a == b || Effect(a, b)
  {
    hide Linked, Contains, MoveReader, Precedes, LevelsOk, WriterOk, NodesOk;
    var rd := s.readers[r];
    ReaderMoveKeepsReader(s, rd);
    StepKeepsInv(s, ReaderMove(r));
    AbsReadersUpdate(s.readers, r, MoveReader(s, rd));
    var a, b := Abs(s), Abs(Apply(s, ReaderMove(r)));
    assert a.elems == b.elems;
    if MoveReader(s, rd).Reading? {
      assert a == b;
    } else {
      assert b == a.(readers := a.readers[r := Done(rd.key, rd.key in a.elems)]);
    }
  }

  lemma NewKeyNotContained(s: State)
    requires Inv(s) && TakesEffect(s)
    ensures !Contains(s, s.writer.key)
  {
    forall n | Linked(s, 0, n) && n != HEAD ensures s.nodes[n].key != s.writer.key {
      assert n != s.writer.node;
    }
  }

  lemma AbsWriterMove(s: State)
    requires Inv(s) && Enabled(s, WriterMove)
    ensures AbsWriter(MoveWriter(s).writer) == if TakesEffect(s) then Done(s.writer.key, true) else AbsWriter(s.writer)
    ensures MoveWriter(s).readers == s.readers
    ensures TakesEffect(s) ==> AbsWriter(s.writer) == Pending(s.writer.key)
  {
    hide Linked, Follows, Precedes, SearchOk, LevelsOk, PrevOk, ReadersOk, NodesOk;
  }

  lemma WriterStepRefines(s: State)
    requires Inv(s) && Enabled(s, WriterMove)
    ensures var a, b := Abs(s), Abs(Apply(s, WriterMove)); a == b || Effect(a, b)
  {
    hide Inv, Contains, MoveWriter, AbsWriter;
    StepKeepsInv(s, WriterMove);
    AbsWriterMove(s);
    var a, b := Abs(s), Abs(Apply(s, WriterMove));
    if TakesEffect(s) {
      NewKeyNotContained(s);
      assert b.elems == a.elems + iset{s.writer.key};
    } else {
      assert a.elems == b.elems;
    }
  }

  /** Forward simulation: every step of the list is a step of the atomic set. */
  lemma StepRefines(s: State, step: Step)
    requires Inv(s) && Enabled(s, step)
    ensures SetNextState(Abs(s), step, Abs(Apply(s, step)))
  {
    StepKeepsInv(s, step);
    hide Linked, Inv, Contains, MoveWriter, MoveReader;
    var t := Apply(s, step);
    match step
    case WriterMove => WriterStepRefines(s);
    case ReaderMove(r) => ReaderStepRefines(s, r);
    case CallContains(r, k) =>
      assert Abs(s).elems == Abs(t).elems;
      AbsReadersUpdate(s.readers, r, t.readers[r]);
    case ReturnContains(r) =>
      assert Abs(s).elems == Abs(t).elems;
      AbsReadersUpdate(s.readers, r, NotReading);
    case _ => assert Abs(s).elems == Abs(t).elems;
  }

  /** Linearizability: every run is, call for call and return for return, a run of the atomic set. */
  lemma Linearizable(states: seq<State>, steps: seq<Step>)
    requires IsRun(states, steps)
    ensures Abs(states[0]) == SetState(iset{}, NoCall, map[])
    ensures forall i :: 0 <= i < |steps| ==> SetNextState(Abs(states[i]), steps[i], Abs(states[i + 1]))
  {
    hide Inv, SetNextState, Apply, Enabled;
    InitSatisfiesInv();
    forall i | 0 <= i < |steps| ensures SetNextState(Abs(states[i]), steps[i], Abs(states[i + 1])) {
      RunKeepsInv(states, steps, i);
      assert Next(states[i], steps[i], states[i + 1]);
      StepRefines(states[i], steps[i]);
    }
  }

  /** Reader r's call for k is still searching, or has an answer that was true at some state of the call. */
  ghost predicate AnswerTrueSince(states: seq<State>, i: nat, j: nat, r: ReaderId, k: Key)
    requires i < j < |states|
  {
    && r in states[j].readers && !states[j].readers[r].NotReading? && states[j].readers[r].key == k
    && (states[j].readers[r].Answered? ==>
          exists m {:trigger states[m]} :: i < m < j && (states[j].readers[r].answer <==> Contains(states[m], k)))
  }

  lemma OneStepOfAnswer(s: State, step: Step, r: ReaderId)
    requires Inv(s) && Enabled(s, step) && r in s.readers && !s.readers[r].NotReading?
    requires step != ReturnContains(r)
    ensures var t := Apply(s, step);
            && r in t.readers && !t.readers[r].NotReading? && t.readers[r].key == s.readers[r].key
            && (t.readers[r] == s.readers[r] || t.readers[r].Reading?
                || (s.readers[r].Reading? && (t.readers[r].answer <==> Contains(s, s.readers[r].key))))
  {
    if step == ReaderMove(r) {
      ReaderMoveKeepsReader(s, s.readers[r]);
    }
    hide Linked, Contains, Inv, MoveReader;
    if step.WriterMove? {
      AbsWriterMove(s);
    }
  }

  /** What a caller sees: the answer of Contains was membership at some moment of the call. */
  lemma {:induction false} AnswerWasMembership(states: seq<State>, steps: seq<Step>, i: nat, j: nat,
                                               r: ReaderId, k: Key)
    requires IsRun(states, steps) && i < j <= |steps| && steps[i] == CallContains(r, k)
    requires forall m :: i < m < j ==> steps[m] != ReturnContains(r)
    ensures AnswerTrueSince(states, i, j, r, k)
    decreases j
  {
    hide Contains, Inv;
    RunKeepsInv(states, steps, j - 1);
    assert Next(states[j - 1], steps[j - 1], states[j]);
    if j > i + 1 {
      AnswerWasMembership(states, steps, i, j - 1, r, k);
      OneStepOfAnswer(states[j - 1], steps[j - 1], r);
    }
  }

  // ---------- following the pointers ----------

  /** The nodes of level i after n. */
  ghost function After(s: State, i: int, n: int): set<int>
    requires 0 <= n < |s.nodes|
  {
    set b | 0 <= b < |s.nodes| && Linked(s, i, b) && b != HEAD && Before(s, n, s.nodes[b].key)
  }

  lemma FollowShrinks(s: State, i: int, n: int)
    requires NodesOk(s) && LevelsOk(s) && Linked(s, i, n) && s.nodes[n].next[i] != NULL
    ensures var p := s.nodes[n].next[i];
            Linked(s, i, p) && p != HEAD && p in After(s, i, n) && After(s, i, n) == {p} + After(s, i, p)
            && p !in After(s, i, p)
  {
    var p := s.nodes[n].next[i];
    assert Follows(s, i, n, p);
  }

  /** Every load of a reader answers, or goes down a level, or leaves fewer nodes ahead on its
      level. */
  lemma ReaderMakesProgress(s: State, rd: Reader)
    requires Inv(s) && rd.Reading? && SearchOk(s, rd.level, rd.x, rd.key)
    ensures var rd' := MoveReader(s, rd);
            || rd'.Answered?
            || (rd'.Reading? && 0 <= rd'.level < rd.level)
            || (rd'.Reading? && rd'.level == rd.level && 0 <= rd'.x < |s.nodes|
                && After(s, rd.level, rd'.x) < After(s, rd.level, rd.x))
  {
    var next := s.nodes[rd.x].next[rd.level];
    assert Follows(s, rd.level, rd.x, next);
    if KeyIsAfterNode(s.nodes, rd.key, next) {
      hide After, Follows;
      FollowShrinks(s, rd.level, rd.x);
    }
  }

  /** The nodes met by following level-i pointers from n; it ends in every reachable state. */
  ghost function Chain(s: State, i: int, n: int): seq<int>
    requires NodesOk(s) && LevelsOk(s) && Linked(s, i, n)
    decreases After(s, i, n)
  {
    var p := s.nodes[n].next[i];
    if p == NULL then [] else
      FollowShrinks(s, i, n);
      [p] + Chain(s, i, p)
  }

  ghost predicate SortedNodes(s: State, c: seq<int>) {
    && (forall a :: 0 <= a < |c| ==> 0 <= c[a] < |s.nodes|)
    && forall a, b :: 0 <= a < b < |c| ==> s.nodes[c[a]].key < s.nodes[c[b]].key
  }

  /** Following pointers on any level, at any moment, meets exactly the linked nodes after the
      start, in strictly ascending order. */
  lemma {:induction false} ChainIsSortedLevel(s: State, i: int, n: int)
    requires NodesOk(s) && LevelsOk(s) && Linked(s, i, n)
    ensures SortedNodes(s, Chain(s, i, n))
    ensures forall b :: b in Chain(s, i, n) <==> b in After(s, i, n)
    decreases After(s, i, n)
  {
    var p := s.nodes[n].next[i];
    if p == NULL {
      assert Follows(s, i, n, p);
    } else {
      FollowShrinks(s, i, n);
      ChainIsSortedLevel(s, i, p);
      var rest := Chain(s, i, p);
      forall b | b in rest ensures 0 <= b < |s.nodes| && s.nodes[p].key < s.nodes[b].key {
        assert b in After(s, i, p);
      }
      SortedCons(s, p, rest);
      assert Chain(s, i, n) == [p] + rest;
    }
  }

  lemma SortedCons(s: State, p: int, rest: seq<int>)
    requires 0 <= p < |s.nodes| && SortedNodes(s, rest)
    requires forall b :: b in rest ==> 0 <= b < |s.nodes| && s.nodes[p].key < s.nodes[b].key
    ensures SortedNodes(s, [p] + rest)
  {
  }

  lemma HeadLinked(s: State, i: nat)
    requires Inv(s) && i < MAX_HEIGHT
    ensures Linked(s, i, HEAD)
  {
  }

  /** The nodes of level i, in order. */
  ghost function Level(s: State, i: nat): seq<int>
    requires Inv(s) && i < MAX_HEIGHT
  {
    HeadLinked(s, i);
    Chain(s, i, HEAD)
  }

  lemma LevelHolds(s: State, i: nat)
    requires Inv(s) && i < MAX_HEIGHT
    ensures SortedNodes(s, Level(s, i))
    ensures |s.nodes| > 0 && forall b :: b in Level(s, i) <==> b in After(s, i, HEAD)
  {
    hide Chain, After, SortedNodes, Linked, LevelsOk;
    HeadLinked(s, i);
    ChainIsSortedLevel(s, i, HEAD);
  }

  /** At every moment each level is sorted, holds only nodes tall enough for it, and is part of
      the level below. */
  lemma LevelsNest(s: State, i: nat)
    requires Inv(s) && i + 1 < MAX_HEIGHT
    ensures SortedNodes(s, Level(s, i + 1)) && SortedNodes(s, Level(s, i))
    ensures forall b :: b in Level(s, i + 1) ==> b in Level(s, i) && 0 <= b < |s.nodes| && |s.nodes[b].next| > i + 1
  {
    hide Level, Inv, SortedNodes;
    LevelHolds(s, i);
    LevelHolds(s, i + 1);
    forall b | b in Level(s, i + 1) ensures b in Level(s, i) && 0 <= b < |s.nodes| && |s.nodes[b].next| > i + 1 {
      assert Linked(s, i + 1, b) && Linked(s, i, b);
      assert b in After(s, i, HEAD);
    }
  }

  /** The set that Contains answers for is what level 0 holds. */
  lemma ContentsAreLevelZero(s: State, k: Key)
    requires Inv(s)
    ensures Contains(s, k) <==> exists b :: b in Level(s, 0) && 0 <= b < |s.nodes| && s.nodes[b].key == k
  {
    hide Level, Inv, SortedNodes;
    LevelHolds(s, 0);
    if n :| Linked(s, 0, n) && n != HEAD && s.nodes[n].key == k {
      assert n in After(s, 0, HEAD);
    }
    if b :| b in Level(s, 0) && 0 <= b < |s.nodes| && s.nodes[b].key == k {
      assert b in After(s, 0, HEAD);
    }
  }

  // ---------- how many loads a call makes ----------

  /** The nodes with keys before k. */
  ghost function NodesBefore(s: State, k: Key): set<int> {
    set n | 0 < n < |s.nodes| && s.nodes[n].key < k
  }

  /** The nodes that a search standing at x has behind it, x included. */
  ghost function Passed(s: State, x: int): set<int>
    requires 0 <= x < |s.nodes|
  {
    if x == HEAD then {} else set n | 0 < n < |s.nodes| && s.nodes[n].key <= s.nodes[x].key
  }

  /** The number of loads that reader r makes in steps i, ..., j - 1. */
  ghost function Loads(steps: seq<Step>, i: nat, j: nat, r: ReaderId): nat
    requires i <= j <= |steps|
    decreases j
  {
    if i == j then 0 else Loads(steps, i, j - 1, r) + if steps[j - 1] == ReaderMove(r) then 1 else 0
  }

  /** After n loads: what is left of the levels is used up, or nodes were passed. */
  ghost predicate WithinBudget(s: State, rd: Reader, n: nat) {
    match rd
    case NotReading => false
    case Reading(k, x, level) =>
      0 <= x < |s.nodes| && 0 <= level && Before(s, x, k) && n + level < MAX_HEIGHT + |Passed(s, x)|
    case Answered(k, _) => n <= MAX_HEIGHT + |NodesBefore(s, k)|
  }

  lemma Smaller(a: set<int>, b: set<int>)
    requires a <= b
    ensures |a| <= |b| && (a != b ==> |a| < |b|)
  {
    var rest := b - a;
    assert b == a + rest && |b| == |a| + |rest|;
    assert rest == {} ==> a == b;
  }

  lemma PassedBefore(s: State, x: int, k: Key)
    requires 0 <= x < |s.nodes| && Before(s, x, k)
    ensures |Passed(s, x)| <= |NodesBefore(s, k)|
  {
    Smaller(Passed(s, x), NodesBefore(s, k));
  }

  /** Nodes keep their keys and are never removed, so a budget never shrinks. */
  lemma BudgetGrows(s: State, t: State, rd: Reader, n: nat)
    requires SameNodes(s, t) && WithinBudget(s, rd, n)
    ensures WithinBudget(t, rd, n)
  {
    match rd
    case Reading(k, x, level) => Smaller(Passed(s, x), Passed(t, x));
    case Answered(k, _) => Smaller(NodesBefore(s, k), NodesBefore(t, k));
  }

  lemma LoadWithinBudget(s: State, rd: Reader, n: nat)
    requires Inv(s) && rd.Reading? && SearchOk(s, rd.level, rd.x, rd.key) && WithinBudget(s, rd, n)
    ensures WithinBudget(s, MoveReader(s, rd), n + 1)
  {
    var next := s.nodes[rd.x].next[rd.level];
    assert Follows(s, rd.level, rd.x, next);
    hide Inv, Follows, Linked, NodesBefore;
    if KeyIsAfterNode(s.nodes, rd.key, next) {
      assert next in Passed(s, next) && next !in Passed(s, rd.x);
      Smaller(Passed(s, rd.x), Passed(s, next));
    } else {
      PassedBefore(s, rd.x, rd.key);
    }
  }

  lemma StepKeepsNodes(s: State, step: Step)
    requires Inv(s) && Enabled(s, step)
    ensures SameNodes(s, Apply(s, step))
  {
    hide Inv, MoveWriter, MoveReader, Contains, Linked;
    match step
    case WriterMove =>
      if s.writer.SetNext? {
        SetNextKeepsInv(s);
      } else if s.writer.StoreOwn? {
        StoreOwnKeepsInv(s);
      } else {
        LocalMoveKeepsInv(s);
      }
    case Allocate(junk) => AllocateKeepsInv(s, junk);
    case _ =>
  }

  lemma {:induction false} CallWithinBudget(states: seq<State>, steps: seq<Step>, i: nat, j: nat, r: ReaderId, k: Key)
    requires IsRun(states, steps) && i < j <= |steps| && steps[i] == CallContains(r, k)
    requires forall m :: i < m < j ==> steps[m] != ReturnContains(r)
    ensures r in states[j].readers && !states[j].readers[r].NotReading? && states[j].readers[r].key == k
    ensures WithinBudget(states[j], states[j].readers[r], Loads(steps, i + 1, j, r))
    decreases j
  {
    hide Inv, WithinBudget, MoveReader, MoveWriter, SameNodes;
    var s, step := states[j - 1], steps[j - 1];
    RunKeepsInv(states, steps, j - 1);
    assert Next(s, step, states[j]);
    if j == i + 1 {
      CallStartsWithinBudget(s, r, k);
    } else {
      CallWithinBudget(states, steps, i, j - 1, r, k);
      OneStepOfBudget(s, step, r, Loads(steps, i + 1, j - 1, r));
    }
  }

  lemma CallStartsWithinBudget(s: State, r: ReaderId, k: Key)
    requires Inv(s) && Enabled(s, CallContains(r, k))
    ensures WithinBudget(Apply(s, CallContains(r, k)), Reading(k, HEAD, s.maxHeight - 1), 0)
  {
  }

  lemma OneStepOfBudget(s: State, step: Step, r: ReaderId, n: nat)
    requires Inv(s) && Enabled(s, step) && step != ReturnContains(r)
    requires r in s.readers && !s.readers[r].NotReading? && WithinBudget(s, s.readers[r], n)
    ensures var t := Apply(s, step);
            && r in t.readers && !t.readers[r].NotReading? && t.readers[r].key == s.readers[r].key
            && WithinBudget(t, t.readers[r], if step == ReaderMove(r) then n + 1 else n)
  {
    var t := Apply(s, step);
    StepKeepsNodes(s, step);
    if step == ReaderMove(r) {
      LoadWithinBudget(s, s.readers[r], n);
      ReaderMoveKeepsReader(s, s.readers[r]);
      BudgetGrows(s, t, t.readers[r], n + 1);
    } else {
      if step.WriterMove? {
        AbsWriterMove(s);
      }
      BudgetGrows(s, t, s.readers[r], n);
    }
  }

  /** Coming down from a list of height top, no level is left out. */
  ghost predicate DescendedFrom(rd: Reader, top: nat, n: nat) {
    match rd
    case NotReading => false
    case Reading(_, _, level) => n + level + 1 >= top
    case Answered(_, _) => n >= top
  }

  lemma OneStepOfDescent(s: State, step: Step, r: ReaderId, top: nat, n: nat)
    requires Inv(s) && Enabled(s, step) && step != ReturnContains(r)
    requires r in s.readers && !s.readers[r].NotReading? && DescendedFrom(s.readers[r], top, n)
    ensures var t := Apply(s, step);
            r in t.readers && DescendedFrom(t.readers[r], top, if step == ReaderMove(r) then n + 1 else n)
  {
    if step == ReaderMove(r) {
      ReaderMoveKeepsReader(s, s.readers[r]);
    }
    hide Inv, Linked, Contains;
    if step.WriterMove? {
      AbsWriterMove(s);
    }
  }

  /** A call that has answered has made a load on every level that was in use when it began. */
  lemma {:induction false} EveryLevelLoaded(states: seq<State>, steps: seq<Step>, i: nat, j: nat, r: ReaderId, k: Key)
    requires IsRun(states, steps) && i < j <= |steps| && steps[i] == CallContains(r, k)
    requires forall m :: i < m < j ==> steps[m] != ReturnContains(r)
    ensures r in states[j].readers
    ensures DescendedFrom(states[j].readers[r], states[i].maxHeight, Loads(steps, i + 1, j, r))
    decreases j
  {
    hide Inv, MoveReader, MoveWriter;
    var s, step := states[j - 1], steps[j - 1];
    RunKeepsInv(states, steps, j - 1);
    assert Next(s, step, states[j]);
    if j > i + 1 {
      EveryLevelLoaded(states, steps, i, j - 1, r, k);
      OneStepOfDescent(s, step, r, states[i].maxHeight, Loads(steps, i + 1, j - 1, r));
    }
  }

  /** A call of Contains makes at most one load for each level and one for each key before its own
      that was ever inserted by then, however the writer and other readers interleave, and can
      always make the next one. So it ends, given its turns, unless smaller keys are inserted for
      ever. When it has answered it has come down every level that was in use when it began. */
  lemma LoadsBounded(states: seq<State>, steps: seq<Step>, i: nat, j: nat, r: ReaderId, k: Key)
    requires IsRun(states, steps) && i < j <= |steps| && steps[i] == CallContains(r, k)
    requires forall m :: i < m < j ==> steps[m] != ReturnContains(r)
    ensures Loads(steps, i + 1, j, r) <= 12 + |NodesBefore(states[j], k)|
    ensures r in states[j].readers
    ensures if states[j].readers[r].Answered? then Loads(steps, i + 1, j, r) >= states[i].maxHeight
            else Enabled(states[j], ReaderMove(r))
    ensures states[j].readers[r].Answered? ==> Enabled(states[j], ReturnContains(r))
  {
    CallWithinBudget(states, steps, i, j, r, k);
    EveryLevelLoaded(states, steps, i, j, r, k);
    var rd := states[j].readers[r];
    if rd.Reading? {
      PassedBefore(states[j], rd.x, k);
    }
  }

  // ---------- how many steps an insertion takes ----------

  /** The number of accesses that the writer makes in steps i, ..., j - 1. */
  ghost function WriterSteps(steps: seq<Step>, i: nat, j: nat): nat
    requires i <= j <= |steps|
    decreases j
  {
    if i == j then 0
    else WriterSteps(steps, i, j - 1) + if steps[j - 1].WriterMove? || steps[j - 1].Allocate? then 1 else 0
  }

  /** A node with key k and this height is linked on every level it has. */
  ghost predicate Placed(s: State, k: Key, height: nat) {
    exists n :: 0 < n < |s.nodes| && s.nodes[n].key == k && |s.nodes[n].next| == height
                && forall l :: 0 <= l < height ==> Linked(s, l, n)
  }

  ghost function Raised(top: nat, height: nat): nat {
    if height > top then height else top
  }

  /** Where an insertion of k stands after n steps, begun when max_height_ was top. */
  ghost predicate Inserting(s: State, k: Key, height: nat, top: nat, n: nat) {
    var most := MAX_HEIGHT + |NodesBefore(s, k)|;
    match s.writer
    case Idle => false
    case Searching(key, h, _, x, level) =>
      && key == k && h == height && s.maxHeight == top
      && 0 <= x < |s.nodes| && 0 <= level && Before(s, x, k) && n + level < MAX_HEIGHT + |Passed(s, x)|
    case Comparing(key, h, _, _) => key == k && h == height && s.maxHeight == top && n <= most
    case Filling(key, h, _) => key == k && h == height > s.maxHeight == top && n <= most + 1
    case Raising(key, h, _) => key == k && h == height > s.maxHeight == top && n <= most + 2
    case Allocating(key, h, _) => key == k && h == height && s.maxHeight == Raised(top, height) && n <= most + 3
    case LoadNext(key, h, _, _, i) =>
      key == k && h == height && s.maxHeight == Raised(top, height) && n <= most + 4 + 3 * i
    case StoreOwn(key, h, _, _, i, _) =>
      key == k && h == height && s.maxHeight == Raised(top, height) && n <= most + 5 + 3 * i
    case SetNext(key, h, _, _, i, _) =>
      key == k && h == height && s.maxHeight == Raised(top, height) && n <= most + 6 + 3 * i
    case Inserted(key) =>
      key == k && Placed(s, k, height) && s.maxHeight == Raised(top, height) && n <= most + 4 + 3 * height
  }

  lemma BeforeGrows(s: State, t: State, k: Key)
    requires SameNodes(s, t)
    ensures |NodesBefore(s, k)| <= |NodesBefore(t, k)|
  {
    Smaller(NodesBefore(s, k), NodesBefore(t, k));
  }

  lemma PassedGrows(s: State, t: State, x: int)
    requires SameNodes(s, t) && 0 <= x < |s.nodes|
    ensures |Passed(s, x)| <= |Passed(t, x)|
  {
    Smaller(Passed(s, x), Passed(t, x));
  }

  /** One load of the search: a step on, a step down, or done. */
  lemma SearchWithinBudget(s: State, top: nat, n: nat)
    requires Inv(s) && s.writer.Searching? && Inserting(s, s.writer.key, s.writer.height, top, n)
    ensures Inserting(MoveWriter(s), s.writer.key, s.writer.height, top, n + 1)
  {
    var Searching(k, height, prev, x, level) := s.writer;
    var t := MoveWriter(s);
    var next := SearchStep(s, level, x, k);
    hide Inv, Linked, SearchOk, Precedes, NodesBefore;
    BeforeGrows(s, t, k);
    if KeyIsAfterNode(s.nodes, k, next) {
      assert next in Passed(s, next) && next !in Passed(s, x);
      Smaller(Passed(s, x), Passed(s, next));
      PassedGrows(s, t, next);
    } else {
      PassedBefore(s, x, k);
      PassedGrows(s, t, x);
    }
  }

  lemma PreparingWithinBudget(s: State, k: Key, height: nat, top: nat, n: nat)
    requires Inv(s) && (s.writer.Comparing? || s.writer.Filling? || s.writer.Raising?)
    requires Inserting(s, k, height, top, n) && |NodesBefore(s, k)| <= |NodesBefore(MoveWriter(s), k)|
    ensures Inserting(MoveWriter(s), k, height, top, n + 1)
  {
    hide NodesOk, LevelsOk, ReadersOk, PrevOk, NodesBefore, NewKey, Contains, Placed;
  }

  lemma LinkingWithinBudget(s: State, k: Key, height: nat, top: nat, n: nat)
    requires Inv(s) && Linking(s.writer)
    requires Inserting(s, k, height, top, n) && |NodesBefore(s, k)| <= |NodesBefore(MoveWriter(s), k)|
    ensures Inserting(MoveWriter(s), k, height, top, n + 1)
  {
    hide NodesOk, LevelsOk, ReadersOk, PrevOk, NodesBefore, NewKey, Contains, Placed;
    if s.writer.SetNext? && s.writer.i + 1 == height {
      LastLinkPlaces(s);
    }
  }

  /** The other accesses, each of which leads on. */
  lemma MoveWithinBudget(s: State, k: Key, height: nat, top: nat, n: nat)
    requires Inv(s) && Enabled(s, WriterMove) && !s.writer.Searching? && Inserting(s, k, height, top, n)
    ensures Inserting(MoveWriter(s), k, height, top, n + 1)
  {
    hide Inv, Inserting, SameNodes, NodesBefore, MoveWriter, Contains;
    StepKeepsNodes(s, WriterMove);
    BeforeGrows(s, MoveWriter(s), k);
    if Linking(s.writer) {
      LinkingWithinBudget(s, k, height, top, n);
    } else {
      PreparingWithinBudget(s, k, height, top, n);
    }
  }

  lemma LastLinkPlaces(s: State)
    requires Inv(s) && s.writer.SetNext? && s.writer.i + 1 == s.writer.height
    ensures Placed(MoveWriter(s), s.writer.key, s.writer.height)
  {
    var t, n := MoveWriter(s), s.writer.node;
    assert 0 < n < |t.nodes| && t.nodes[n].key == s.writer.key && |t.nodes[n].next| == s.writer.height;
    assert forall l :: 0 <= l < s.writer.height ==> Linked(t, l, n);
  }

  lemma AllocateWithinBudget(s: State, junk: seq<int>, k: Key, height: nat, top: nat, n: nat)
    requires Inv(s) && Enabled(s, Allocate(junk)) && Inserting(s, k, height, top, n)
    ensures Inserting(Apply(s, Allocate(junk)), k, height, top, n + 1)
  {
    StepKeepsNodes(s, Allocate(junk));
    BeforeGrows(s, Apply(s, Allocate(junk)), k);
  }

  /** Readers do not disturb an insertion. */
  lemma ReaderLeavesInsertion(s: State, t: State, k: Key, height: nat, top: nat, n: nat)
    requires t.nodes == s.nodes && t.maxHeight == s.maxHeight && t.writer == s.writer
    requires Inserting(s, k, height, top, n)
    ensures Inserting(t, k, height, top, n)
  {
    assert NodesBefore(t, k) == NodesBefore(s, k);
    if s.writer.Searching? {
      assert Passed(t, s.writer.x) == Passed(s, s.writer.x);
    }
    if s.writer.Inserted? {
      var m :| 0 < m < |s.nodes| && s.nodes[m].key == k && |s.nodes[m].next| == height
               && forall l :: 0 <= l < height ==> Linked(s, l, m);
      assert forall l :: 0 <= l < height ==> Linked(t, l, m);
    }
  }

  lemma OneStepOfInsertion(s: State, step: Step, k: Key, height: nat, top: nat, n: nat)
    requires Inv(s) && Enabled(s, step) && step != ReturnInsert && Inserting(s, k, height, top, n)
    ensures Inserting(Apply(s, step), k, height, top, if step.WriterMove? || step.Allocate? then n + 1 else n)
  {
    hide Inv, NodesBefore, Passed, Placed, MoveWriter, MoveReader;
    match step
    case WriterMove =>
      if s.writer.Searching? {
        SearchWithinBudget(s, top, n);
      } else {
        MoveWithinBudget(s, k, height, top, n);
      }
    case Allocate(junk) => AllocateWithinBudget(s, junk, k, height, top, n);
    case CallContains(_, _) => ReaderLeavesInsertion(s, Apply(s, step), k, height, top, n);
    case ReaderMove(_) => ReaderLeavesInsertion(s, Apply(s, step), k, height, top, n);
    case ReturnContains(_) => ReaderLeavesInsertion(s, Apply(s, step), k, height, top, n);
    case CallInsert(_, _, _) =>
    case ReturnInsert =>
  }

  lemma CallStartsInsertion(s: State, k: Key, height: nat, junk: seq<int>)
    requires Inv(s) && Enabled(s, CallInsert(k, height, junk))
    ensures Inserting(Apply(s, CallInsert(k, height, junk)), k, height, s.maxHeight, 0)
  {
    hide LevelsOk, ReadersOk, Contains;
  }

  lemma {:induction false} RunOfInsertion(states: seq<State>, steps: seq<Step>, i: nat, j: nat, k: Key, height: nat,
                                          junk: seq<int>)
    requires IsRun(states, steps) && i < j <= |steps| && steps[i] == CallInsert(k, height, junk)
    requires forall m :: i < m < j ==> steps[m] != ReturnInsert
    ensures Inserting(states[j], k, height, states[i].maxHeight, WriterSteps(steps, i + 1, j))
    decreases j
  {
    hide Inv, Inserting, MoveReader, MoveWriter;
    var s, step := states[j - 1], steps[j - 1];
    RunKeepsInv(states, steps, j - 1);
    assert Next(s, step, states[j]);
    if j == i + 1 {
      CallStartsInsertion(s, k, height, junk);
    } else {
      RunOfInsertion(states, steps, i, j - 1, k, height, junk);
      OneStepOfInsertion(s, step, k, height, states[i].maxHeight, WriterSteps(steps, i + 1, j - 1));
    }
  }

  /** An insertion takes at most one load for each level and each smaller key, four steps, and three
      more for each level of the new node, whatever the readers do, and the writer can always take
      the next one. When it is done, the key has a node of the height asked for, linked on all its
      levels, and max_height_ is raised to that height if it was lower. */
  lemma InsertBounded(states: seq<State>, steps: seq<Step>, i: nat, j: nat, k: Key, height: nat, junk: seq<int>)
    requires IsRun(states, steps) && i < j <= |steps| && steps[i] == CallInsert(k, height, junk)
    requires forall m :: i < m < j ==> steps[m] != ReturnInsert
    ensures var s := states[j];
            && WriterSteps(steps, i + 1, j) <= 12 + |NodesBefore(s, k)| + 4 + 3 * height
            && !s.writer.Idle? && s.writer.key == k
            && if s.writer.Inserted? then
                 Placed(s, k, height) && s.maxHeight == Raised(states[i].maxHeight, height) && Enabled(s, ReturnInsert)
               else
                 Enabled(s, WriterMove) || exists junk :: Enabled(s, Allocate(junk))
  {
    hide Inv, Inserting, Placed, NodesBefore, Contains;
    RunOfInsertion(states, steps, i, j, k, height, junk);
    RunKeepsInv(states, steps, j);
    InsertionGoesOn(states[j], k, height, states[i].maxHeight, WriterSteps(steps, i + 1, j));
  }

  lemma LinkingLevel(s: State)
    requires Inv(s) && Linking(s.writer)
    ensures s.writer.i < s.writer.height
  {
  }

  lemma InsertionGoesOn(s: State, k: Key, height: nat, top: nat, n: nat)
    requires Inv(s) && Inserting(s, k, height, top, n)
    ensures n <= MAX_HEIGHT + |NodesBefore(s, k)| + 4 + 3 * height
    ensures !s.writer.Idle? && s.writer.key == k
    ensures if s.writer.Inserted? then
              Placed(s, k, height) && s.maxHeight == Raised(top, height) && Enabled(s, ReturnInsert)
            else
              Enabled(s, WriterMove) || exists junk :: Enabled(s, Allocate(junk))
  {
    hide Inv, Placed, NodesBefore, Passed, Contains;
    if Linking(s.writer) {
      LinkingLevel(s);
    }
    if s.writer.Searching? {
      PassedBefore(s, s.writer.x, k);
    } else if s.writer.Allocating? {
      assert Enabled(s, Allocate(seq(height, _ => NULL)));
    }
  }

  /** Nobody is refused: a reader may call whenever it has no call under way, with any key, and the
      writer likewise, with any height and any key that is not in the set. */
  lemma EveryCallIsAccepted(s: State, r: ReaderId, k: Key, height: nat, junk: seq<int>)
    requires Inv(s) && |junk| == 12
    ensures r !in s.readers || AbsReader(s.readers[r]) == NoCall ==> Enabled(s, CallContains(r, k))
    ensures AbsWriter(s.writer) == NoCall && 1 <= height <= 12 && k !in Abs(s).elems ==>
              Enabled(s, CallInsert(k, height, junk))
  {
    hide Contains, Inv;
  }
}
