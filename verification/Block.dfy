/** Sorted table blocks and their iterator (db/Block.h, db/Block.cpp).

    A block is a run of prefix-compressed entries followed by an array of restart offsets and
    its length, all fixed32. Only the offsets of restart points are trusted to start an entry
    that stores its whole key. */
module Block {
  import opened Arithmetic
  import opened Coding
  import opened Comparator
  import opened Wrappers

  // ---------- the block ----------

  /** The count stored in the last four bytes. */
  function NumRestarts(data: Bytes): nat
    requires |data| >= 4
  {
    DecodeFixed32(data, |data| - 4)
  }

  /** 32-bit: the count plus one, and the result. */
  function RestartOffset(size: nat, n: nat): (r: nat)
    requires 4 * (1 + n) <= size && n < TWO_32
    ensures size <= TWO_32 ==> r == size - 4 * (1 + n)
  {
    var count := (1 + n) % TWO_32;
    (size - 4 * count) % TWO_32
  }

  class Block {
    const data: Bytes
    var size: nat
    var restartOffset: nat

    /** size 0 marks a malformed block. restartOffset is a 32-bit field and the product is taken
        of a 32-bit sum, so the offset is exact for contents of at most 4 GiB. */
    constructor (contents: Bytes)
      ensures data == contents
      ensures size == 0 || size == |contents|
      ensures size != 0 <==> |contents| >= 4 && 4 * (1 + NumRestarts(contents)) <= |contents|
      ensures size != 0 && |contents| <= TWO_32 ==>
        restartOffset + 4 * NumRestarts(contents) + 4 == |contents| && restartOffset < TWO_32
    {
      data := contents;
      size := |contents|;
      restartOffset := 0;
      new;
      hide DecodeFixed32, LittleEndian;
      if size < 4 {
        size := 0;
      } else {
        DecodeFixed32IsLittleEndian(data, |data| - 4);
        var maxNumRestarts := (size - 4) / 4;
        if NumRestarts(data) > maxNumRestarts {
          size := 0;
        } else {
          restartOffset := RestartOffset(size, NumRestarts(data));
        }
      }
    }
  }

  /** What an iterator is given: entries in data[..restarts], then numRestarts offsets. */
  datatype Layout = Layout(data: Bytes, restarts: nat, numRestarts: nat) {
    ghost predicate Valid() {
      numRestarts > 0 && restarts + 4 * numRestarts <= |data| && restarts < TWO_32 && numRestarts < TWO_32 / 2
    }

    function RestartPoint(i: nat): nat
      requires Valid() && i < numRestarts
    {
      DecodeFixed32(data, restarts + 4 * i)
    }
  }

  // ---------- entry headers ----------

  /** The three lengths of an entry and where its key bytes start. */
  datatype Header = Header(shared: nat, nonShared: nat, valueLength: nat, next: nat)

  function KeyEnd(h: Header): nat {
    h.next + h.nonShared
  }

  function EntryEnd(h: Header): nat {
    h.next + h.nonShared + h.valueLength
  }

  function ThreeVarints(data: Bytes, p: nat, limit: nat): Option<Header>
    requires limit <= |data|
  {
    match Varint32(data, p, limit)
    case None => None
    case Some(shared) =>
      match Varint32(data, shared.next, limit)
      case None => None
      case Some(nonShared) =>
        match Varint32(data, nonShared.next, limit)
        case None => None
        case Some(valueLength) => Some(Header(shared.value, nonShared.value, valueLength.value, valueLength.next))
  }

  /** The header at p: three varints, followed by as many bytes as the 32-bit sum of the two
      lengths says. At least three bytes must be there. */
  function HeaderAt(data: Bytes, p: nat, limit: nat): Option<Header>
    requires limit <= |data|
  {
    if limit - p < 3 then None
    else
      match ThreeVarints(data, p, limit)
      case None => None
      case Some(h) =>
        if (limit - h.next) % TWO_32 < (h.nonShared + h.valueLength) % TWO_32 then None else Some(h)
  }

  lemma VarintNext(data: Bytes, p: nat, limit: nat)
    requires limit <= |data| && Varint32(data, p, limit).Some?
    ensures var v := Varint32(data, p, limit).value; p < v.next <= limit && v.value < TWO_32
  {
    WordSize();
  }

  lemma HeaderNext(data: Bytes, p: nat, limit: nat)
    requires limit <= |data| && ThreeVarints(data, p, limit).Some?
    ensures var h := ThreeVarints(data, p, limit).value;
            p + 3 <= h.next <= limit && h.shared < TWO_32 && h.nonShared < TWO_32 && h.valueLength < TWO_32
  {
    hide Varint32;
    VarintNext(data, p, limit);
    var a := Varint32(data, p, limit).value;
    VarintNext(data, a.next, limit);
    var b := Varint32(data, a.next, limit).value;
    VarintNext(data, b.next, limit);
  }

  /** An accepted entry lies inside the block exactly when its two lengths do not wrap around
      when added in 32 bits. Its end, cut to 32 bits, lies inside in any case. */
  lemma AcceptedFits(data: Bytes, p: nat, limit: nat)
    requires limit <= |data| && limit < TWO_32 && HeaderAt(data, p, limit).Some?
    ensures var h := HeaderAt(data, p, limit).value;
            && p + 3 <= h.next <= EntryEnd(h) % TWO_32 <= limit
            && (EntryEnd(h) <= limit <==> h.nonShared + h.valueLength < TWO_32)
  {
    hide ThreeVarints;
    HeaderNext(data, p, limit);
  }

  lemma OneByteVarint(data: Bytes, p: nat, limit: nat)
    requires p < limit <= |data| && data[p] < 128
    ensures Varint32(data, p, limit) == Some(Varint(data[p], p + 1))
  {
    VarintLengthUnique(data, p, limit, 5, 1);
    OneGroup(data, p);
    WordSize();
  }

  lemma OrBelow128(a: nat, b: nat, c: nat)
    requires a < 256 && b < 256 && c < 256
    ensures BitOr(BitOr(a, b), c) < 128 <==> a < 128 && b < 128 && c < 128
  {
    hide BitOr;
    assert Pow2(7) == 128;
    BitOrAtLeast(a, b);
    BitOrAtLeast(BitOr(a, b), c);
    if a < 128 && b < 128 && c < 128 {
      BitOrBelow(a, b, 7);
      BitOrBelow(BitOr(a, b), c, 7);
    }
  }

  /** Decodes a header; three one-byte lengths take the fast path. */
  method DecodeEntry(data: Bytes, p: nat, limit: nat) returns (r: Option<Header>)
    requires limit <= |data|
    ensures r == HeaderAt(data, p, limit)
  {
    hide Varint32, BitOr;
    if limit - p < 3 {
      return None;
    }
    var shared, nonShared, valueLength, q: nat := data[p], data[p + 1], data[p + 2], p;
    OrBelow128(shared, nonShared, valueLength);
    if BitOr(BitOr(shared, nonShared), valueLength) < 128 {
      OneByteVarint(data, p, limit);
      OneByteVarint(data, p + 1, limit);
      OneByteVarint(data, p + 2, limit);
      q := q + 3;
    } else {
      var v := GetVarint32Ptr(data, q, limit);
      if v.None? { return None; }
      shared, q := v.value.value, v.value.next;
      v := GetVarint32Ptr(data, q, limit);
      if v.None? { return None; }
      nonShared, q := v.value.value, v.value.next;
      v := GetVarint32Ptr(data, q, limit);
      if v.None? { return None; }
      valueLength, q := v.value.value, v.value.next;
    }
    HeaderNext(data, p, limit);
    if (limit - q) % TWO_32 < (nonShared + valueLength) % TWO_32 {
      return None;
    }
    return Some(Header(shared, nonShared, valueLength, q));
  }

  // ---------- the iterator, as a specification ----------

  /** value_: a stretch of the block, or the empty string that Clear leaves, which is elsewhere. */
  datatype Slice = Span(offset: nat, size: nat) | Cleared

  function SliceEnd(v: Slice): nat
    requires v.Span?
  {
    v.offset + v.size
  }

  /** Where the next entry starts: a 32-bit result. */
  function NextEntryOffset(v: Slice): nat
    requires v.Span?
  {
    SliceEnd(v) % TWO_32
  }

  /** status_, and OutOfBounds where the source would read key bytes past the end of the block: the
      model stops there. */
  datatype Status = Ok | Corruption | OutOfBounds

  datatype Cursor = Cursor(current: nat, restartIndex: nat, key: Bytes, value: Slice, status: Status)

  function Corrupted(b: Layout, status: Status): Cursor {
    Cursor(b.restarts, b.numRestarts, [], Cleared, status)
  }

  function SeekToRestart(b: Layout, c: Cursor, i: nat): Cursor
    requires b.Valid() && i < b.numRestarts
  {
    c.(key := [], restartIndex := i, value := Span(b.RestartPoint(i), 0))
  }

  /** The last restart index whose successor, if any, does not lie before current. */
  function AdvanceRestart(b: Layout, i: nat, current: nat): nat
    requires b.Valid()
    decreases b.numRestarts - i
  {
    if i + 1 < b.numRestarts && b.RestartPoint(i + 1) < current then AdvanceRestart(b, i + 1, current) else i
  }

  /** ParseNextKey: the new cursor and the result. */
  function Parse(b: Layout, c: Cursor): (Cursor, bool)
    requires b.Valid() && c.value.Span?
  {
    var current := NextEntryOffset(c.value);
    if current >= b.restarts then
      (c.(current := b.restarts, restartIndex := b.numRestarts), false)
    else
      match HeaderAt(b.data, current, b.restarts)
      case None => (Corrupted(b, Corruption), false)
      case Some(h) =>
        if |c.key| < h.shared then (Corrupted(b, Corruption), false)
        else if KeyEnd(h) > |b.data| then (Corrupted(b, OutOfBounds), false)
        else (Cursor(current, AdvanceRestart(b, c.restartIndex, current), c.key[..h.shared] + b.data[h.next..KeyEnd(h)],
                     Span(KeyEnd(h), h.valueLength), c.status), true)
  }

  // ---------- arbitrary bytes ----------

  /** A header at p whose two lengths wrap around when added in 32 bits. */
  ghost predicate Wraps(b: Layout, p: nat)
    requires b.Valid()
  {
    match HeaderAt(b.data, p, b.restarts)
    case None => false
    case Some(h) => h.nonShared + h.valueLength >= TWO_32
  }

  /** The next parse stops with the given status: at a header that is corrupt, or at one that is
      accepted and has key bytes past the end of the block. */
  ghost predicate ParseBad(b: Layout, c: Cursor, status: Status)
    requires b.Valid() && c.value.Span?
  {
    var p := NextEntryOffset(c.value);
    p < b.restarts &&
    match HeaderAt(b.data, p, b.restarts)
    case None => status == Corruption
    case Some(h) =>
      if h.shared > |c.key| then status == Corruption else KeyEnd(h) > |b.data| && status == OutOfBounds
  }

  /** Only lengths that wrap lead outside. */
  lemma OutsideWraps(b: Layout, c: Cursor)
    requires b.Valid() && c.value.Span? && ParseBad(b, c, OutOfBounds)
    ensures Wraps(b, NextEntryOffset(c.value))
  {
    hide HeaderAt;
    AcceptedFits(b.data, NextEntryOffset(c.value), b.restarts);
  }

  /** After a successful parse the next one starts strictly later, still inside the entries, even
      when the value does not lie inside. A parse stops with an error exactly when ParseBad says. */
  lemma ParseAdvances(b: Layout, c: Cursor)
    requires b.Valid() && c.value.Span? && c.status != OutOfBounds
    ensures var (d, more) := Parse(b, c);
            if more then
              && d.value.Span? && d.status == c.status && d.current == NextEntryOffset(c.value) < b.restarts
              && d.current < NextEntryOffset(d.value) <= b.restarts
              && (SliceEnd(d.value) <= b.restarts <==> !Wraps(b, d.current))
            else
              && d.current == b.restarts && d.restartIndex == b.numRestarts
              && if d.status == c.status then d.key == c.key || d.key == [] else d.key == [] && d.value.Cleared?
    ensures forall status :: status != Ok && status != c.status ==>
              (Parse(b, c).0.status == status <==> ParseBad(b, c, status))
  {
    hide HeaderAt, AdvanceRestart;
    var current := NextEntryOffset(c.value);
    if current < b.restarts && HeaderAt(b.data, current, b.restarts).Some? {
      AcceptedFits(b.data, current, b.restarts);
    }
  }

  // ---------- well-formed blocks ----------

  datatype Entry = Entry(key: Bytes, value: Bytes)

  /** What a well-formed block holds: entry i starts at offs[i] and shares shared[i] key bytes
      with its predecessor; points are the entries at the restart points. */
  datatype Contents = Contents(entries: seq<Entry>, offs: seq<nat>, shared: seq<nat>, points: seq<nat>)

  ghost predicate Transitive(order: Order) {
    forall x, y, z :: order(x, y) < 0 && order(y, z) < 0 ==> order(x, z) < 0
  }

  ghost predicate Sorted(order: Order, entries: seq<Entry>) {
    forall i, j :: 0 <= i < j < |entries| ==> order(entries[i].key, entries[j].key) < 0
  }

  ghost predicate EntryStored(b: Layout, c: Contents, i: nat)
    requires b.Valid() && i < |c.entries| == |c.shared| && |c.offs| == |c.entries| + 1
  {
    var e, s := c.entries[i], c.shared[i];
    && s <= |e.key|
    && (if i == 0 then s == 0 else s <= |c.entries[i - 1].key| && c.entries[i - 1].key[..s] == e.key[..s])
    && c.offs[i] < c.offs[i + 1] <= b.restarts
    && HeaderAt(b.data, c.offs[i], b.restarts).Some?
    && var h := HeaderAt(b.data, c.offs[i], b.restarts).value;
    && h.shared == s && h.nonShared == |e.key| - s && h.valueLength == |e.value| && EntryEnd(h) == c.offs[i + 1]
    && b.data[h.next..KeyEnd(h)] == e.key[s..] && b.data[KeyEnd(h)..EntryEnd(h)] == e.value
  }

  ghost predicate PointsOk(b: Layout, c: Contents)
    requires b.Valid() && |c.entries| == |c.shared| && |c.offs| == |c.entries| + 1
  {
    && |c.points| == b.numRestarts && c.points[0] == 0
    && (forall i, j :: 0 <= i < j < |c.points| ==> c.points[i] < c.points[j])
    && (forall i :: 0 < i < |c.points| ==> c.points[i] < |c.entries|)
    && (forall i :: 0 <= i < |c.points| ==> c.points[i] <= |c.entries| && b.RestartPoint(i) == c.offs[c.points[i]])
    && (forall i :: 0 <= i < |c.points| && c.points[i] < |c.entries| ==> c.shared[c.points[i]] == 0)
  }

  ghost predicate WellFormed(b: Layout, c: Contents) {
    && b.Valid() && |c.shared| == |c.entries| && |c.offs| == |c.entries| + 1
    && c.offs[0] == 0 && c.offs[|c.entries|] == b.restarts
    && (forall i :: 0 <= i < |c.entries| ==> EntryStored(b, c, i))
    && PointsOk(b, c)
  }

  /** The cursor will parse entry k next: it stands behind entry k - 1, or at a restart point. */
  ghost predicate Ready(b: Layout, c: Contents, cur: Cursor, k: nat)
    requires WellFormed(b, c)
  {
    && k <= |c.entries| && cur.status != OutOfBounds
    && cur.value.Span? && SliceEnd(cur.value) == c.offs[k]
    && (k < |c.entries| ==>
          var next, s := c.entries[k].key, c.shared[k];
          s <= |cur.key| && s <= |next| && cur.key[..s] == next[..s])
    && cur.restartIndex < b.numRestarts && c.points[cur.restartIndex] <= k
  }

  /** The cursor is on entry k, with its whole key and value; restartIndex is the restart region
      current falls in. */
  ghost predicate On(b: Layout, c: Contents, cur: Cursor, k: nat)
    requires WellFormed(b, c)
  {
    && k < |c.entries| && cur.current == c.offs[k] && cur.key == c.entries[k].key
    && cur.value.Span? && SliceEnd(cur.value) == c.offs[k + 1] <= |b.data|
    && b.data[cur.value.offset..SliceEnd(cur.value)] == c.entries[k].value
    && cur.status != OutOfBounds
    && cur.restartIndex < b.numRestarts && b.RestartPoint(cur.restartIndex) <= cur.current
    && (cur.restartIndex + 1 < b.numRestarts ==> cur.current <= b.RestartPoint(cur.restartIndex + 1))
  }

  lemma {:induction false} OffsetsAscend(b: Layout, c: Contents, i: nat, j: nat)
    requires WellFormed(b, c) && i < j <= |c.entries|
    ensures c.offs[i] < c.offs[j]
  {
    hide HeaderAt;
    assert EntryStored(b, c, j - 1);
    if i < j - 1 {
      OffsetsAscend(b, c, i, j - 1);
    }
  }

  lemma {:induction false} AdvanceRestartOk(b: Layout, c: Contents, i: nat, k: nat)
    requires WellFormed(b, c) && k < |c.entries| && i < b.numRestarts && c.points[i] <= k
    ensures var j := AdvanceRestart(b, i, c.offs[k]);
            && j < b.numRestarts && c.points[j] <= k
            && (j + 1 < b.numRestarts ==> c.offs[k] <= b.RestartPoint(j + 1))
    decreases b.numRestarts - i
  {
    hide EntryStored, DecodeFixed32;
    if i + 1 < b.numRestarts && b.RestartPoint(i + 1) < c.offs[k] {
      if c.points[i + 1] > k {
        OffsetsAscend(b, c, k, c.points[i + 1]);
      }
      AdvanceRestartOk(b, c, i + 1, k);
    }
  }

  lemma Sizes(b: Layout, c: Contents)
    requires WellFormed(b, c)
    ensures b.Valid() && |c.shared| == |c.entries| && |c.offs| == |c.entries| + 1 && |c.points| == b.numRestarts
    ensures c.offs[|c.entries|] == b.restarts < TWO_32 && b.restarts <= |b.data|
    ensures b.numRestarts > 0 && c.points[0] == 0
  {
    hide EntryStored, DecodeFixed32;
  }

  lemma Stored(b: Layout, c: Contents, k: nat)
    requires WellFormed(b, c) && k < |c.entries|
    ensures b.Valid() && |c.shared| == |c.entries| && |c.offs| == |c.entries| + 1 && EntryStored(b, c, k)
  {
    hide EntryStored, PointsOk;
  }

  /** From Ready(k), the parse yields the whole key of entry k and the place of its value. */
  lemma ParseStored(b: Layout, c: Contents, cur: Cursor, k: nat)
    requires WellFormed(b, c) && Ready(b, c, cur, k) && k < |c.entries|
    ensures var (next, more) := Parse(b, cur);
            && more && next.current == c.offs[k] && next.key == c.entries[k].key && next.status == cur.status
            && next.restartIndex == AdvanceRestart(b, cur.restartIndex, c.offs[k])
            && next.value.Span? && SliceEnd(next.value) == c.offs[k + 1] <= |b.data|
            && b.data[next.value.offset..SliceEnd(next.value)] == c.entries[k].value
  {
    hide WellFormed, HeaderAt, AdvanceRestart, DecodeFixed32;
    Sizes(b, c);
    Stored(b, c, k);
    var h := HeaderAt(b.data, c.offs[k], b.restarts).value;
    Rejoin(cur.key, b.data[h.next..KeyEnd(h)], c.entries[k].key, h.shared);
  }

  lemma Rejoin(previous: Bytes, rest: Bytes, key: Bytes, s: nat)
    requires s <= |previous| && s <= |key| && previous[..s] == key[..s] && rest == key[s..]
    ensures previous[..s] + rest == key
  {
  }

  /** Parsing undoes prefix compression: from Ready(k) to entry k, ready for entry k + 1. */
  lemma ParseEntry(b: Layout, c: Contents, cur: Cursor, k: nat)
    requires WellFormed(b, c) && Ready(b, c, cur, k)
    ensures var (next, more) := Parse(b, cur);
            if k < |c.entries| then more && On(b, c, next, k) && Ready(b, c, next, k + 1)
            else !more && next.current == b.restarts && next.restartIndex == b.numRestarts && next.status != OutOfBounds
  {
    hide WellFormed, EntryStored, Parse, HeaderAt, AdvanceRestart, DecodeFixed32;
    Sizes(b, c);
    if k < |c.entries| {
      ParseStored(b, c, cur, k);
      AdvanceRestartOk(b, c, cur.restartIndex, k);
      PointBefore(b, c, Parse(b, cur).0.restartIndex, k);
      if k + 1 < |c.entries| {
        SharedPrefix(b, c, k + 1);
      }
    } else {
      ParsePastEnd(b, cur);
    }
  }

  lemma SharedPrefix(b: Layout, c: Contents, k: nat)
    requires WellFormed(b, c) && 0 < k < |c.entries|
    ensures |c.shared| == |c.entries|
    ensures var key, previous, s := c.entries[k].key, c.entries[k - 1].key, c.shared[k];
            s <= |key| && s <= |previous| && previous[..s] == key[..s]
  {
    hide WellFormed, HeaderAt;
    Stored(b, c, k);
  }

  lemma ParsePastEnd(b: Layout, cur: Cursor)
    requires b.Valid() && cur.value.Span? && SliceEnd(cur.value) == b.restarts
    ensures Parse(b, cur) == (cur.(current := b.restarts, restartIndex := b.numRestarts), false)
  {
    hide HeaderAt, AdvanceRestart;
  }

  lemma PointBefore(b: Layout, c: Contents, j: nat, k: nat)
    requires WellFormed(b, c) && j < b.numRestarts && c.points[j] <= k < |c.entries|
    ensures b.RestartPoint(j) <= c.offs[k]
  {
    hide EntryStored, DecodeFixed32;
    if c.points[j] < k {
      OffsetsAscend(b, c, c.points[j], k);
    }
  }

  lemma RestartReady(b: Layout, c: Contents, cur: Cursor, i: nat)
    requires WellFormed(b, c) && i < b.numRestarts && cur.status != OutOfBounds
    ensures Ready(b, c, SeekToRestart(b, cur, i), c.points[i])
  {
    hide DecodeFixed32;
  }

  /** Restart point i followed by n parses, n at least 1, is entry points[i] + n - 1. */
  lemma {:induction false} RestartThenParse(b: Layout, c: Contents, cur: Cursor, i: nat, n: nat)
    requires WellFormed(b, c) && i < b.numRestarts && cur.status != OutOfBounds
    requires c.points[i] + n <= |c.entries|
    ensures var r := ParseTimes(b, SeekToRestart(b, cur, i), n);
            r.Some? && Ready(b, c, r.value, c.points[i] + n) && (n > 0 ==> On(b, c, r.value, c.points[i] + n - 1))
  {
    hide WellFormed, Ready, Parse, On, DecodeFixed32;
    Sizes(b, c);
    if n == 0 {
      RestartReady(b, c, cur, i);
    } else {
      RestartThenParse(b, c, cur, i, n - 1);
      ParseEntry(b, c, ParseTimes(b, SeekToRestart(b, cur, i), n - 1).value, c.points[i] + n - 1);
    }
  }

  // ---------- searching ----------

  /** Linear scan: the first entry from i on whose key is at or after target. */
  function ScanFrom(order: Order, entries: seq<Entry>, target: Bytes, i: nat): (k: nat)
    requires i <= |entries|
    ensures i <= k <= |entries| && (k < |entries| ==> order(entries[k].key, target) >= 0)
    ensures forall j :: i <= j < k ==> order(entries[j].key, target) < 0
    decreases |entries| - i
  {
    if i == |entries| || order(entries[i].key, target) >= 0 then i else ScanFrom(order, entries, target, i + 1)
  }

  function LinearScan(order: Order, entries: seq<Entry>, target: Bytes): nat {
    ScanFrom(order, entries, target, 0)
  }

  /** Everything before entry k is before the target, so the scan may start at k. */
  lemma ScanSkips(order: Order, entries: seq<Entry>, target: Bytes, k: nat)
    requires k <= |entries| && forall j :: 0 <= j < k ==> order(entries[j].key, target) < 0
    ensures LinearScan(order, entries, target) == ScanFrom(order, entries, target, k)
  {
  }

  lemma BeforeRestart(order: Order, b: Layout, c: Contents, target: Bytes, k: nat)
    requires Transitive(order) && Sorted(order, c.entries)
    requires k < |c.entries| && order(c.entries[k].key, target) < 0
    ensures forall j :: 0 <= j <= k ==> order(c.entries[j].key, target) < 0
  {
  }

  datatype Probe = Compared(result: int) | Bad(status: Status)

  /** The bytes of a key that lie inside the block. */
  function Readable(b: Layout, h: Header): Bytes {
    if h.next > |b.data| then [] else b.data[h.next..if KeyEnd(h) <= |b.data| then KeyEnd(h) else |b.data|]
  }

  /** What the binary search finds at restart point i. The key is compared where it stands. */
  function ProbeAt(b: Layout, cmp: SliceComparator, target: Bytes, i: nat): Probe
    requires b.Valid() && i < b.numRestarts
  {
    match HeaderAt(b.data, b.RestartPoint(i), b.restarts)
    case None => Bad(Corruption)
    case Some(h) =>
      if h.shared != 0 then Bad(Corruption)
      else
        match cmp.peek(Readable(b, h), h.nonShared, target)
        case None => Bad(OutOfBounds)
        case Some(result) => Compared(result)
  }

  datatype Narrowed = At(left: nat) | Failed(status: Status)

  /** The binary search over restart points. */
  function Narrow(b: Layout, cmp: SliceComparator, target: Bytes, left: nat, right: nat): (r: Narrowed)
    requires b.Valid() && left <= right < b.numRestarts
    ensures r.At? ==> left <= r.left <= right
    decreases right - left
  {
    if left == right then At(left)
    else
      var mid := (left + right + 1) / 2;
      match ProbeAt(b, cmp, target, mid)
      case Bad(status) => Failed(status)
      case Compared(result) =>
        if result < 0 then Narrow(b, cmp, target, mid, right) else Narrow(b, cmp, target, left, mid - 1)
  }

  /** Parsing on until a key at or after target, or until parsing stops. */
  function ScanParse(b: Layout, order: Order, target: Bytes, cur: Cursor): Cursor
    requires b.Valid() && cur.value.Span? && cur.status != OutOfBounds
    decreases b.restarts - NextEntryOffset(cur.value)
  {
    ParseAdvances(b, cur);
    var (next, more) := Parse(b, cur);
    if !more || order(next.key, target) >= 0 then next else ScanParse(b, order, target, next)
  }

  function SeekCursor(b: Layout, cmp: SliceComparator, target: Bytes, cur: Cursor): Cursor
    requires b.Valid() && cur.status != OutOfBounds
  {
    match Narrow(b, cmp, target, 0, b.numRestarts - 1)
    case Failed(status) => Corrupted(b, status)
    case At(left) => ScanParse(b, cmp.order, target, SeekToRestart(b, cur, left))
  }

  /** Iter::Compare of a key that the iterator holds. */
  function CompareKey(cmp: SliceComparator, key: Bytes, target: Bytes): int {
    cmp.order(key, target)
  }

  /** Iter::Compare of a key of n bytes in the block. */
  function CompareSlice(cmp: SliceComparator, readable: Bytes, n: nat, target: Bytes): Option<int> {
    cmp.peek(readable, n, target)
  }

  /** One round of the binary search. */
  lemma NarrowStep(b: Layout, cmp: SliceComparator, target: Bytes, left: nat, right: nat)
    requires b.Valid() && left < right < b.numRestarts
    ensures var mid := (left + right + 1) / 2;
            var r := Narrow(b, cmp, target, left, right);
            match HeaderAt(b.data, b.RestartPoint(mid), b.restarts)
            case None => r == Failed(Corruption)
            case Some(h) =>
              if h.shared != 0 then r == Failed(Corruption)
              else
                match CompareSlice(cmp, Readable(b, h), h.nonShared, target)
                case None => r == Failed(OutOfBounds)
                case Some(result) =>
                  if result < 0 then r == Narrow(b, cmp, target, mid, right)
                  else r == Narrow(b, cmp, target, left, mid - 1)
  {
    hide HeaderAt, DecodeFixed32;
  }

  lemma NarrowedTo(b: Layout, cmp: SliceComparator, target: Bytes, left: nat)
    requires b.Valid() && left < b.numRestarts
    ensures Narrow(b, cmp, target, left, left) == At(left)
  {
  }

  /** One round of the linear scan. */
  lemma ScanStep(b: Layout, cmp: SliceComparator, target: Bytes, cur: Cursor)
    requires b.Valid() && cur.value.Span? && cur.status != OutOfBounds
    ensures var (next, more) := Parse(b, cur);
            if !more || CompareKey(cmp, next.key, target) >= 0 then ScanParse(b, cmp.order, target, cur) == next
            else
              && next.value.Span? && next.status == cur.status
              && NextEntryOffset(cur.value) < NextEntryOffset(next.value) <= b.restarts
              && ScanParse(b, cmp.order, target, cur) == ScanParse(b, cmp.order, target, next)
  {
    hide Parse, ParseBad;
    ParseAdvances(b, cur);
  }

  // ---------- Seek on arbitrary bytes ----------

  /** The binary search looks at restart point i. */
  ghost predicate Probes(b: Layout, cmp: SliceComparator, target: Bytes, left: nat, right: nat, i: nat)
    requires b.Valid() && left <= right < b.numRestarts
    decreases right - left
  {
    left < right &&
    var mid := (left + right + 1) / 2;
    i == mid ||
    match ProbeAt(b, cmp, target, mid)
    case Bad(_) => false
    case Compared(result) =>
      if result < 0 then Probes(b, cmp, target, mid, right, i) else Probes(b, cmp, target, left, mid - 1, i)
  }

  /** One of the restart points looked at is bad in the given way. */
  ghost predicate ProbesBad(b: Layout, cmp: SliceComparator, target: Bytes, left: nat, right: nat, status: Status)
    requires b.Valid() && left <= right < b.numRestarts
  {
    exists i: nat :: i < b.numRestarts && Probes(b, cmp, target, left, right, i)
                     && ProbeAt(b, cmp, target, i) == Bad(status)
  }

  /** The binary search fails exactly when one of the restart points it looks at is bad, and then
      in the way in which that one is. */
  lemma {:induction false} NarrowFails(b: Layout, cmp: SliceComparator, target: Bytes, left: nat, right: nat,
                                       status: Status)
    requires b.Valid() && left <= right < b.numRestarts
    ensures Narrow(b, cmp, target, left, right) == Failed(status) <==>
            ProbesBad(b, cmp, target, left, right, status)
    decreases right - left
  {
    hide ProbeAt;
    if left < right {
      var mid := (left + right + 1) / 2;
      NarrowFails(b, cmp, target, mid, right, status);
      NarrowFails(b, cmp, target, left, mid - 1, status);
    }
  }

  ghost function ProbeSet(b: Layout, cmp: SliceComparator, target: Bytes, left: nat, right: nat): set<int>
    requires b.Valid() && left <= right < b.numRestarts
  {
    set i | 0 <= i < b.numRestarts && Probes(b, cmp, target, left, right, i)
  }

  lemma OneMoreProbe(a: set<int>, b: set<int>, i: int)
    requires a <= b + {i}
    ensures |a| <= |b| + 1
  {
    var all := b + {i};
    assert |all - a| + |a| == |all| by {
      assert all == (all - a) + a;
    }
    assert |all| <= |b| + 1 by {
      if i in b {
        assert all == b;
      }
    }
  }

  /** Among at most 2^k restart points the binary search looks at no more than k. */
  lemma {:induction false} FewProbes(b: Layout, cmp: SliceComparator, target: Bytes, left: nat, right: nat, k: nat)
    requires b.Valid() && left <= right < b.numRestarts && right - left < Pow2(k)
    ensures |ProbeSet(b, cmp, target, left, right)| <= k
    decreases k
  {
    hide ProbeAt, Pow2;
    var all := ProbeSet(b, cmp, target, left, right);
    if left == right {
      assert all == {};
    } else if k == 0 {
      Pow2Step(0);
    } else {
      Pow2Step(k - 1);
      var mid := (left + right + 1) / 2;
      match ProbeAt(b, cmp, target, mid) {
        case Bad(_) =>
          OneMoreProbe(all, {}, mid);
        case Compared(result) =>
          if result < 0 {
            FewProbes(b, cmp, target, mid, right, k - 1);
            OneMoreProbe(all, ProbeSet(b, cmp, target, mid, right), mid);
          } else {
            FewProbes(b, cmp, target, left, mid - 1, k - 1);
            OneMoreProbe(all, ProbeSet(b, cmp, target, left, mid - 1), mid);
          }
      }
    }
  }

  /** Over the bytewise comparator a restart point is bad because it leads outside exactly when
      its key does, within its first bytes, as many as the target has. */
  lemma BytewiseProbe(b: Layout, target: Bytes, i: nat)
    requires b.Valid() && i < b.numRestarts
    ensures ProbeAt(b, BytewiseSlices(), target, i) == Bad(OutOfBounds) <==>
            match HeaderAt(b.data, b.RestartPoint(i), b.restarts)
            case None => false
            case Some(h) =>
              h.shared == 0 && h.next + (if h.nonShared < |target| then h.nonShared else |target|) > |b.data|
  {
    hide HeaderAt, DecodeFixed32, MemCmp;
    var r := HeaderAt(b.data, b.RestartPoint(i), b.restarts);
    if r.Some? {
      AcceptedFits(b.data, b.RestartPoint(i), b.restarts);
    }
  }

  ghost function ParseTimes(b: Layout, cur: Cursor, n: nat): Option<Cursor>
    requires b.Valid() && cur.value.Span?
    ensures ParseTimes(b, cur, n).Some? ==> ParseTimes(b, cur, n).value.value.Span?
  {
    if n == 0 then Some(cur)
    else
      match ParseTimes(b, cur, n - 1)
      case None => None
      case Some(d) => if Parse(b, d).1 then Some(Parse(b, d).0) else None
  }

  /** n entries can be parsed from cur, all with keys before the target, and the next parse stops
      with the given status. */
  ghost predicate ScanBad(b: Layout, order: Order, target: Bytes, cur: Cursor, status: Status, n: nat)
    requires b.Valid() && cur.value.Span?
  {
    && (forall m: nat {:trigger ParseTimes(b, cur, m)} :: 0 < m <= n ==>
          ParseTimes(b, cur, m).Some? && order(ParseTimes(b, cur, m).value.key, target) < 0)
    && ParseTimes(b, cur, n).Some? && ParseBad(b, ParseTimes(b, cur, n).value, status)
  }

  /** The first of n + 1 parses can be taken off the front. */
  lemma {:induction false} ParseTimesFront(b: Layout, cur: Cursor, n: nat)
    requires b.Valid() && cur.value.Span?
    ensures var (next, more) := Parse(b, cur);
            ParseTimes(b, cur, n + 1) == if more then ParseTimes(b, next, n) else None
  {
    hide Parse;
    ParsedSpan(b, cur);
    if n > 0 {
      ParseTimesFront(b, cur, n - 1);
    }
  }

  lemma ScanFront(b: Layout, order: Order, target: Bytes, cur: Cursor, status: Status, n: nat)
    requires b.Valid() && cur.value.Span? && Parse(b, cur).1
    ensures Parse(b, cur).0.value.Span?
    ensures ScanBad(b, order, target, cur, status, n + 1) <==>
            order(Parse(b, cur).0.key, target) < 0 && ScanBad(b, order, target, Parse(b, cur).0, status, n)
  {
    hide Parse, ParseBad, ParseTimes;
    ParsedSpan(b, cur);
    var next := Parse(b, cur).0;
    forall m: nat ensures ParseTimes(b, cur, m + 1) == ParseTimes(b, next, m) {
      ParseTimesFront(b, cur, m);
    }
    NoParses(b, next);
    if ScanBad(b, order, target, cur, status, n + 1) {
      assert ParseTimes(b, cur, 0 + 1).Some?;
      forall m: nat | 0 < m <= n
        ensures ParseTimes(b, next, m).Some? && order(ParseTimes(b, next, m).value.key, target) < 0
      {
        assert ParseTimes(b, cur, m + 1).Some?;
      }
    }
    if order(next.key, target) < 0 && ScanBad(b, order, target, next, status, n) {
      forall m: nat | 0 < m <= n + 1
        ensures ParseTimes(b, cur, m).Some? && order(ParseTimes(b, cur, m).value.key, target) < 0
      {
        assert ParseTimes(b, cur, m) == ParseTimes(b, next, m - 1);
      }
    }
  }

  lemma NoParses(b: Layout, cur: Cursor)
    requires b.Valid() && cur.value.Span?
    ensures ParseTimes(b, cur, 0) == Some(cur)
  {
  }

  lemma ParsedSpan(b: Layout, cur: Cursor)
    requires b.Valid() && cur.value.Span?
    ensures Parse(b, cur).1 ==> Parse(b, cur).0.value.Span?
  {
    hide HeaderAt, AdvanceRestart;
  }

  /** Where a search may end: on an entry at or after the target, whose value lies inside the block
      unless its lengths wrap; or invalid. */
  ghost predicate Stopped(b: Layout, order: Order, target: Bytes, c: Cursor)
    requires b.Valid()
  {
    || (c.current < b.restarts && order(c.key, target) >= 0 && c.status != OutOfBounds
        && c.value.Span? && (SliceEnd(c.value) <= b.restarts <==> !Wraps(b, c.current)))
    || (c.current == b.restarts && c.restartIndex == b.numRestarts)
  }

  lemma {:induction false} ScanParseEnds(b: Layout, order: Order, target: Bytes, cur: Cursor)
    requires b.Valid() && cur.value.Span? && cur.status != OutOfBounds
    ensures Stopped(b, order, target, ScanParse(b, order, target, cur))
    ensures var r := ScanParse(b, order, target, cur); r.status != cur.status ==> r.key == [] && r.value.Cleared?
    decreases b.restarts - NextEntryOffset(cur.value)
  {
    hide Parse, Wraps, ParseBad;
    ParseAdvances(b, cur);
    var (next, more) := Parse(b, cur);
    if more && order(next.key, target) < 0 {
      ScanParseEnds(b, order, target, next);
    }
  }

  /** Parsing on stops with an error exactly when some number of entries is followed by a bad one. */
  lemma {:induction false} ScanParseFails(b: Layout, order: Order, target: Bytes, cur: Cursor, status: Status)
    requires b.Valid() && cur.value.Span? && cur.status != OutOfBounds && status != Ok && status != cur.status
    ensures ScanParse(b, order, target, cur).status == status <==>
            exists n: nat :: ScanBad(b, order, target, cur, status, n)
    decreases b.restarts - NextEntryOffset(cur.value)
  {
    hide Parse, Wraps, ParseBad;
    ParseAdvances(b, cur);
    NoParses(b, cur);
    assert ScanBad(b, order, target, cur, status, 0) <==> ParseBad(b, cur, status);
    var (next, more) := Parse(b, cur);
    if !more {
      forall n: nat | n > 0 ensures !ScanBad(b, order, target, cur, status, n) {
        ParseTimesFront(b, cur, n - 1);
      }
    } else {
      forall n: nat | n > 0
        ensures ScanBad(b, order, target, cur, status, n) <==>
                order(next.key, target) < 0 && ScanBad(b, order, target, next, status, n - 1)
      {
        ScanFront(b, order, target, cur, status, n - 1);
      }
      if order(next.key, target) < 0 {
        ScanParseFails(b, order, target, next, status);
        hide ScanBad;
        if n: nat :| ScanBad(b, order, target, next, status, n) {
          assert ScanBad(b, order, target, cur, status, n + 1);
        }
      }
    }
  }

  /** The search comes to something bad: at a restart point that its binary search looks at, or
      behind entries that it parses from where the binary search ends. */
  ghost predicate SeekBad(b: Layout, cmp: SliceComparator, target: Bytes, cur: Cursor, status: Status)
    requires b.Valid()
  {
    || ProbesBad(b, cmp, target, 0, b.numRestarts - 1, status)
    || (var r := Narrow(b, cmp, target, 0, b.numRestarts - 1);
        r.At? && exists n: nat :: ScanBad(b, cmp.order, target, SeekToRestart(b, cur, r.left), status, n))
  }

  /** How Seek from start ends: on a key at or after the target or invalid, and with no key and no
      value after an error; and it reports corruption, or reads outside the block, exactly when it
      comes to a header of that kind. */
  ghost predicate SeekEnded(b: Layout, cmp: SliceComparator, target: Bytes, start: Cursor, c: Cursor)
    requires b.Valid()
  {
    && Stopped(b, cmp.order, target, c) && (c.status != start.status ==> c.key == [] && c.value.Cleared?)
    && forall status :: status != Ok && status != start.status ==>
         (c.status == status <==> SeekBad(b, cmp, target, start, status))
  }

  /** Whatever the bytes. */
  lemma SeekEnds(b: Layout, cmp: SliceComparator, target: Bytes, cur: Cursor)
    requires b.Valid() && cur.status != OutOfBounds
    ensures SeekEnded(b, cmp, target, cur, SeekCursor(b, cmp, target, cur))
  {
    hide ProbesBad, ScanBad, Narrow, ScanParse, DecodeFixed32;
    var r := Narrow(b, cmp, target, 0, b.numRestarts - 1);
    if r.At? {
      ScanParseEnds(b, cmp.order, target, SeekToRestart(b, cur, r.left));
    }
    forall status | status != Ok && status != cur.status
      ensures SeekCursor(b, cmp, target, cur).status == status <==> SeekBad(b, cmp, target, cur, status)
    {
      NarrowFails(b, cmp, target, 0, b.numRestarts - 1, status);
      if r.At? {
        ScanParseFails(b, cmp.order, target, SeekToRestart(b, cur, r.left), status);
      }
    }
  }

  /** No restart point and no entry that can be parsed from one has key bytes outside the block. */
  ghost predicate KeysInside(b: Layout)
    requires b.Valid()
  {
    && (forall i: nat :: i < b.numRestarts ==> ProbedKeyInside(b, i))
    && (forall i: nat, n: nat :: i < b.numRestarts ==> ChainInside(b, i, n))
  }

  ghost predicate ProbedKeyInside(b: Layout, i: nat)
    requires b.Valid() && i < b.numRestarts
  {
    match HeaderAt(b.data, b.RestartPoint(i), b.restarts)
    case None => true
    case Some(h) => h.shared == 0 ==> KeyEnd(h) <= |b.data|
  }

  /** A comparator has no need to read outside if the key lies inside. */
  lemma ProbeInside(b: Layout, cmp: SliceComparator, target: Bytes, i: nat)
    requires b.Valid() && i < b.numRestarts && Coherent(cmp) && ProbedKeyInside(b, i)
    ensures ProbeAt(b, cmp, target, i) != Bad(OutOfBounds)
  {
    hide HeaderAt, DecodeFixed32;
    var r := HeaderAt(b.data, b.RestartPoint(i), b.restarts);
    if r.Some? && r.value.shared == 0 {
      AcceptedFits(b.data, b.RestartPoint(i), b.restarts);
      var key := Readable(b, r.value);
      assert |key| == r.value.nonShared && cmp.peek(key, |key|, target).Some?;
    }
  }

  ghost predicate ChainInside(b: Layout, i: nat, n: nat)
    requires b.Valid() && i < b.numRestarts
  {
    var d := ParseTimes(b, Cursor(0, i, [], Span(b.RestartPoint(i), 0), Ok), n);
    d.Some? ==> !ParseBad(b, d.value, OutOfBounds)
  }

  /** A block is safe for every search in every order if its keys lie inside. */
  lemma SafeForEverySearch(b: Layout, cmp: SliceComparator, target: Bytes, cur: Cursor)
    requires b.Valid() && cur.status != OutOfBounds && Coherent(cmp) && KeysInside(b)
    ensures SeekCursor(b, cmp, target, cur).status != OutOfBounds
  {
    hide ProbeAt, ProbedKeyInside, Coherent, ParseBad, Probes, Narrow, SeekCursor, DecodeFixed32;
    SeekEnds(b, cmp, target, cur);
    forall i: nat | i < b.numRestarts ensures ProbeAt(b, cmp, target, i) != Bad(OutOfBounds) {
      ProbeInside(b, cmp, target, i);
    }
    var r := Narrow(b, cmp, target, 0, b.numRestarts - 1);
    if r.At? {
      var c := SeekToRestart(b, cur, r.left);
      forall n: nat ensures !ScanBad(b, cmp.order, target, c, OutOfBounds, n) {
        var d := Cursor(0, r.left, [], Span(b.RestartPoint(r.left), 0), Ok);
        assert ChainInside(b, r.left, n);
        ParsesAlike(b, c, d, n);
      }
    }
    assert !SeekBad(b, cmp, target, cur, OutOfBounds);
  }

  /** Parsing depends on where the cursor stands and on its key, not on current or status. */
  lemma {:induction false} ParsesAlike(b: Layout, c: Cursor, d: Cursor, n: nat)
    requires b.Valid() && c.value.Span? && d.value == c.value && d.key == c.key && d.restartIndex == c.restartIndex
    ensures var x, y := ParseTimes(b, c, n), ParseTimes(b, d, n);
            if x.Some? then
              && y.Some? && x.value.value == y.value.value && x.value.key == y.value.key
              && x.value.restartIndex == y.value.restartIndex
              && (ParseBad(b, x.value, OutOfBounds) <==> ParseBad(b, y.value, OutOfBounds))
            else y.None?
  {
    hide HeaderAt, AdvanceRestart;
    if n > 0 {
      ParsesAlike(b, c, d, n - 1);
    }
  }

  // ---------- Seek on well-formed blocks ----------

  /** Where Seek must end on a well-formed block. */
  ghost predicate SeekFound(b: Layout, c: Contents, order: Order, target: Bytes, cur: Cursor)
    requires WellFormed(b, c)
  {
    var k := LinearScan(order, c.entries, target);
    if k < |c.entries| then On(b, c, cur, k)
    else cur.current == b.restarts && cur.restartIndex == b.numRestarts && cur.status != OutOfBounds
  }

  /** No entry up to restart point left, unless left is the first, is at or after the target. */
  lemma {:induction false} NarrowFinds(b: Layout, c: Contents, cmp: SliceComparator, target: Bytes, left: nat,
                                       right: nat)
    requires WellFormed(b, c) && Coherent(cmp) && Transitive(cmp.order) && Sorted(cmp.order, c.entries)
    requires left <= right < b.numRestarts
    requires forall j :: 0 <= j < c.points[left] ==> cmp.order(c.entries[j].key, target) < 0
    ensures var r := Narrow(b, cmp, target, left, right);
            r.At? && r.left < b.numRestarts
            && forall j :: 0 <= j < c.points[r.left] ==> cmp.order(c.entries[j].key, target) < 0
    decreases right - left
  {
    hide HeaderAt, ProbeAt, DecodeFixed32, EntryStored, Sorted, Transitive, Coherent;
    if left < right {
      var mid := (left + right + 1) / 2;
      RestartKey(b, c, cmp, target, mid);
      if cmp.order(c.entries[c.points[mid]].key, target) < 0 {
        BeforeRestart(cmp.order, b, c, target, c.points[mid]);
        NarrowFinds(b, c, cmp, target, mid, right);
      } else {
        NarrowFinds(b, c, cmp, target, left, mid - 1);
      }
    }
  }

  /** The entry at a restart point stores its whole key, and is compared by it. */
  lemma RestartKey(b: Layout, c: Contents, cmp: SliceComparator, target: Bytes, i: nat)
    requires WellFormed(b, c) && Coherent(cmp) && 0 < i < b.numRestarts
    ensures c.points[i] < |c.entries|
    ensures ProbeAt(b, cmp, target, i) == Compared(cmp.order(c.entries[c.points[i]].key, target))
  {
    hide HeaderAt, DecodeFixed32;
    assert EntryStored(b, c, c.points[i]);
    var h := HeaderAt(b.data, b.RestartPoint(i), b.restarts).value;
    assert Readable(b, h) == c.entries[c.points[i]].key;
  }

  lemma {:induction false} ScanParseFinds(b: Layout, c: Contents, order: Order, target: Bytes, cur: Cursor, k: nat)
    requires WellFormed(b, c) && Ready(b, c, cur, k)
    requires forall j :: 0 <= j < k ==> order(c.entries[j].key, target) < 0
    ensures SeekFound(b, c, order, target, ScanParse(b, order, target, cur))
    decreases |c.entries| - k
  {
    hide Parse, EntryStored, PointsOk, DecodeFixed32;
    ParseEntry(b, c, cur, k);
    ScanSkips(order, c.entries, target, k);
    if k < |c.entries| && order(c.entries[k].key, target) < 0 {
      ScanParseFinds(b, c, order, target, Parse(b, cur).0, k + 1);
    }
  }

  /** On a well-formed block Seek stops where a linear scan of the entries stops, with that
      entry's full key and value, whatever the iterator did before. */
  lemma SeekRefinesLinearScan(b: Layout, c: Contents, cmp: SliceComparator, target: Bytes, cur: Cursor)
    requires WellFormed(b, c) && cur.status != OutOfBounds
    requires Coherent(cmp) && Transitive(cmp.order) && Sorted(cmp.order, c.entries)
    ensures SeekFound(b, c, cmp.order, target, SeekCursor(b, cmp, target, cur))
  {
    hide WellFormed, Ready, Sorted, Transitive, Coherent, SeekFound, ScanParse, Narrow, DecodeFixed32;
    Sizes(b, c);
    NarrowFinds(b, c, cmp, target, 0, b.numRestarts - 1);
    var left := Narrow(b, cmp, target, 0, b.numRestarts - 1).left;
    RestartReady(b, c, cur, left);
    ScanParseFinds(b, c, cmp.order, target, SeekToRestart(b, cur, left), c.points[left]);
  }

  class Iter {
    const comparator: SliceComparator
    const layout: Layout
    var current: nat
    var restartIndex: nat
    var key: Bytes
    var value: Slice
    var status: Status

    function State(): Cursor
      reads this
    {
      Cursor(current, restartIndex, key, value, status)
    }

    /** current and restartIndex are left uninitialised by the source. */
    constructor (comparator: SliceComparator, layout: Layout)
      requires layout.Valid()
      ensures this.comparator == comparator && this.layout == layout && status == Ok
    {
      this.comparator := comparator;
      this.layout := layout;
      current, restartIndex := *, *;
      key, value, status := [], Cleared, Ok;
    }

    method CorruptionError()
      modifies this
      ensures State() == Corrupted(layout, Corruption)
    {
      current := layout.restarts;
      restartIndex := layout.numRestarts;
      status := Corruption;
      key := [];
      value := Cleared;
    }

    method SeekToRestartPoint(index: nat)
      requires layout.Valid() && index < layout.numRestarts
      modifies this
      ensures State() == SeekToRestart(layout, old(State()), index)
    {
      key := [];
      restartIndex := index;
      var offset := layout.RestartPoint(index);
      value := Span(offset, 0);
    }

    method ParseNextKey() returns (more: bool)
      requires layout.Valid() && value.Span? && status != OutOfBounds
      modifies this
      ensures (State(), more) == Parse(layout, old(State()))
    {
      hide HeaderAt, DecodeFixed32;
      current := NextEntryOffset(value);
      if current >= layout.restarts {
        current := layout.restarts;
        restartIndex := layout.numRestarts;
        return false;
      }
      var h := DecodeEntry(layout.data, current, layout.restarts);
      if h.None? || |key| < h.value.shared {
        CorruptionError();
        return false;
      }
      if KeyEnd(h.value) > |layout.data| {
        CorruptionError();
        status := OutOfBounds;
        return false;
      }
      key := key[..h.value.shared];
      key := key + layout.data[h.value.next..KeyEnd(h.value)];
      value := Span(KeyEnd(h.value), h.value.valueLength);
      while restartIndex + 1 < layout.numRestarts && layout.RestartPoint(restartIndex + 1) < current
        invariant AdvanceRestart(layout, restartIndex, current) == AdvanceRestart(layout, old(restartIndex), current)
        modifies this`restartIndex
        decreases layout.numRestarts - restartIndex
      {
        restartIndex := restartIndex + 1;
      }
      return true;
    }

    /** Binary search over the restart points, then a linear scan. */
    method Seek(target: Bytes)
      requires layout.Valid() && status != OutOfBounds
      modifies this
      ensures State() == SeekCursor(layout, comparator, target, old(State()))
      ensures SeekEnded(layout, comparator, target, old(State()), State())
    {
      hide HeaderAt, DecodeFixed32, Parse, SeekEnded, Narrow, ScanParse, CompareKey, CompareSlice,
           Readable;
      SeekEnds(layout, comparator, target, State());
      var left: nat, right: nat := 0, layout.numRestarts - 1;
      while left < right
        invariant left <= right < layout.numRestarts
        invariant State() == old(State())
        invariant Narrow(layout, comparator, target, left, right)
               == Narrow(layout, comparator, target, 0, layout.numRestarts - 1)
      {
        NarrowStep(layout, comparator, target, left, right);
        var mid := (left + right + 1) / 2;
        var regionOffset := layout.RestartPoint(mid);
        var h := DecodeEntry(layout.data, regionOffset, layout.restarts);
        if h.None? || h.value.shared != 0 {
          CorruptionError();
          return;
        }
        var result := CompareSlice(comparator, Readable(layout, h.value), h.value.nonShared, target);
        if result.None? {
          CorruptionError();
          status := OutOfBounds;
          return;
        }
        if result.value < 0 {
          left := mid;
        } else {
          right := mid - 1;
        }
      }
      NarrowedTo(layout, comparator, target, left);
      SeekToRestartPoint(left);
      ghost var start := State();
      while true
        invariant value.Span? && status != OutOfBounds
        invariant ScanParse(layout, comparator.order, target, State())
               == ScanParse(layout, comparator.order, target, start)
        decreases layout.restarts - NextEntryOffset(value)
      {
        ScanStep(layout, comparator, target, State());
        var more := ParseNextKey();
        if !more {
          return;
        }
        if CompareKey(comparator, key, target) >= 0 {
          return;
        }
      }
    }
  }

  /** An accepted block of at most 4 GiB with a restart point gives its iterator a valid layout. */
  lemma AcceptedLayout(contents: Bytes)
    requires 4 <= |contents| <= TWO_32 && NumRestarts(contents) > 0 && 4 * (1 + NumRestarts(contents)) <= |contents|
    ensures Layout(contents, |contents| - 4 * (1 + NumRestarts(contents)), NumRestarts(contents)).Valid()
  {
  }
}
