/** A search of a block that does not end OutOfBounds depends on the bytes of the block alone: it
    goes the same way whatever follows the block in memory. */
module BlockBounds {
  import opened Block
  import opened Coding
  import opened Comparator
  import opened Wrappers

  lemma {:induction false} VarintLengthLocal(data: Bytes, rest: Bytes, p: nat, limit: nat, max: nat)
    requires limit <= |data|
    ensures VarintLength(data + rest, p, limit, max) == VarintLength(data, p, limit, max)
    decreases max
  {
    if max > 0 && p < limit {
      VarintLengthLocal(data, rest, p + 1, limit, max - 1);
    }
  }

  lemma VarintLocal(data: Bytes, rest: Bytes, p: nat, limit: nat)
    requires limit <= |data|
    ensures Varint32(data + rest, p, limit) == Varint32(data, p, limit)
  {
    hide VarintLength, GroupSum, Pow2;
    VarintLengthLocal(data, rest, p, limit, 5);
    var n := VarintLength(data, p, limit, 5);
    if n > 0 {
      assert (data + rest)[p..p + n] == data[p..p + n];
      GroupSumLocal(data + rest, p, data, p, n);
    }
  }

  lemma HeaderLocal(data: Bytes, rest: Bytes, p: nat, limit: nat)
    requires limit <= |data|
    ensures HeaderAt(data + rest, p, limit) == HeaderAt(data, p, limit)
  {
    hide Varint32;
    VarintLocal(data, rest, p, limit);
    var a := Varint32(data, p, limit);
    if a.Some? {
      VarintLocal(data, rest, a.value.next, limit);
      var b := Varint32(data, a.value.next, limit);
      if b.Some? {
        VarintLocal(data, rest, b.value.next, limit);
      }
    }
  }

  /** The block with what follows it in memory. */
  function WithRest(b: Layout, rest: Bytes): (r: Layout)
    requires b.Valid()
    ensures r.Valid() && r.restarts == b.restarts && r.numRestarts == b.numRestarts
  {
    b.(data := b.data + rest)
  }

  lemma RestartLocal(b: Layout, rest: Bytes, i: nat)
    requires b.Valid() && i < b.numRestarts
    ensures WithRest(b, rest).RestartPoint(i) == b.RestartPoint(i)
  {
    hide BitOr, ShiftLeft;
  }

  lemma {:induction false} AdvanceLocal(b: Layout, rest: Bytes, i: nat, current: nat)
    requires b.Valid()
    ensures AdvanceRestart(WithRest(b, rest), i, current) == AdvanceRestart(b, i, current)
    decreases b.numRestarts - i
  {
    hide DecodeFixed32;
    if i + 1 < b.numRestarts {
      RestartLocal(b, rest, i + 1);
      AdvanceLocal(b, rest, i + 1, current);
    }
  }

  lemma ParseLocal(b: Layout, rest: Bytes, c: Cursor)
    requires b.Valid() && c.value.Span? && Parse(b, c).0.status != OutOfBounds
    ensures Parse(WithRest(b, rest), c) == Parse(b, c)
  {
    hide HeaderAt, AdvanceRestart;
    var current := NextEntryOffset(c.value);
    HeaderLocal(b.data, rest, current, b.restarts);
    AdvanceLocal(b, rest, c.restartIndex, current);
    if current < b.restarts && HeaderAt(b.data, current, b.restarts).Some? {
      var h := HeaderAt(b.data, current, b.restarts).value;
      assert KeyEnd(h) <= |b.data| ==> (b.data + rest)[h.next..KeyEnd(h)] == b.data[h.next..KeyEnd(h)];
    }
  }

  /** More of a key can be read, and what could be read stays. */
  lemma ReadableGrows(b: Layout, rest: Bytes, h: Header) returns (more: Bytes)
    requires b.Valid() && h.next <= |b.data|
    ensures Readable(WithRest(b, rest), h) == Readable(b, h) + more
    ensures |Readable(b, h) + more| <= h.nonShared
  {
    more := Readable(WithRest(b, rest), h)[|Readable(b, h)|..];
  }

  lemma ProbeLocal(b: Layout, rest: Bytes, cmp: SliceComparator, target: Bytes, i: nat)
    requires b.Valid() && i < b.numRestarts && Coherent(cmp) && ProbeAt(b, cmp, target, i) != Bad(OutOfBounds)
    ensures ProbeAt(WithRest(b, rest), cmp, target, i) == ProbeAt(b, cmp, target, i)
  {
    hide HeaderAt, DecodeFixed32, Readable;
    RestartLocal(b, rest, i);
    HeaderLocal(b.data, rest, b.RestartPoint(i), b.restarts);
    var r := HeaderAt(b.data, b.RestartPoint(i), b.restarts);
    if r.Some? {
      AcceptedFits(b.data, b.RestartPoint(i), b.restarts);
      var more := ReadableGrows(b, rest, r.value);
    }
  }

  lemma {:induction false} NarrowLocal(b: Layout, rest: Bytes, cmp: SliceComparator, target: Bytes, left: nat,
                                       right: nat)
    requires b.Valid() && left <= right < b.numRestarts && Coherent(cmp)
    requires Narrow(b, cmp, target, left, right) != Failed(OutOfBounds)
    ensures Narrow(WithRest(b, rest), cmp, target, left, right) == Narrow(b, cmp, target, left, right)
    decreases right - left
  {
    hide ProbeAt, Coherent, WithRest;
    if left < right {
      var mid := (left + right + 1) / 2;
      ProbeLocal(b, rest, cmp, target, mid);
      var probe := ProbeAt(b, cmp, target, mid);
      if probe.Compared? {
        if probe.result < 0 {
          NarrowLocal(b, rest, cmp, target, mid, right);
        } else {
          NarrowLocal(b, rest, cmp, target, left, mid - 1);
        }
      }
    }
  }

  lemma {:induction false} ScanLocal(b: Layout, rest: Bytes, cmp: SliceComparator, target: Bytes, cur: Cursor)
    requires b.Valid() && cur.value.Span? && cur.status != OutOfBounds
    requires ScanParse(b, cmp.order, target, cur).status != OutOfBounds
    ensures ScanParse(WithRest(b, rest), cmp.order, target, cur) == ScanParse(b, cmp.order, target, cur)
    decreases b.restarts - NextEntryOffset(cur.value)
  {
    hide Parse, ParseBad, ScanParse, WithRest;
    ScanStep(b, cmp, target, cur);
    ScanStep(WithRest(b, rest), cmp, target, cur);
    ParseAdvances(b, cur);
    ParseLocal(b, rest, cur);
    var (next, more) := Parse(b, cur);
    if more && CompareKey(cmp, next.key, target) < 0 {
      ScanLocal(b, rest, cmp, target, next);
    }
  }

  /** For every comparator that says what it reads, for every target and whatever the iterator did
      before. */
  lemma SeekIgnoresRest(b: Layout, rest: Bytes, cmp: SliceComparator, target: Bytes, cur: Cursor)
    requires b.Valid() && Coherent(cmp) && cur.status != OutOfBounds
    requires SeekCursor(b, cmp, target, cur).status != OutOfBounds
    ensures SeekCursor(WithRest(b, rest), cmp, target, cur) == SeekCursor(b, cmp, target, cur)
  {
    hide Coherent, Narrow, ScanParse, WithRest;
    NarrowLocal(b, rest, cmp, target, 0, b.numRestarts - 1);
    var r := Narrow(b, cmp, target, 0, b.numRestarts - 1);
    if r.At? {
      RestartSeekLocal(b, rest, cur, r.left);
      ScanLocal(b, rest, cmp, target, SeekToRestart(b, cur, r.left));
    }
  }

  lemma RestartSeekLocal(b: Layout, rest: Bytes, cur: Cursor, i: nat)
    requires b.Valid() && i < b.numRestarts
    ensures SeekToRestart(WithRest(b, rest), cur, i) == SeekToRestart(b, cur, i)
  {
    hide DecodeFixed32;
    RestartLocal(b, rest, i);
  }
}
