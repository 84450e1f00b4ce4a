/** A reference encoder for the block format that db/Block.cpp reads, to show that the format
    the iterator is proved against is the one it decodes: every list of entries, with any choice
    of restart points and of shared prefix lengths that the format allows, encodes to a block
    that Block accepts and that is well formed with those contents. */
module BlockBuilder {
  import opened Arithmetic
  import opened Block
  import opened Coding
  import opened Comparator
  import opened Wrappers

  /** Which key bytes to share and where to restart. */
  ghost predicate ValidPlan(entries: seq<Entry>, shared: seq<nat>, points: seq<nat>) {
    && 0 < |points| < TWO_32 / 2 && SharedFits(entries, shared, |entries|)
    && (forall i :: 0 <= i < |entries| ==> ShareOk(entries, shared, i))
    && points[0] == 0
    && (forall i, j :: 0 <= i < j < |points| ==> points[i] < points[j])
    && (forall i :: 0 < i < |points| ==> points[i] < |entries|)
    && (forall i :: 0 <= i < |points| && points[i] < |entries| ==> shared[points[i]] == 0)
  }

  ghost predicate SharedFits(entries: seq<Entry>, shared: seq<nat>, n: nat) {
    n <= |entries| == |shared| && forall i :: 0 <= i < n ==> shared[i] <= |entries[i].key|
  }

  ghost predicate ShareOk(entries: seq<Entry>, shared: seq<nat>, i: nat)
    requires i < |entries| == |shared|
  {
    var key, s := entries[i].key, shared[i];
    && s <= |key|
    && if i == 0 then s == 0 else s <= |entries[i - 1].key| && entries[i - 1].key[..s] == key[..s]
  }

  function EncodeHeader(shared: nat, nonShared: nat, valueLength: nat): Bytes {
    EncodeVarint(shared) + EncodeVarint(nonShared) + EncodeVarint(valueLength)
  }

  function EncodeEntry(e: Entry, shared: nat): Bytes
    requires shared <= |e.key|
  {
    EncodeHeader(shared, |e.key| - shared, |e.value|) + e.key[shared..] + e.value
  }

  /** The first n entries. */
  ghost function EncodeEntries(entries: seq<Entry>, shared: seq<nat>, n: nat): Bytes
    requires SharedFits(entries, shared, n)
  {
    if n == 0 then [] else EncodeEntries(entries, shared, n - 1) + EncodeEntry(entries[n - 1], shared[n - 1])
  }

  ghost function Fixed32s(values: seq<nat>): (b: Bytes)
    ensures |b| == 4 * |values|
  {
    if values == [] then [] else Fixed32s(values[..|values| - 1]) + LowBytes(values[|values| - 1], 4)
  }

  ghost function Offsets(entries: seq<Entry>, shared: seq<nat>): (offs: seq<nat>)
    requires SharedFits(entries, shared, |entries|)
    ensures |offs| == |entries| + 1
    ensures forall i :: 0 <= i <= |entries| ==> offs[i] == |EncodeEntries(entries, shared, i)|
  {
    seq(|entries| + 1, i requires 0 <= i <= |entries| => |EncodeEntries(entries, shared, i)|)
  }

  ghost function RestartOffsets(entries: seq<Entry>, shared: seq<nat>, points: seq<nat>): (r: seq<nat>)
    requires ValidPlan(entries, shared, points)
    ensures |r| == |points|
    ensures forall i :: 0 <= i < |points| ==> points[i] <= |entries| && r[i] == Offsets(entries, shared)[points[i]]
  {
    seq(|points|, i requires 0 <= i < |points| => Offsets(entries, shared)[points[i]])
  }

  ghost function EncodeBlock(entries: seq<Entry>, shared: seq<nat>, points: seq<nat>): Bytes
    requires ValidPlan(entries, shared, points)
  {
    EncodeEntries(entries, shared, |entries|)
    + Fixed32s(RestartOffsets(entries, shared, points)) + LowBytes(|points|, 4)
  }

  // ---------- headers ----------

  lemma OneVarint(prefix: Bytes, v: nat, suffix: Bytes, limit: nat)
    requires v < TWO_32 && |prefix| + |EncodeVarint(v)| <= limit <= |prefix + EncodeVarint(v) + suffix|
    ensures Varint32(prefix + EncodeVarint(v) + suffix, |prefix|, limit)
         == Some(Varint(v, |prefix| + |EncodeVarint(v)|))
  {
    hide Pow2;
    WordSize();
    Pow2Grows(32, 35);
    VarintRoundTrip(prefix, v, suffix, limit, 5, 32);
  }

  /** Three encoded lengths decode to those lengths. */
  lemma HeaderRoundTrip(prefix: Bytes, s: nat, n: nat, v: nat, suffix: Bytes, limit: nat)
    requires s < TWO_32 && n < TWO_32 && v < TWO_32
    requires |prefix| + |EncodeHeader(s, n, v)| <= limit <= |prefix + EncodeHeader(s, n, v) + suffix|
    ensures ThreeVarints(prefix + EncodeHeader(s, n, v) + suffix, |prefix|, limit)
         == Some(Header(s, n, v, |prefix| + |EncodeHeader(s, n, v)|))
  {
    hide EncodeVarint, Varint32;
    var data, a, b, c := prefix + EncodeHeader(s, n, v) + suffix, EncodeVarint(s), EncodeVarint(n), EncodeVarint(v);
    assert data == prefix + a + (b + c + suffix);
    OneVarint(prefix, s, b + c + suffix, limit);
    assert data == (prefix + a) + b + (c + suffix);
    OneVarint(prefix + a, n, c + suffix, limit);
    assert data == (prefix + a + b) + c + suffix;
    OneVarint(prefix + a + b, v, suffix, limit);
  }

  lemma HeaderAtLeastThree(s: nat, n: nat, v: nat)
    ensures |EncodeHeader(s, n, v)| >= 3
  {
  }

  lemma EntrySize(e: Entry, s: nat)
    requires s <= |e.key|
    ensures |EncodeEntry(e, s)| >= |e.key| - s + |e.value| + 3
  {
    HeaderAtLeastThree(s, |e.key| - s, |e.value|);
  }

  /** An entry that stays within the limit is accepted with its own lengths. */
  lemma EntryRoundTrip(prefix: Bytes, e: Entry, s: nat, suffix: Bytes, limit: nat)
    requires s <= |e.key| && s < TWO_32 && limit < TWO_32
    requires |prefix| + |EncodeEntry(e, s)| <= limit <= |prefix + EncodeEntry(e, s) + suffix|
    ensures var data, p := prefix + EncodeEntry(e, s) + suffix, |prefix|;
            HeaderAt(data, p, limit).Some?
    ensures var data, p := prefix + EncodeEntry(e, s) + suffix, |prefix|;
            var h := HeaderAt(data, p, limit).value;
            && h.shared == s && h.nonShared == |e.key| - s && h.valueLength == |e.value|
            && EntryEnd(h) == p + |EncodeEntry(e, s)| <= |data|
            && data[h.next..KeyEnd(h)] == e.key[s..] && data[KeyEnd(h)..EntryEnd(h)] == e.value
  {
    hide EncodeHeader, ThreeVarints;
    var data, n, v := prefix + EncodeEntry(e, s) + suffix, |e.key| - s, |e.value|;
    var header, rest := EncodeHeader(s, n, v), e.key[s..];
    EntrySize(e, s);
    assert data == prefix + header + (rest + e.value + suffix);
    HeaderIsAccepted(prefix, s, n, v, rest + e.value + suffix, limit);
    assert data == (prefix + header) + rest + (e.value + suffix);
    Middle(prefix + header, rest, e.value + suffix);
    assert data == (prefix + header + rest) + e.value + suffix;
    Middle(prefix + header + rest, e.value, suffix);
  }

  /** A header is accepted if at least as many bytes follow as the 32-bit sum of its lengths. */
  lemma HeaderIsAccepted(prefix: Bytes, s: nat, n: nat, v: nat, suffix: Bytes, limit: nat)
    requires s < TWO_32 && n < TWO_32 && v < TWO_32 && limit < TWO_32
    requires limit <= |prefix + EncodeHeader(s, n, v) + suffix|
    requires |prefix| + |EncodeHeader(s, n, v)| + (n + v) % TWO_32 <= limit
    ensures HeaderAt(prefix + EncodeHeader(s, n, v) + suffix, |prefix|, limit)
         == Some(Header(s, n, v, |prefix| + |EncodeHeader(s, n, v)|))
  {
    hide EncodeHeader, ThreeVarints;
    HeaderRoundTrip(prefix, s, n, v, suffix, limit);
    HeaderAtLeastThree(s, n, v);
  }

  lemma Middle(a: Bytes, b: Bytes, c: Bytes)
    ensures (a + b + c)[|a|..|a| + |b|] == b
  {
  }

  /** The 32-bit sum of the two lengths can wrap, and then an entry of seven bytes is accepted
      that claims four billion bytes of key. */
  lemma WrappingEntryAccepted()
    ensures var data := EncodeHeader(0, TWO_32 - 1, 1);
            HeaderAt(data, 0, |data|) == Some(Header(0, TWO_32 - 1, 1, |data|))
  {
    hide EncodeHeader, ThreeVarints;
    var data := EncodeHeader(0, TWO_32 - 1, 1);
    assert [] + data + [] == data;
    HeaderAtMostFifteen(0, TWO_32 - 1, 1);
    HeaderIsAccepted([], 0, TWO_32 - 1, 1, [], |data|);
  }

  // ---------- blocks whose lengths wrap ----------

  lemma Fixed32RoundTrip(data: Bytes, p: nat, value: nat)
    requires p + 4 <= |data| && value < TWO_32 && data[p..p + 4] == LowBytes(value, 4)
    ensures DecodeFixed32(data, p) == value
  {
    hide Pow2, LittleEndian, LowBytes, DecodeFixed32;
    DecodeFixed32IsLittleEndian(data, p);
    WordSize();
    LowBytesValue(value, 4);
  }

  /** A block of the given entry bytes with its one restart point at their start. */
  function OneRestart(entries: Bytes): Bytes {
    entries + LowBytes(0, 4) + LowBytes(1, 4)
  }

  lemma OneRestartIsAccepted(entries: Bytes)
    requires |entries| + 8 < TWO_32
    ensures var data := OneRestart(entries);
            |data| == |entries| + 8 && NumRestarts(data) == 1 && 4 * (1 + NumRestarts(data)) <= |data|
    ensures var b := Layout(OneRestart(entries), |entries|, 1); b.Valid() && b.RestartPoint(0) == 0
  {
    hide LowBytes, DecodeFixed32;
    var data, n := OneRestart(entries), |entries|;
    assert data[n..n + 4] == LowBytes(0, 4) && data[n + 4..n + 4 + 4] == LowBytes(1, 4);
    Fixed32RoundTrip(data, n, 0);
    Fixed32RoundTrip(data, n + 4, 1);
  }

  lemma HeaderAtMostFifteen(s: nat, n: nat, v: nat)
    requires s < TWO_32 && n < TWO_32 && v < TWO_32
    ensures |EncodeHeader(s, n, v)| <= 15
  {
    hide Pow2, EncodeVarint;
    WordSize();
    Pow2Grows(32, 35);
    EncodedShape(s, [], 5);
    EncodedShape(n, [], 5);
    EncodedShape(v, [], 5);
  }

  lemma OnlyRestart(b: Layout)
    requires b.Valid() && b.numRestarts == 1
    ensures AdvanceRestart(b, 0, 0) == 0
  {
  }

  /** A parse of an entry that shares no key bytes. */
  lemma ParseWholeKey(b: Layout, c: Cursor, h: Header)
    requires b.Valid() && c.value.Span? && NextEntryOffset(c.value) < b.restarts
    requires HeaderAt(b.data, NextEntryOffset(c.value), b.restarts) == Some(h) && h.shared == 0
    ensures var p := NextEntryOffset(c.value);
            Parse(b, c) ==
            if KeyEnd(h) > |b.data| then (Corrupted(b, OutOfBounds), false)
            else (Cursor(p, AdvanceRestart(b, c.restartIndex, p), [] + b.data[h.next..KeyEnd(h)],
                         Span(KeyEnd(h), h.valueLength), c.status), true)
  {
    hide HeaderAt, DecodeFixed32, AdvanceRestart;
    assert c.key[..0] == [];
  }

  lemma NoPrefix(s: Bytes)
    ensures [] + s == s
  {
  }

  /** What a search of a block with one restart point, at offset 0, finds first. */
  lemma FirstEntry(b: Layout, cmp: SliceComparator, target: Bytes, cur: Cursor, h: Header)
    requires b.Valid() && b.numRestarts == 1 && cur.status != OutOfBounds
    requires b.RestartPoint(0) == 0 < b.restarts && HeaderAt(b.data, 0, b.restarts) == Some(h) && h.shared == 0
    ensures if KeyEnd(h) > |b.data| then SeekCursor(b, cmp, target, cur).status == OutOfBounds
            else
              var key := b.data[h.next..KeyEnd(h)];
              cmp.order(key, target) >= 0 ==>
                SeekCursor(b, cmp, target, cur) == Cursor(0, 0, key, Span(KeyEnd(h), h.valueLength), cur.status)
  {
    hide HeaderAt, DecodeFixed32, Parse, ScanParse;
    NarrowedTo(b, cmp, target, 0);
    OnlyRestart(b);
    ParseWholeKey(b, SeekToRestart(b, cur, 0), h);
    ScanStep(b, cmp, target, SeekToRestart(b, cur, 0));
    if KeyEnd(h) <= |b.data| {
      NoPrefix(b.data[h.next..KeyEnd(h)]);
    }
  }

  /** A block that is accepted and in which every search, in any order and for any target, goes on
      to read key bytes past the end. */
  lemma WrappingKeyReadsOutside(cmp: SliceComparator, target: Bytes, cur: Cursor)
    requires cur.status != OutOfBounds
    ensures var entries := EncodeHeader(0, TWO_32 - 1, 1);
            var b := Layout(OneRestart(entries), |entries|, 1);
            NumRestarts(b.data) == 1 && b.Valid() && SeekCursor(b, cmp, target, cur).status == OutOfBounds
  {
    hide EncodeHeader, HeaderAt, OneRestart, DecodeFixed32, SeekCursor;
    var entries := EncodeHeader(0, TWO_32 - 1, 1);
    HeaderAtMostFifteen(0, TWO_32 - 1, 1);
    WrappingHeader(0, TWO_32 - 1, 1, []);
    assert entries + [] == entries;
    FirstEntry(Layout(OneRestart(entries), |entries|, 1), cmp, target, cur, Header(0, TWO_32 - 1, 1, |entries|));
  }

  /** A block that is accepted and in which a search ends on an entry with a value that lies past
      the end. */
  lemma WrappingValueLiesOutside(x: Byte, cmp: SliceComparator, target: Bytes, cur: Cursor)
    requires cur.status != OutOfBounds && cmp.order([x], target) >= 0
    ensures var entries := EncodeHeader(0, 1, TWO_32 - 1) + [x];
            var b := Layout(OneRestart(entries), |entries|, 1);
            NumRestarts(b.data) == 1 && b.Valid() &&
            SeekCursor(b, cmp, target, cur) == Cursor(0, 0, [x], Span(|entries|, TWO_32 - 1), cur.status)
  {
    hide EncodeHeader, HeaderAt, DecodeFixed32, SeekCursor, LowBytes;
    var header := EncodeHeader(0, 1, TWO_32 - 1);
    var b := Layout(OneRestart(header + [x]), |header + [x]|, 1);
    HeaderAtMostFifteen(0, 1, TWO_32 - 1);
    WrappingHeader(0, 1, TWO_32 - 1, [x]);
    assert b.data == header + [x] + (LowBytes(0, 4) + LowBytes(1, 4));
    Middle(header, [x], LowBytes(0, 4) + LowBytes(1, 4));
    FirstEntry(b, cmp, target, cur, Header(0, 1, TWO_32 - 1, |header|));
  }

  /** The block of one such entry is accepted, and so is its entry. */
  lemma WrappingHeader(s: nat, n: nat, v: nat, rest: Bytes)
    requires s < TWO_32 && n < TWO_32 && v < TWO_32 && n + v == TWO_32 && |rest| <= 1
    ensures var entries := EncodeHeader(s, n, v) + rest;
            var b := Layout(OneRestart(entries), |entries|, 1);
            && NumRestarts(b.data) == 1 && b.Valid() && b.RestartPoint(0) == 0 < b.restarts
            && HeaderAt(b.data, 0, b.restarts) == Some(Header(s, n, v, |EncodeHeader(s, n, v)|))
            && |b.data| == |entries| + 8
  {
    hide EncodeHeader, HeaderAt, DecodeFixed32, LowBytes;
    var header := EncodeHeader(s, n, v);
    HeaderAtMostFifteen(s, n, v);
    HeaderAtLeastThree(s, n, v);
    OneRestartIsAccepted(header + rest);
    assert [] + header + (rest + LowBytes(0, 4) + LowBytes(1, 4)) == OneRestart(header + rest);
    HeaderIsAccepted([], s, n, v, rest + LowBytes(0, 4) + LowBytes(1, 4), |header + rest|);
  }

  /** Two entries, each at a restart point: the empty key, and one whose lengths wrap. */
  function TwoRestarts(): Bytes {
    [0, 0, 0] + EncodeHeader(0, TWO_32 - 1, 1) + LowBytes(0, 4) + LowBytes(3, 4) + LowBytes(2, 4)
  }

  function TwoRestartsLayout(): Layout {
    Layout(TwoRestarts(), 3 + |EncodeHeader(0, TWO_32 - 1, 1)|, 2)
  }

  lemma TwoRestartsIsAccepted()
    ensures var b := TwoRestartsLayout();
            && b.numRestarts == 2 && |b.data| == b.restarts + 12
            && NumRestarts(b.data) == 2 && 4 * (1 + NumRestarts(b.data)) <= |b.data|
            && b.Valid() && b.RestartPoint(0) == 0 && b.RestartPoint(1) == 3 < b.restarts
  {
    hide LowBytes, DecodeFixed32, EncodeHeader;
    HeaderAtMostFifteen(0, TWO_32 - 1, 1);
    HeaderAtLeastThree(0, TWO_32 - 1, 1);
    var b := TwoRestartsLayout();
    var n, entries := b.restarts, [0, 0, 0] + EncodeHeader(0, TWO_32 - 1, 1);
    Middle(entries, LowBytes(0, 4), LowBytes(3, 4) + LowBytes(2, 4));
    assert b.data == entries + LowBytes(0, 4) + (LowBytes(3, 4) + LowBytes(2, 4));
    Middle(entries + LowBytes(0, 4), LowBytes(3, 4), LowBytes(2, 4));
    assert b.data[n + 8..n + 8 + 4] == LowBytes(2, 4);
    Fixed32RoundTrip(b.data, n, 0);
    Fixed32RoundTrip(b.data, n + 4, 3);
    Fixed32RoundTrip(b.data, n + 8, 2);
  }

  lemma EmptyHeader()
    ensures EncodeHeader(0, 0, 0) == [0, 0, 0]
  {
  }

  lemma TwoRestartsHeaders()
    ensures var b := TwoRestartsLayout();
            && HeaderAt(b.data, 0, b.restarts) == Some(Header(0, 0, 0, 3))
            && HeaderAt(b.data, 3, b.restarts) == Some(Header(0, TWO_32 - 1, 1, b.restarts))
  {
    hide LowBytes, HeaderAt, EncodeHeader;
    var b, second := TwoRestartsLayout(), EncodeHeader(0, TWO_32 - 1, 1);
    HeaderAtMostFifteen(0, TWO_32 - 1, 1);
    var tail := LowBytes(0, 4) + LowBytes(3, 4) + LowBytes(2, 4);
    EmptyHeader();
    assert [] + [0, 0, 0] + (second + tail) == b.data;
    HeaderIsAccepted([], 0, 0, 0, second + tail, b.restarts);
    assert [0, 0, 0] + second + tail == b.data;
    HeaderIsAccepted([0, 0, 0], 0, TWO_32 - 1, 1, tail, b.restarts);
  }

  /** A key that reaches past the end of the block may be looked at without harm: in this block the
      binary search comes to one, and a bytewise search for the empty string ends on the first
      entry. Every other target leads outside. */
  lemma OnlyEmptyTargetStaysInside(target: Bytes, cur: Cursor)
    requires cur.status != OutOfBounds
    ensures var b := TwoRestartsLayout();
            && NumRestarts(b.data) == 2 && b.Valid()
            && (SeekCursor(b, BytewiseSlices(), target, cur).status == OutOfBounds <==> target != [])
            && (target == [] ==>
                  SeekCursor(b, BytewiseSlices(), target, cur) == Cursor(0, 0, [], Span(3, 0), cur.status))
  {
    hide TwoRestartsLayout, HeaderAt, DecodeFixed32, Parse, ScanParse, Compare, BytewisePeek;
    var b, cmp := TwoRestartsLayout(), BytewiseSlices();
    TwoRestartsIsAccepted();
    TwoRestartsHeaders();
    TwoRestartsNarrows(target);
    FromFirstRestart(target, cur);
    FromSecondRestart(target, cur);
  }

  lemma TwoRestartsNarrows(target: Bytes)
    ensures TwoRestartsLayout().Valid()
    ensures var r := Narrow(TwoRestartsLayout(), BytewiseSlices(), target, 0, 1);
            if target == [] then r == At(0) else r != Failed(Corruption) && r != Failed(Ok)
  {
    hide TwoRestartsLayout, HeaderAt, DecodeFixed32, MemCmp, Readable;
    TwoRestartsIsAccepted();
    TwoRestartsHeaders();
    NarrowStep(TwoRestartsLayout(), BytewiseSlices(), target, 0, 1);
    EmptyMemCmp(Readable(TwoRestartsLayout(), Header(0, TWO_32 - 1, 1, TwoRestartsLayout().restarts)), target);
  }

  lemma EmptyMemCmp(a: Bytes, b: Bytes)
    ensures MemCmp(a, b, 0) == 0
  {
  }

  lemma FromSecondRestart(target: Bytes, cur: Cursor)
    requires cur.status != OutOfBounds
    ensures TwoRestartsLayout().Valid()
    ensures ScanParse(TwoRestartsLayout(), Compare, target, SeekToRestart(TwoRestartsLayout(), cur, 1)).status
         == OutOfBounds
  {
    hide TwoRestartsLayout, HeaderAt, DecodeFixed32, Parse, ScanParse, Compare;
    var b := TwoRestartsLayout();
    TwoRestartsIsAccepted();
    TwoRestartsHeaders();
    var c := SeekToRestart(b, cur, 1);
    ParseWholeKey(b, c, Header(0, TWO_32 - 1, 1, b.restarts));
    ScanStep(b, BytewiseSlices(), target, c);
  }

  /** The first entry parses to the empty key and an empty value. */
  lemma FirstOfTwo(cur: Cursor)
    ensures TwoRestartsLayout().Valid()
    ensures Parse(TwoRestartsLayout(), SeekToRestart(TwoRestartsLayout(), cur, 0))
         == (Cursor(0, 0, [], Span(3, 0), cur.status), true)
  {
    hide TwoRestartsLayout, HeaderAt, DecodeFixed32, Parse, AdvanceRestart;
    var b := TwoRestartsLayout();
    TwoRestartsIsAccepted();
    TwoRestartsHeaders();
    NoAdvance(b);
    ParseWholeKey(b, SeekToRestart(b, cur, 0), Header(0, 0, 0, 3));
    NoPrefix(b.data[3..3]);
  }

  lemma FromFirstRestart(target: Bytes, cur: Cursor)
    requires cur.status != OutOfBounds
    ensures TwoRestartsLayout().Valid()
    ensures var c := ScanParse(TwoRestartsLayout(), Compare, target, SeekToRestart(TwoRestartsLayout(), cur, 0));
            if target == [] then c == Cursor(0, 0, [], Span(3, 0), cur.status) else c.status == OutOfBounds
  {
    hide TwoRestartsLayout, HeaderAt, DecodeFixed32, Parse, ScanParse, AdvanceRestart, Compare;
    var b, next := TwoRestartsLayout(), Cursor(0, 0, [], Span(3, 0), cur.status);
    TwoRestartsIsAccepted();
    FirstOfTwo(cur);
    EmptyKeyFirst(target);
    ScanStep(b, BytewiseSlices(), target, SeekToRestart(b, cur, 0));
    if target != [] {
      TwoRestartsHeaders();
      ParseWholeKey(b, next, Header(0, TWO_32 - 1, 1, b.restarts));
      ScanStep(b, BytewiseSlices(), target, next);
    }
  }

  lemma NoAdvance(b: Layout)
    requires b.Valid()
    ensures AdvanceRestart(b, 0, 0) == 0
  {
    hide DecodeFixed32;
  }

  lemma EmptyKeyFirst(target: Bytes)
    ensures Compare([], target) == if target == [] then 0 else -1
  {
  }

  // ---------- the whole block ----------

  lemma {:induction false} EntriesPrefix(entries: seq<Entry>, shared: seq<nat>, i: nat, n: nat)
    requires i <= n && SharedFits(entries, shared, n)
    ensures EncodeEntries(entries, shared, i) <= EncodeEntries(entries, shared, n)
  {
    hide EncodeEntry;
    if i < n {
      EntriesPrefix(entries, shared, i, n - 1);
    }
  }

  lemma {:induction false} Fixed32At(values: seq<nat>, j: nat)
    requires j < |values|
    ensures Fixed32s(values)[4 * j..4 * j + 4] == LowBytes(values[j], 4)
  {
    hide LowBytes;
    var init := values[..|values| - 1];
    if j < |init| {
      Fixed32At(init, j);
      assert Fixed32s(values)[4 * j..4 * j + 4] == Fixed32s(init)[4 * j..4 * j + 4];
    }
  }

  ghost function BlockLayout(entries: seq<Entry>, shared: seq<nat>, points: seq<nat>): Layout
    requires ValidPlan(entries, shared, points)
  {
    Layout(EncodeBlock(entries, shared, points), |EncodeEntries(entries, shared, |entries|)|, |points|)
  }

  /** A key is no longer than the entries up to it. */
  lemma {:induction false} KeyBelowSize(entries: seq<Entry>, shared: seq<nat>, i: nat)
    requires i < |entries| && SharedFits(entries, shared, |entries|)
    requires forall j :: 0 <= j <= i ==> ShareOk(entries, shared, j)
    ensures |entries[i].key| <= |EncodeEntries(entries, shared, i + 1)|
  {
    hide EncodeEntry;
    assert ShareOk(entries, shared, i);
    EntrySize(entries[i], shared[i]);
    if i > 0 {
      KeyBelowSize(entries, shared, i - 1);
    }
  }

  ghost function BlockContents(entries: seq<Entry>, shared: seq<nat>, points: seq<nat>): Contents
    requires SharedFits(entries, shared, |entries|)
  {
    Contents(entries, Offsets(entries, shared), shared, points)
  }

  lemma LayoutIsValid(entries: seq<Entry>, shared: seq<nat>, points: seq<nat>)
    requires ValidPlan(entries, shared, points) && |EncodeBlock(entries, shared, points)| < TWO_32
    ensures BlockLayout(entries, shared, points).Valid() && SharedFits(entries, shared, |entries|)
    ensures EncodeEntries(entries, shared, |entries|) <= BlockLayout(entries, shared, points).data
  {
    hide EncodeEntries, Fixed32s, LowBytes, ShareOk;
  }

  /** Where entry i stands in the block. */
  lemma EntryPlace(entries: seq<Entry>, shared: seq<nat>, i: nat, data: Bytes) returns (suffix: Bytes)
    requires SharedFits(entries, shared, |entries|) && i < |entries|
    requires EncodeEntries(entries, shared, |entries|) <= data
    ensures data == EncodeEntries(entries, shared, i) + EncodeEntry(entries[i], shared[i]) + suffix
    ensures EncodeEntries(entries, shared, i + 1) ==
            EncodeEntries(entries, shared, i) + EncodeEntry(entries[i], shared[i])
    ensures |EncodeEntries(entries, shared, i + 1)| <= |EncodeEntries(entries, shared, |entries|)|
  {
    hide EncodeEntry;
    EntriesPrefix(entries, shared, i + 1, |entries|);
    suffix := data[|EncodeEntries(entries, shared, i + 1)|..];
  }

  lemma EntryIsStored(entries: seq<Entry>, shared: seq<nat>, points: seq<nat>, i: nat)
    requires ValidPlan(entries, shared, points) && |EncodeBlock(entries, shared, points)| < TWO_32 && i < |entries|
    ensures BlockLayout(entries, shared, points).Valid()
    ensures EntryStored(BlockLayout(entries, shared, points), BlockContents(entries, shared, points), i)
  {
    hide EncodeBlock, EncodeEntries, EncodeEntry, HeaderAt;
    var b := BlockLayout(entries, shared, points);
    var e, s := entries[i], shared[i];
    LayoutIsValid(entries, shared, points);
    assert ShareOk(entries, shared, i);
    KeyBelowSize(entries, shared, i);
    var suffix := EntryPlace(entries, shared, i, b.data);
    EntrySize(e, s);
    EntryRoundTrip(EncodeEntries(entries, shared, i), e, s, suffix, b.restarts);
  }

  lemma PointsAreStored(entries: seq<Entry>, shared: seq<nat>, points: seq<nat>)
    requires ValidPlan(entries, shared, points) && |EncodeBlock(entries, shared, points)| < TWO_32
    ensures BlockLayout(entries, shared, points).Valid()
    ensures PointsOk(BlockLayout(entries, shared, points), BlockContents(entries, shared, points))
  {
    hide EncodeEntry, Fixed32s, LowBytes, DecodeFixed32, EncodeEntries;
    var b, offs := BlockLayout(entries, shared, points), RestartOffsets(entries, shared, points);
    forall i | 0 <= i < |points|
      ensures points[i] <= |entries| && b.RestartPoint(i) == Offsets(entries, shared)[points[i]]
    {
      var p := b.restarts + 4 * i;
      Fixed32At(offs, i);
      assert b.data[p..p + 4] == Fixed32s(offs)[4 * i..4 * i + 4];
      EntriesPrefix(entries, shared, points[i], |entries|);
      assert offs[i] == |EncodeEntries(entries, shared, points[i])| <= b.restarts;
      Fixed32RoundTrip(b.data, p, offs[i]);
    }
  }

  /** Every plan encodes to a block that the Block constructor accepts and that is well formed
      with exactly the given entries. */
  lemma EncodedBlockIsWellFormed(entries: seq<Entry>, shared: seq<nat>, points: seq<nat>)
    requires ValidPlan(entries, shared, points) && |EncodeBlock(entries, shared, points)| < TWO_32
    ensures var data := EncodeBlock(entries, shared, points);
            |data| >= 4 && NumRestarts(data) == |points| && 4 * (1 + NumRestarts(data)) <= |data|
    ensures WellFormed(BlockLayout(entries, shared, points), BlockContents(entries, shared, points))
  {
    hide EncodeEntries, Fixed32s, LowBytes, DecodeFixed32, EntryStored, PointsOk;
    var data := EncodeBlock(entries, shared, points);
    assert data[|data| - 4..|data| - 4 + 4] == LowBytes(|points|, 4);
    Fixed32RoundTrip(data, |data| - 4, |points|);
    PointsAreStored(entries, shared, points);
    NoEntries(entries, shared);
    forall i | 0 <= i < |entries|
      ensures EntryStored(BlockLayout(entries, shared, points), BlockContents(entries, shared, points), i)
    {
      EntryIsStored(entries, shared, points, i);
    }
  }

  lemma NoEntries(entries: seq<Entry>, shared: seq<nat>)
    requires SharedFits(entries, shared, 0)
    ensures EncodeEntries(entries, shared, 0) == []
  {
  }

  /** Round trip: a search over the encoding of sorted entries finds what a linear scan of the
      entries finds. */
  lemma SeekInEncodedBlock(entries: seq<Entry>, shared: seq<nat>, points: seq<nat>, cmp: SliceComparator,
                           target: Bytes, cur: Cursor)
    requires ValidPlan(entries, shared, points) && |EncodeBlock(entries, shared, points)| < TWO_32
    requires Coherent(cmp) && Transitive(cmp.order) && Sorted(cmp.order, entries) && cur.status != OutOfBounds
    ensures var b := BlockLayout(entries, shared, points);
            var found := (EncodedBlockIsWellFormed(entries, shared, points); SeekCursor(b, cmp, target, cur));
            var k := LinearScan(cmp.order, entries, target);
            if k < |entries| then
              && found.key == entries[k].key && found.value.Span?
              && SliceEnd(found.value) <= |b.data|
              && b.data[found.value.offset..SliceEnd(found.value)] == entries[k].value
            else found.current == b.restarts
  {
    hide WellFormed, BlockLayout, SeekCursor;
    EncodedBlockIsWellFormed(entries, shared, points);
    var b, c := BlockLayout(entries, shared, points), BlockContents(entries, shared, points);
    SeekRefinesLinearScan(b, c, cmp, target, cur);
  }
}
