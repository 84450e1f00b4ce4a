/** Byte-string order and key shortening (db/Slice.cpp, db/Comparator.cpp). */
module Comparator {
  import opened Coding
  import opened Wrappers

  // ---------- the order ----------

  /** An implementation of Comparator::Compare. */
  type Order = (Bytes, Bytes) -> int

  /** What the interface promises of Compare: the sign of a total order. */
  ghost predicate TotalOrder(order: Order) {
    && (forall a, b :: order(a, b) < 0 <==> order(b, a) > 0)
    && (forall a, b, c :: order(a, b) <= 0 && order(b, c) <= 0 ==> order(a, c) <= 0)
  }

  /** An implementation of the interface; what the last two return is what they leave in the
      string they edit. */
  datatype UserComparator = UserComparator(
    compare: Order, separator: (Bytes, Bytes) -> Bytes, successor: Bytes -> Bytes)

  /** Everything the interface promises. Of a separator it says nothing unless start < limit. */
  ghost predicate KeepsPromise(c: UserComparator) {
    && TotalOrder(c.compare)
    && (forall start, limit :: c.compare(start, limit) < 0 ==>
          c.compare(start, c.separator(start, limit)) <= 0 && c.compare(c.separator(start, limit), limit) < 0)
    && (forall key :: c.compare(key, c.successor(key)) <= 0)
  }

  /** memcmp over the first n bytes: the difference at the first byte that differs. */
  function MemCmp(a: Bytes, b: Bytes, n: nat): int
    requires n <= |a| && n <= |b|
  {
    if n == 0 then 0 else if a[0] != b[0] then a[0] as int - b[0] as int else MemCmp(a[1..], b[1..], n - 1)
  }

  /** Slice::Compare */
  function Compare(a: Bytes, b: Bytes): int {
    var minLen := if |a| < |b| then |a| else |b|;
    var cmp := MemCmp(a, b, minLen);
    if cmp == 0 then if |a| < |b| then -1 else if |a| > |b| then 1 else 0
    else cmp
  }

  /** a and b agree on their first k bytes, and there a ends or has the smaller byte. */
  ghost predicate LessAt(a: Bytes, b: Bytes, k: nat) {
    k <= |a| && k < |b| && a[..k] == b[..k] && (k == |a| || a[k] < b[k])
  }

  /** Lexicographic order, a proper prefix first. */
  ghost predicate Less(a: Bytes, b: Bytes) {
    exists k: nat :: LessAt(a, b, k)
  }

  lemma LessCons(x: Byte, a: Bytes, b: Bytes)
    ensures Less([x] + a, [x] + b) <==> Less(a, b)
  {
    if k: nat :| LessAt(a, b, k) {
      assert ([x] + a)[..k + 1] == [x] + a[..k] && ([x] + b)[..k + 1] == [x] + b[..k];
      assert LessAt([x] + a, [x] + b, k + 1);
    }
    if k: nat :| LessAt([x] + a, [x] + b, k) {
      assert k > 0;
      assert a[..k - 1] == ([x] + a)[..k][1..] && b[..k - 1] == ([x] + b)[..k][1..];
      assert LessAt(a, b, k - 1);
    }
  }

  lemma LessByFirst(a: Bytes, b: Bytes)
    requires a == [] || b == [] || a[0] != b[0]
    ensures Less(a, b) <==> b != [] && (a == [] || a[0] < b[0])
  {
    if b != [] && (a == [] || a[0] < b[0]) {
      assert LessAt(a, b, 0);
    }
    assert forall k: nat :: LessAt(a, b, k) ==> k == 0;
  }

  /** Compare decides the lexicographic order. */
  lemma {:induction false} CompareDecides(a: Bytes, b: Bytes)
    ensures Compare(a, b) < 0 <==> Less(a, b)
    ensures Compare(a, b) > 0 <==> Less(b, a)
    ensures Compare(a, b) == 0 <==> a == b
    decreases |a|
  {
    if a == [] || b == [] || a[0] != b[0] {
      LessByFirst(a, b);
      LessByFirst(b, a);
    } else {
      assert a == [a[0]] + a[1..] && b == [a[0]] + b[1..];
      CompareDecides(a[1..], b[1..]);
      LessCons(a[0], a[1..], b[1..]);
      LessCons(a[0], b[1..], a[1..]);
    }
  }

  lemma LessTransitive(a: Bytes, b: Bytes, c: Bytes)
    requires Less(a, b) && Less(b, c)
    ensures Less(a, c)
  {
    var j: nat :| LessAt(a, b, j);
    var k: nat :| LessAt(b, c, k);
    var m := if j < k then j else k;
    assert a[..j][..m] == a[..m] && b[..j][..m] == b[..m] && b[..k][..m] == b[..m] && c[..k][..m] == c[..m];
    assert LessAt(a, c, m) by {
      if j < k {
        assert b[..k][j] == c[..k][j];
      } else if k < j {
        assert a[..j][k] == b[..j][k];
      }
    }
  }

  // ---------- slices that reach past what can be read ----------

  /** What Compare finds for a slice of n bytes, of which those given, the first ones, can be read:
      None if it reads on. */
  type Peek = (Bytes, nat, Bytes) -> Option<int>

  /** A comparator together with what it reads of its first argument. */
  datatype SliceComparator = SliceComparator(order: Order, peek: Peek)

  /** With the whole slice it finds the order, and more bytes do not change what it found. */
  ghost predicate Coherent(c: SliceComparator) {
    && (forall key, target :: c.peek(key, |key|, target) == Some(c.order(key, target)))
    && (forall readable, more, n: nat, target :: |readable| + |more| <= n && c.peek(readable, n, target).Some? ==>
          c.peek(readable + more, n, target) == c.peek(readable, n, target))
  }

  /** So what it finds is right whatever the rest of the slice holds. */
  lemma PeekIsOrder(c: SliceComparator, readable: Bytes, rest: Bytes, target: Bytes)
    requires Coherent(c) && c.peek(readable, |readable + rest|, target).Some?
    ensures c.peek(readable, |readable + rest|, target) == Some(c.order(readable + rest, target))
  {
    assert c.peek(readable + rest, |readable + rest|, target) == c.peek(readable, |readable + rest|, target);
  }

  /** Slice::Compare: memcmp reads as many bytes as the shorter slice has. */
  function BytewisePeek(readable: Bytes, n: nat, target: Bytes): Option<int> {
    var minLen := if n < |target| then n else |target|;
    if minLen > |readable| then None
    else
      var cmp := MemCmp(readable, target, minLen);
      Some(if cmp == 0 then if n < |target| then -1 else if n > |target| then 1 else 0 else cmp)
  }

  function BytewiseSlices(): SliceComparator {
    SliceComparator(Compare, BytewisePeek)
  }

  lemma {:induction false} MemCmpLocal(a: Bytes, more: Bytes, t: Bytes, n: nat)
    requires n <= |a| && n <= |t|
    ensures MemCmp(a + more, t, n) == MemCmp(a, t, n)
  {
    if n > 0 {
      assert (a + more)[1..] == a[1..] + more;
      MemCmpLocal(a[1..], more, t[1..], n - 1);
    }
  }

  lemma BytewiseIsCoherent()
    ensures Coherent(BytewiseSlices())
  {
    hide MemCmp;
    forall readable, more, n: nat, target | |readable| + |more| <= n && BytewisePeek(readable, n, target).Some?
      ensures BytewisePeek(readable + more, n, target) == BytewisePeek(readable, n, target)
    {
      MemCmpLocal(readable, more, target, if n < |target| then n else |target|);
    }
  }

  // ---------- shortening ----------

  lemma DiffIsLess(a: Bytes, b: Bytes, d: nat)
    requires d < |a| && d < |b| && a[..d] == b[..d] && a[d] < b[d]
    ensures Compare(a, b) < 0
  {
    assert LessAt(a, b, d);
    CompareDecides(a, b);
  }

  /** start and limit first differ at d, with room for another byte between theirs. */
  ghost predicate CanShortenAt(start: Bytes, limit: Bytes, d: nat) {
    d < |start| && d < |limit| && start[..d] == limit[..d] && start[d] as int + 1 < limit[d] as int
  }

  /** Where a and b first differ, or where the shorter one ends. */
  function DiffIndex(a: Bytes, b: Bytes): (d: nat)
    ensures d <= |a| && d <= |b| && (d < |a| && d < |b| ==> a[d] != b[d])
  {
    if a == [] || b == [] || a[0] != b[0] then 0 else 1 + DiffIndex(a[1..], b[1..])
  }

  lemma {:induction false} DiffIndexIs(a: Bytes, b: Bytes, d: nat)
    requires d <= |a| && d <= |b| && a[..d] == b[..d]
    requires d == |a| || d == |b| || a[d] != b[d]
    ensures DiffIndex(a, b) == d
  {
    if d > 0 {
      assert a[..d][0] == b[..d][0];
      assert a[1..][..d - 1] == a[..d][1..] && b[1..][..d - 1] == b[..d][1..];
      DiffIndexIs(a[1..], b[1..], d - 1);
    }
  }

  lemma {:induction false} DiffIndexPrefix(a: Bytes, b: Bytes)
    ensures var d := DiffIndex(a, b); a[..d] == b[..d]
  {
    var d := DiffIndex(a, b);
    if d > 0 {
      DiffIndexPrefix(a[1..], b[1..]);
      assert a[..d] == [a[0]] + a[1..][..d - 1] && b[..d] == [b[0]] + b[1..][..d - 1];
    }
  }

  /** Raise the first byte that differs, if there is room, and cut behind it. */
  function Separator(start: Bytes, limit: Bytes): Bytes {
    var d := DiffIndex(start, limit);
    if d < |start| && d < |limit| && start[d] as int + 1 < limit[d] as int then start[..d] + [start[d] + 1]
    else start
  }

  /** A string from start up to but not including limit, for any two strings, shortened exactly
      when there is room. */
  lemma SeparatorSeparates(start: Bytes, limit: Bytes)
    ensures var r := Separator(start, limit);
            && (r == start || (Compare(start, r) < 0 && Compare(r, limit) < 0 && |r| <= |start|))
            && (r != start <==> exists d: nat :: CanShortenAt(start, limit, d))
            && (forall d: nat :: CanShortenAt(start, limit, d) ==> |r| == d + 1)
            && (r != start ==> forall t :: Compare(start, t) <= 0 && Compare(t, limit) < 0 ==> |r| <= |t|)
  {
    hide DiffIndex;
    var d, r := DiffIndex(start, limit), Separator(start, limit);
    DiffIndexPrefix(start, limit);
    forall e: nat | CanShortenAt(start, limit, e) ensures e == d {
      DiffIndexIs(start, limit, e);
    }
    if CanShortenAt(start, limit, d) {
      hide Compare;
      assert r[d] != start[d];
      assert r[..d] == start[..d];
      DiffIsLess(start, r, d);
      DiffIsLess(r, limit, d);
      forall t | Compare(start, t) <= 0 && Compare(t, limit) < 0 ensures |r| <= |t| {
        SeparatorsAreLonger(start, limit, d, t);
      }
    }
  }

  /** a is before t, both first differ at d or later, and r is a cut behind d with its byte there
      raised by one: nothing as short as r lies between a and r. */
  lemma RaisedIsLeast(a: Bytes, d: nat, r: Bytes, t: Bytes)
    requires d < |a| && a[d] < 255 && r == a[..d] + [a[d] + 1]
    requires Compare(a, t) < 0 && |t| <= |r|
    ensures Compare(r, t) <= 0
  {
    CompareDecides(a, t);
    CompareDecides(r, t);
    var k: nat :| LessAt(a, t, k);
    if k < d {
      assert r[..k] == a[..k] && r[k] == a[k];
      assert LessAt(r, t, k);
    } else {
      assert t[..d] == a[..k][..d] == a[..d] == r[..d];
      if t[d] == r[d] {
        assert t == t[..d] + [t[d]] && r == r[..d] + [r[d]];
      } else {
        assert LessAt(r, t, d);
      }
    }
  }

  /** Of the strings between start and limit that are no longer than the separator, it is the least. */
  lemma SeparatorIsLeast(start: Bytes, limit: Bytes, t: Bytes)
    requires Separator(start, limit) != start
    requires Compare(start, t) < 0 && Compare(t, limit) < 0 && |t| <= |Separator(start, limit)|
    ensures Compare(Separator(start, limit), t) <= 0
  {
    hide Compare, DiffIndex;
    RaisedIsLeast(start, DiffIndex(start, limit), Separator(start, limit), t);
  }

  /** Of the strings after key that are no longer than the successor, it is the least. */
  lemma SuccessorIsLeast(key: Bytes, t: Bytes)
    requires Successor(key) != key
    requires Compare(key, t) < 0 && |t| <= |Successor(key)|
    ensures Compare(Successor(key), t) <= 0
  {
    hide Compare, Successor;
    var i := FirstRaisable(key);
    SuccessorIs(key, i);
    RaisedIsLeast(key, i, Successor(key), t);
  }

  /** The assertion of the source holds whenever it is reached. */
  method FindShortestSeparator(start: Bytes, limit: Bytes) returns (r: Bytes)
    ensures r == Separator(start, limit)
    ensures r == start || (Compare(start, r) < 0 && Compare(r, limit) < 0 && |r| <= |start|)
    ensures r != start <==> exists d: nat :: CanShortenAt(start, limit, d)
    ensures forall d: nat :: CanShortenAt(start, limit, d) ==> |r| == d + 1
    ensures r != start ==> forall t :: Compare(start, t) <= 0 && Compare(t, limit) < 0 ==> |r| <= |t|
  {
    hide DiffIndex, Compare, CanShortenAt;
    SeparatorSeparates(start, limit);
    var minLength := if |start| < |limit| then |start| else |limit|;
    var diffIndex := 0;
    while diffIndex < minLength && start[diffIndex] == limit[diffIndex]
      invariant diffIndex <= minLength && start[..diffIndex] == limit[..diffIndex]
    {
      diffIndex := diffIndex + 1;
    }
    DiffIndexIs(start, limit, diffIndex);
    r := start;
    if diffIndex >= minLength {
      // one string is a prefix of the other
    } else {
      var diffByte: int := start[diffIndex];
      if diffByte < 0xff && diffByte + 1 < limit[diffIndex] {
        r := r[diffIndex := diffByte + 1];
        r := r[..diffIndex + 1];
        assert r == start[..diffIndex] + [start[diffIndex] + 1];
        assert Compare(r, limit) < 0;
      }
    }
  }

  /** Strings between two strings that first differ at d have more than d bytes. */
  lemma SeparatorsAreLonger(start: Bytes, limit: Bytes, d: nat, t: Bytes)
    requires d < |start| && d < |limit| && start[..d] == limit[..d]
    requires Compare(start, t) <= 0 && Compare(t, limit) < 0
    ensures d < |t|
  {
    CompareDecides(start, t);
    CompareDecides(t, limit);
    if |t| <= d {
      var k: nat :| LessAt(t, limit, k);
      assert start[..k] == start[..d][..k] == limit[..d][..k] == limit[..k];
      assert k < d ==> start[..d][k] == limit[..d][k];
      assert LessAt(t, start, k);
      LessAsymmetric(t, start);
    }
  }

  lemma LessAsymmetric(a: Bytes, b: Bytes)
    requires Less(a, b)
    ensures !Less(b, a) && a != b
  {
    CompareDecides(a, b);
  }

  /** Raise the first byte that is not 0xff, and cut behind it. */
  function Successor(key: Bytes): Bytes {
    if key == [] then []
    else if key[0] == 0xff then [key[0]] + Successor(key[1..])
    else [key[0] + 1]
  }

  lemma SuccessorStep(key: Bytes)
    ensures key == [] ==> Successor(key) == key
    ensures key != [] && key[0] != 0xff ==> Successor(key) == key[..0] + [key[0] + 1]
    ensures key != [] && key[0] == 0xff ==> Successor(key) == [key[0]] + Successor(key[1..])
  {
  }

  lemma {:induction false} SuccessorIs(key: Bytes, i: nat)
    requires i <= |key| && forall j :: 0 <= j < i ==> key[j] == 0xff
    ensures i == |key| ==> Successor(key) == key
    ensures i < |key| && key[i] != 0xff ==> Successor(key) == key[..i] + [key[i] + 1]
  {
    hide Successor;
    SuccessorStep(key);
    if i > 0 {
      SuccessorIs(key[1..], i - 1);
      assert key == [key[0]] + key[1..];
      assert key[..i] == [key[0]] + key[1..][..i - 1];
    }
  }

  /** A string at or after key, and among those as short as any. */
  method FindShortSuccessor(key: Bytes) returns (r: Bytes)
    ensures r == Successor(key)
    ensures r == key || (Compare(key, r) < 0 && |r| <= |key|)
    ensures r == key <==> forall i :: 0 <= i < |key| ==> key[i] == 0xff
    ensures |r| < |key| <==> exists i :: 0 <= i < |key| - 1 && key[i] != 0xff
    ensures forall t :: Compare(key, t) <= 0 ==> |r| <= |t|
  {
    hide Successor, Compare;
    SuccessorSucceeds(key);
    var n := |key|;
    for i := 0 to n
      invariant forall j :: 0 <= j < i ==> key[j] == 0xff
    {
      var byte: int := key[i];
      if byte != 0xff {
        SuccessorIs(key, i);
        r := key[i := byte + 1];
        r := r[..i + 1];
        assert r == key[..i] + [key[i] + 1];
        return;
      }
    }
    SuccessorIs(key, n);
    r := key;
  }

  lemma SuccessorSucceeds(key: Bytes)
    ensures var r := Successor(key);
            && (r == key || (Compare(key, r) < 0 && |r| <= |key|))
            && (r == key <==> forall i :: 0 <= i < |key| ==> key[i] == 0xff)
            && (|r| < |key| <==> exists i :: 0 <= i < |key| - 1 && key[i] != 0xff)
            && (forall t :: Compare(key, t) <= 0 ==> |r| <= |t|)
  {
    hide Successor, Compare;
    var i := FirstRaisable(key);
    SuccessorIs(key, i);
    var r := Successor(key);
    if i < |key| {
      assert r[..i] == key[..i];
      DiffIsLess(key, r, i);
      forall t | Compare(key, t) <= 0 ensures |r| <= |t| {
        SuccessorsAreLonger(key, i, t);
      }
    } else {
      forall t | Compare(key, t) <= 0 ensures |r| <= |t| {
        if key != [] {
          SuccessorsAreLonger(key, |key| - 1, t);
        }
      }
    }
  }

  function FirstRaisable(key: Bytes): (i: nat)
    ensures i <= |key| && (i < |key| ==> key[i] != 0xff)
    ensures forall j :: 0 <= j < i ==> key[j] == 0xff
  {
    if key == [] || key[0] != 0xff then 0 else 1 + FirstRaisable(key[1..])
  }

  /** Strings at or after a key that begins with d bytes 0xff, and goes on, have more than d bytes. */
  lemma SuccessorsAreLonger(key: Bytes, d: nat, t: Bytes)
    requires d < |key| && (forall i :: 0 <= i < d ==> key[i] == 0xff) && Compare(key, t) <= 0
    ensures d < |t|
  {
    CompareDecides(key, t);
    if key != t {
      var k: nat :| LessAt(key, t, k);
      assert k >= d;
    }
  }

  // ---------- the bytewise comparator ----------

  function Bytewise(): UserComparator {
    UserComparator(Compare, Separator, Successor)
  }

  lemma BytewiseIsTotalOrder()
    ensures TotalOrder(Compare)
  {
    forall a, b
      ensures Compare(a, b) < 0 <==> Compare(b, a) > 0
    {
      CompareDecides(a, b);
      CompareDecides(b, a);
    }
    forall a, b, c | Compare(a, b) <= 0 && Compare(b, c) <= 0
      ensures Compare(a, c) <= 0
    {
      CompareDecides(a, b);
      CompareDecides(b, c);
      CompareDecides(a, c);
      if a != b && b != c {
        LessTransitive(a, b, c);
      }
    }
  }

  /** The bytewise comparator keeps everything the interface promises. */
  lemma BytewiseKeepsPromise()
    ensures KeepsPromise(Bytewise())
  {
    hide Compare, Separator, Successor;
    BytewiseIsTotalOrder();
    forall start, limit | Compare(start, limit) < 0
      ensures Compare(start, Separator(start, limit)) <= 0 && Compare(Separator(start, limit), limit) < 0
    {
      SeparatorSeparates(start, limit);
      CompareDecides(start, start);
    }
    forall key ensures Compare(key, Successor(key)) <= 0 {
      SuccessorSucceeds(key);
      CompareDecides(key, key);
    }
  }
}
