/** Internal keys: a user key followed by eight bytes that hold a sequence number and a value
    type (db/DBFormat.h, db/DBFormat.cpp). */
module DBFormat {
  import opened Arithmetic
  import opened Coding
  import opened Wrappers
  import Block
  import opened Comparator

  const MAX_SEQUENCE_NUMBER: nat := 0xff_ffff_ffff_ffff

  const TYPE_DELETION: nat := 0
  const TYPE_VALUE: nat := 1
  const VALUE_TYPE_FOR_SEEK: nat := TYPE_VALUE

  /** valueType is a byte cast to an enumeration: after parsing it may be any byte. */
  datatype ParsedInternalKey = ParsedInternalKey(userKey: Bytes, sequence: nat, valueType: nat)

  /** What AppendInternalKey may be given. */
  ghost predicate ValidKey(k: ParsedInternalKey) {
    k.sequence <= MAX_SEQUENCE_NUMBER && k.valueType <= VALUE_TYPE_FOR_SEEK
  }

  function PackSequenceAndType(sequence: nat, valueType: nat): (r: nat)
    requires sequence <= MAX_SEQUENCE_NUMBER && valueType <= VALUE_TYPE_FOR_SEEK
  {
    BitOr(ShiftLeft(sequence, 8), valueType)
  }

  lemma PackedValue(sequence: nat, valueType: nat)
    requires sequence <= MAX_SEQUENCE_NUMBER && valueType <= VALUE_TYPE_FOR_SEEK
    ensures PackSequenceAndType(sequence, valueType) == 256 * sequence + valueType < TWO_64
  {
    hide BitOr, Pow2;
    Pow2Values();
    BitOrCommutes(ShiftLeft(sequence, 8), valueType);
    BitOrDisjoint(valueType, sequence, 8);
  }

  ghost function Encode(k: ParsedInternalKey): Bytes
    requires ValidKey(k)
  {
    k.userKey + Fixed64(PackSequenceAndType(k.sequence, k.valueType))
  }

  method AppendInternalKey(result: Bytes, key: ParsedInternalKey) returns (r: Bytes)
    requires ValidKey(key)
    ensures r == result + Encode(key)
  {
    PackedValue(key.sequence, key.valueType);
    r := result + key.userKey;
    r := PutFixed64(r, PackSequenceAndType(key.sequence, key.valueType));
  }

  function ExtractUserKey(internalKey: Bytes): Bytes
    requires |internalKey| >= 8
  {
    internalKey[..|internalKey| - 8]
  }

  /** The packed number in the last eight bytes. */
  function Number(internalKey: Bytes): nat
    requires |internalKey| >= 8
  {
    DecodeFixed64(internalKey, |internalKey| - 8)
  }

  function ExtractValueType(internalKey: Bytes): nat
    requires |internalKey| >= 8
  {
    Number(internalKey) % 256
  }

  function ParseInternalKey(internalKey: Bytes): Option<ParsedInternalKey> {
    if |internalKey| < 8 then None
    else
      var num := Number(internalKey);
      Some(ParsedInternalKey(ExtractUserKey(internalKey), num / 256, num % 256))
  }

  /** Parsing undoes encoding, for every user key, every sequence number and both types. */
  lemma ParseEncoded(k: ParsedInternalKey)
    requires ValidKey(k)
    ensures |Encode(k)| == |k.userKey| + 8
    ensures ParseInternalKey(Encode(k)) == Some(k) && ExtractValueType(Encode(k)) == k.valueType
    ensures ExtractUserKey(Encode(k)) == k.userKey && Number(Encode(k)) == 256 * k.sequence + k.valueType
  {
    hide DecodeFixed64, PackSequenceAndType;
    PackedValue(k.sequence, k.valueType);
    var n := PackSequenceAndType(k.sequence, k.valueType);
    Fixed64RoundTrip(k.userKey, n, []);
    assert k.userKey + Fixed64(n) + [] == Encode(k);
  }

  /** Whatever parses is the encoding of what it parses to, if its type is one of the two. */
  lemma EncodeParsed(internalKey: Bytes)
    requires |internalKey| >= 8
    ensures var k := ParseInternalKey(internalKey).value;
            k.sequence <= MAX_SEQUENCE_NUMBER && (k.valueType <= VALUE_TYPE_FOR_SEEK ==> Encode(k) == internalKey)
  {
    hide DecodeFixed64, PackSequenceAndType;
    var k, p := ParseInternalKey(internalKey).value, |internalKey| - 8;
    DecodeFixed64IsLittleEndian(internalKey, p);
    if k.valueType <= VALUE_TYPE_FOR_SEEK {
      PackedValue(k.sequence, k.valueType);
      DecodedBytesRoundTrip(internalKey, p);
      assert internalKey == internalKey[..p] + internalKey[p..p + 8];
    }
  }

  // ---------- the order ----------

  /** InternalKeyComparator::Compare */
  function InternalCompare(order: Order, a: Bytes, b: Bytes): int
    requires |a| >= 8 && |b| >= 8
  {
    var result := order(ExtractUserKey(a), ExtractUserKey(b));
    if result == 0 then
      if Number(a) > Number(b) then -1 else if Number(a) < Number(b) then 1 else result
    else result
  }

  /** Ascending user key, then descending sequence number, then descending type. */
  ghost predicate KeyLess(order: Order, a: ParsedInternalKey, b: ParsedInternalKey) {
    || order(a.userKey, b.userKey) < 0
    || (order(a.userKey, b.userKey) == 0 &&
        (a.sequence > b.sequence || (a.sequence == b.sequence && a.valueType > b.valueType)))
  }

  /** On any two internal keys, also ones with a type byte that is no type, Compare is the
      documented order of what they parse to. */
  lemma CompareIsKeyOrder(order: Order, a: Bytes, b: Bytes)
    requires TotalOrder(order) && |a| >= 8 && |b| >= 8
    ensures var x, y := ParseInternalKey(a).value, ParseInternalKey(b).value;
            && (InternalCompare(order, a, b) < 0 <==> KeyLess(order, x, y))
            && (InternalCompare(order, a, b) > 0 <==> KeyLess(order, y, x))
            && (InternalCompare(order, a, b) == 0 <==>
                  order(x.userKey, y.userKey) == 0 && x.sequence == y.sequence && x.valueType == y.valueType)
  {
    hide DecodeFixed64;
  }

  lemma InternalOrderIsTotal(order: Order, a: Bytes, b: Bytes, c: Bytes)
    requires TotalOrder(order) && |a| >= 8 && |b| >= 8 && |c| >= 8
    ensures InternalCompare(order, a, b) < 0 <==> InternalCompare(order, b, a) > 0
    ensures InternalCompare(order, a, b) <= 0 && InternalCompare(order, b, c) <= 0 ==> InternalCompare(order, a, c) <= 0
    ensures InternalCompare(order, a, b) < 0 && InternalCompare(order, b, c) <= 0 ==> InternalCompare(order, a, c) < 0
    ensures InternalCompare(order, a, b) <= 0 && InternalCompare(order, b, c) < 0 ==> InternalCompare(order, a, c) < 0
  {
    hide DecodeFixed64;
  }

  /** So blocks sorted bytewise can be searched (Block.SeekRefinesLinearScan). */
  lemma BytewiseIsTransitive()
    ensures Block.Transitive(Compare)
  {
    hide Compare;
    forall x, y, z | Compare(x, y) < 0 && Compare(y, z) < 0 ensures Compare(x, z) < 0 {
      CompareDecides(x, y);
      CompareDecides(y, z);
      LessTransitive(x, y, z);
      CompareDecides(x, z);
    }
  }

  // ---------- blocks of internal keys ----------

  /** How keys compare of which one has no room for a number. */
  function ShortOrder(m: nat, n: nat): int {
    if m < 8 && n < 8 then 0 else if m < 8 then -1 else 1
  }

  /** Compare on all strings: shorter ones, against which the source asserts, stand before all keys. */
  function InternalOrder(order: Order): Order {
    (a: Bytes, b: Bytes) => if |a| < 8 || |b| < 8 then ShortOrder(|a|, |b|) else InternalCompare(order, a, b)
  }

  function CompareNumbers(a: Bytes, b: Bytes): int
    requires |a| >= 8 && |b| >= 8
  {
    if Number(a) > Number(b) then -1 else if Number(a) < Number(b) then 1 else 0
  }

  /** What Compare reads of a slice: what the user comparator reads of the user key, and the number
      at the end if the user keys are equal. */
  function InternalPeek(user: SliceComparator, readable: Bytes, n: nat, target: Bytes): Option<int> {
    if n < 8 || |target| < 8 then Some(ShortOrder(n, |target|))
    else
      match user.peek(if |readable| <= n - 8 then readable else readable[..n - 8], n - 8, ExtractUserKey(target))
      case None => None
      case Some(result) =>
        if result != 0 then Some(result)
        else if |readable| < n then None
        else Some(CompareNumbers(readable[..n], target))
  }

  function InternalSlices(user: SliceComparator): SliceComparator {
    SliceComparator(InternalOrder(user.order), (readable: Bytes, n: nat, target: Bytes) =>
      InternalPeek(user, readable, n, target))
  }

  /** The internal order is total on all strings, for every total user order. */
  lemma InternalOrderIsTotalOrder(order: Order)
    requires TotalOrder(order)
    ensures TotalOrder(InternalOrder(order)) && Block.Transitive(InternalOrder(order))
  {
    hide InternalCompare, TotalOrder, Block.Transitive;
    var internal := InternalOrder(order);
    forall a, b ensures internal(a, b) < 0 <==> internal(b, a) > 0 {
      if |a| >= 8 && |b| >= 8 {
        InternalOrderIsTotal(order, a, b, b);
      }
    }
    forall a, b, c
      ensures internal(a, b) <= 0 && internal(b, c) <= 0 ==> internal(a, c) <= 0
      ensures internal(a, b) < 0 && internal(b, c) < 0 ==> internal(a, c) < 0
    {
      if |a| >= 8 && |b| >= 8 && |c| >= 8 {
        InternalOrderIsTotal(order, a, b, c);
      }
    }
    IsTotal(internal);
  }

  lemma IsTotal(order: Order)
    requires forall a, b :: order(a, b) < 0 <==> order(b, a) > 0
    requires forall a, b, c :: order(a, b) <= 0 && order(b, c) <= 0 ==> order(a, c) <= 0
    requires forall a, b, c :: order(a, b) < 0 && order(b, c) < 0 ==> order(a, c) < 0
    ensures TotalOrder(order) && Block.Transitive(order)
  {
  }

  lemma WholeInternalPeek(user: SliceComparator, key: Bytes, target: Bytes)
    requires Coherent(user)
    ensures InternalPeek(user, key, |key|, target) == Some(InternalOrder(user.order)(key, target))
  {
    hide DecodeFixed64;
    if |key| >= 8 && |target| >= 8 {
      assert key[..|key|] == key;
      var u := ExtractUserKey(key);
      assert user.peek(u, |u|, ExtractUserKey(target)) == Some(user.order(u, ExtractUserKey(target)));
    }
  }

  lemma InternalPeekGrows(user: SliceComparator, readable: Bytes, more: Bytes, n: nat, target: Bytes)
    requires Coherent(user) && |readable| + |more| <= n && InternalPeek(user, readable, n, target).Some?
    ensures InternalPeek(user, readable + more, n, target) == InternalPeek(user, readable, n, target)
  {
    hide CompareNumbers;
    if n >= 8 && |target| >= 8 {
      var m, t := n - 8, ExtractUserKey(target);
      var some := if |readable| <= m then readable else readable[..m];
      var all := if |readable + more| <= m then readable + more else (readable + more)[..m];
      var rest := all[|some|..];
      assert all == some + rest;
      assert user.peek(some + rest, m, t) == user.peek(some, m, t);
      if |readable| == n {
        assert readable + more == readable;
      }
    }
  }

  /** The internal comparator says what it reads if the user comparator does. */
  lemma InternalIsCoherent(user: SliceComparator)
    requires Coherent(user)
    ensures Coherent(InternalSlices(user))
  {
    hide InternalPeek, InternalOrder;
    forall key, target
      ensures InternalPeek(user, key, |key|, target) == Some(InternalOrder(user.order)(key, target))
    {
      WholeInternalPeek(user, key, target);
    }
    forall readable, more, n: nat, target |
      |readable| + |more| <= n && InternalPeek(user, readable, n, target).Some?
      ensures InternalPeek(user, readable + more, n, target) == InternalPeek(user, readable, n, target)
    {
      InternalPeekGrows(user, readable, more, n, target);
    }
  }

  /** So a block of entries in internal-key order is searched right, over every user comparator. */
  lemma SeekInternalKey(b: Block.Layout, c: Block.Contents, user: SliceComparator, target: Bytes, cur: Block.Cursor)
    requires Block.WellFormed(b, c) && cur.status != Block.OutOfBounds
    requires Coherent(user) && TotalOrder(user.order) && Block.Sorted(InternalOrder(user.order), c.entries)
    ensures Block.SeekFound(b, c, InternalOrder(user.order), target,
                            Block.SeekCursor(b, InternalSlices(user), target, cur))
  {
    hide Coherent, TotalOrder, InternalOrder, Block.WellFormed, Block.SeekFound, Block.SeekCursor, Block.Sorted;
    InternalOrderIsTotalOrder(user.order);
    InternalIsCoherent(user);
    Block.Sizes(b, c);
    Block.SeekRefinesLinearScan(b, c, InternalSlices(user), target, cur);
  }

  // ---------- shortening ----------

  ghost function SeekKey(userKey: Bytes): Bytes {
    Encode(ParsedInternalKey(userKey, MAX_SEQUENCE_NUMBER, VALUE_TYPE_FOR_SEEK))
  }

  lemma SeekKeyParts(userKey: Bytes)
    ensures |SeekKey(userKey)| == |userKey| + 8 && ExtractUserKey(SeekKey(userKey)) == userKey
  {
    hide DecodeFixed64, Encode;
    ParseEncoded(ParsedInternalKey(userKey, MAX_SEQUENCE_NUMBER, VALUE_TYPE_FOR_SEEK));
  }

  lemma {:induction false} AllOnes(n: nat)
    ensures LowBytes(Pow2(8 * n) - 1, n) == seq(n, _ => 255)
  {
    if n == 0 {
    } else {
      AllOnes(n - 1);
      Pow2Sum(8, 8 * (n - 1));
      Pow2Values();
      var p := Pow2(8 * (n - 1));
      DivisionIs(256 * p - 1, p - 1, 255, 256);
      assert seq(n, _ => 255) == [255] + seq(n - 1, _ => 255);
    }
  }

  lemma SeekNumberBytes()
    ensures LowBytes(256 * MAX_SEQUENCE_NUMBER + 1, 8) == [1, 255, 255, 255, 255, 255, 255, 255]
  {
    hide LowBytes;
    SevenOnes();
    LowByteFirst(256 * MAX_SEQUENCE_NUMBER + 1, 8);
  }

  /** The eight bytes that a shortened key ends in: type 1 and the largest sequence number. */
  lemma SeekKeyBytes(userKey: Bytes)
    ensures SeekKey(userKey) == userKey + [1, 255, 255, 255, 255, 255, 255, 255]
  {
    hide LowBytes, PackSequenceAndType;
    PackedValue(MAX_SEQUENCE_NUMBER, VALUE_TYPE_FOR_SEEK);
    SeekNumberBytes();
  }

  lemma LowByteFirst(value: nat, n: nat)
    ensures n > 0 ==> LowBytes(value, n) == [value % 256] + LowBytes(value / 256, n - 1)
  {
  }

  lemma SevenOnes()
    ensures LowBytes(MAX_SEQUENCE_NUMBER, 7) == [255, 255, 255, 255, 255, 255, 255]
  {
    hide LowBytes, Pow2;
    Pow2Values();
    Pow2Sum(24, 8);
    Pow2Sum(32, 24);
    AllOnes(7);
    assert seq(7, _ => 255) == [255, 255, 255, 255, 255, 255, 255];
  }

  /** Among the valid keys of one user key, the seek key comes first. */
  lemma SeekKeyIsFirst(order: Order, k: ParsedInternalKey)
    requires ValidKey(k) && TotalOrder(order)
    ensures |SeekKey(k.userKey)| >= 8 && |Encode(k)| >= 8
    ensures InternalCompare(order, SeekKey(k.userKey), Encode(k)) <= 0
  {
    hide DecodeFixed64, Encode;
    ParseEncoded(k);
    ParseEncoded(ParsedInternalKey(k.userKey, MAX_SEQUENCE_NUMBER, VALUE_TYPE_FOR_SEEK));
    assert order(k.userKey, k.userKey) == 0;
  }

  /** A key with a larger user key is larger, whatever the numbers. */
  lemma LargerUserKey(order: Order, a: Bytes, b: Bytes)
    requires |a| >= 8 && |b| >= 8 && order(ExtractUserKey(a), ExtractUserKey(b)) != 0
    ensures InternalCompare(order, a, b) == order(ExtractUserKey(a), ExtractUserKey(b))
  {
  }

  /** t is a user key that could take the place of userKey: shorter and larger. */
  predicate Shortens(order: Order, userKey: Bytes, t: Bytes) {
    |t| < |userKey| && order(userKey, t) < 0
  }

  /** The result of FindShortestSeparator, or None if an assertion fails on the way. */
  ghost function Separated(user: UserComparator, start: Bytes, limit: Bytes): (r: Option<Bytes>)
    requires |start| >= 8 && |limit| >= 8
  {
    var userStart := ExtractUserKey(start);
    var t := user.separator(userStart, ExtractUserKey(limit));
    if !Shortens(user.compare, userStart, t) then Some(start)
    else
      SeekKeyParts(t);
      if InternalCompare(user.compare, SeekKey(t), limit) < 0 then Some(SeekKey(t)) else None
  }

  /** The string that the user comparator returned, with the largest number attached. */
  method AttachSeekNumber(t: Bytes) returns (r: Bytes)
    ensures r == SeekKey(t) && |r| >= 8
  {
    PackedValue(MAX_SEQUENCE_NUMBER, VALUE_TYPE_FOR_SEEK);
    r := PutFixed64(t, PackSequenceAndType(MAX_SEQUENCE_NUMBER, VALUE_TYPE_FOR_SEEK));
  }

  /** For any user comparator at all: the first assertion always holds, and unless the second
      fails the result is start, or shorter, strictly between start and limit, and the first
      internal key of its user key. */
  method FindShortestSeparator(user: UserComparator, start: Bytes, limit: Bytes) returns (r: Option<Bytes>)
    requires |start| >= 8 && |limit| >= 8
    ensures r == Separated(user, start, limit)
    ensures r == None || r == Some(start) ||
      (8 <= |r.value| < |start| && r.value == SeekKey(ExtractUserKey(r.value)) &&
       InternalCompare(user.compare, start, r.value) < 0 && InternalCompare(user.compare, r.value, limit) < 0)
    ensures KeepsPromise(user) && user.compare(ExtractUserKey(start), ExtractUserKey(limit)) < 0 ==> r.Some?
  {
    hide DecodeFixed64, SeekKey, InternalCompare;
    var userStart, userLimit := ExtractUserKey(start), ExtractUserKey(limit);
    var tmp := user.separator(userStart, userLimit);
    if |tmp| < |userStart| && user.compare(userStart, tmp) < 0 {
      SeekKeyParts(tmp);
      LargerUserKey(user.compare, start, SeekKey(tmp));
      PromisedSeparator(user, start, limit);
      tmp := AttachSeekNumber(tmp);
      assert InternalCompare(user.compare, start, tmp) < 0;
      if InternalCompare(user.compare, tmp, limit) >= 0 {
        return None;
      }
      return Some(tmp);
    }
    return Some(start);
  }

  lemma PromisedSeparator(user: UserComparator, start: Bytes, limit: Bytes)
    requires |start| >= 8 && |limit| >= 8
    ensures KeepsPromise(user) && user.compare(ExtractUserKey(start), ExtractUserKey(limit)) < 0 ==>
              Separated(user, start, limit).Some?
  {
    hide DecodeFixed64, SeekKey, InternalCompare, TotalOrder;
    var userStart, userLimit := ExtractUserKey(start), ExtractUserKey(limit);
    var t := user.separator(userStart, userLimit);
    SeekKeyParts(t);
    if KeepsPromise(user) && user.compare(userStart, userLimit) < 0 {
      assert user.compare(t, userLimit) < 0;
      LargerUserKey(user.compare, SeekKey(t), limit);
    }
  }

  /** The second assertion of FindShortestSeparator holds for every user comparator that orders
      keys this way and keeps the interface's promise exactly when the user key of start is
      before that of limit, or no shorter string is larger than it. */
  lemma AssertionHoldsExactly(order: Order, start: Bytes, limit: Bytes)
    requires TotalOrder(order) && |start| >= 8 && |limit| >= 8
    ensures (forall user :: KeepsPromise(user) && user.compare == order ==> Separated(user, start, limit).Some?)
       <==> (order(ExtractUserKey(start), ExtractUserKey(limit)) < 0 ||
             forall t :: !Shortens(order, ExtractUserKey(start), t))
  {
    hide DecodeFixed64, KeepsPromise, SeekKey, TotalOrder;
    var userStart, userLimit := ExtractUserKey(start), ExtractUserKey(limit);
    if order(userStart, userLimit) < 0 {
      forall user | KeepsPromise(user) && user.compare == order ensures Separated(user, start, limit).Some? {
        PromisedSeparator(user, start, limit);
      }
    } else if t :| Shortens(order, userStart, t) {
      var user := MisleadingComparator(order, start, limit, t);
    }
  }

  /** A comparator that keeps the promise, and returns t wherever the interface promises nothing. */
  lemma MisleadingComparator(order: Order, start: Bytes, limit: Bytes, t: Bytes) returns (user: UserComparator)
    requires TotalOrder(order) && |start| >= 8 && |limit| >= 8
    requires order(ExtractUserKey(start), ExtractUserKey(limit)) >= 0 && Shortens(order, ExtractUserKey(start), t)
    ensures KeepsPromise(user) && user.compare == order && Separated(user, start, limit) == None
  {
    hide DecodeFixed64, SeekKey, InternalCompare;
    user := UserComparator(order, (s, l) => if order(s, l) < 0 then s else t, key => key);
    SeekKeyParts(t);
    LargerUserKey(order, SeekKey(t), limit);
    assert forall s :: order(s, s) == 0;
  }

  /** Over the bytewise comparator neither assertion ever fails, for any two keys; the user key
      gets shorter exactly when there is room before its last byte. */
  lemma BytewiseSeparator(start: Bytes, limit: Bytes)
    requires |start| >= 8 && |limit| >= 8
    ensures var r := Separated(Bytewise(), start, limit);
            r.Some? && (r != Some(start) <==>
              exists d: nat :: d + 1 < |start| - 8 && CanShortenAt(ExtractUserKey(start), ExtractUserKey(limit), d))
  {
    hide DecodeFixed64, Compare, Separator, CanShortenAt, SeekKey, InternalCompare;
    var userStart, userLimit := ExtractUserKey(start), ExtractUserKey(limit);
    var t := Separator(userStart, userLimit);
    Comparator.SeparatorSeparates(userStart, userLimit);
    SeekKeyParts(t);
    if t != userStart {
      LargerUserKey(Compare, SeekKey(t), limit);
    }
  }

  /** For any user comparator at all the assertion holds; the result is key, or shorter, after
      key, and the first internal key of its user key. */
  method FindShortSuccessor(user: UserComparator, key: Bytes) returns (r: Bytes)
    requires |key| >= 8
    ensures |r| >= 8
    ensures r == key ||
      (|r| < |key| && InternalCompare(user.compare, key, r) < 0 && r == SeekKey(ExtractUserKey(r)))
    ensures r != key <==> Shortens(user.compare, ExtractUserKey(key), user.successor(ExtractUserKey(key)))
    ensures r != key ==> ExtractUserKey(r) == user.successor(ExtractUserKey(key))
  {
    hide DecodeFixed64, SeekKey, InternalCompare;
    var userKey := ExtractUserKey(key);
    var tmp := user.successor(userKey);
    r := key;
    if |tmp| < |userKey| && user.compare(userKey, tmp) < 0 {
      SeekKeyParts(tmp);
      LargerUserKey(user.compare, key, SeekKey(tmp));
      tmp := AttachSeekNumber(tmp);
      assert InternalCompare(user.compare, key, tmp) < 0;
      r := tmp;
    }
  }

  /** Over the bytewise comparator a successor is found exactly when a byte before the last can be
      raised. */
  lemma BytewiseSuccessor(userKey: Bytes)
    ensures Shortens(Compare, userKey, Bytewise().successor(userKey)) <==>
            exists i :: 0 <= i < |userKey| - 1 && userKey[i] != 0xff
  {
    hide Compare, Successor;
    SuccessorSucceeds(userKey);
  }

  /** What an index block relies on: with r between start and limit, keys up to start stay at or
      before r and keys from limit on stay after r. */
  lemma SeparatorSeparates(order: Order, start: Bytes, limit: Bytes, r: Bytes, k: Bytes)
    requires TotalOrder(order) && |start| >= 8 && |limit| >= 8 && |r| >= 8 && |k| >= 8
    requires InternalCompare(order, start, limit) < 0
    requires r == start || (InternalCompare(order, start, r) < 0 && InternalCompare(order, r, limit) < 0)
    ensures InternalCompare(order, k, start) <= 0 ==> InternalCompare(order, k, r) <= 0
    ensures InternalCompare(order, limit, k) <= 0 ==> InternalCompare(order, r, k) < 0
  {
    hide InternalCompare, TotalOrder;
    InternalOrderIsTotal(order, k, start, r);
    InternalOrderIsTotal(order, r, limit, k);
  }

  // ---------- InternalKey ----------

  class InternalKey {
    var rep: Bytes

    constructor (userKey: Bytes, sequence: nat, valueType: nat)
      requires ValidKey(ParsedInternalKey(userKey, sequence, valueType))
      ensures ParseInternalKey(rep) == Some(ParsedInternalKey(userKey, sequence, valueType))
      ensures |rep| >= 8 && UserKey() == userKey
    {
      rep := [];
      new;
      rep := AppendInternalKey(rep, ParsedInternalKey(userKey, sequence, valueType));
      ParseEncoded(ParsedInternalKey(userKey, sequence, valueType));
      assert rep == Encode(ParsedInternalKey(userKey, sequence, valueType));
    }

    function UserKey(): Bytes
      requires |rep| >= 8
      reads this
    {
      ExtractUserKey(rep)
    }
  }
}
