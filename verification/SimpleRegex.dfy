/** The simple regular expressions of Google Test (libs/googletest/src/gtest-port.cc).

    A regular expression is a string; its meaning is given here by a syntax tree, the string
    the tree is written as, and the language of the tree. The validator accepts exactly the
    strings some tree is written as, and the backtracking matcher decides the language. */
module SimpleRegex {

  const NUL: char := '\0'

  /** size_t is taken to have 64 bits. */
  const SIZE_MAX: nat := 0xffff_ffff_ffff_ffff

  /** A const char*: the text before the terminator. */
  datatype CString = Null | Text(text: string)

  ghost predicate NoNul(s: string) {
    NUL !in s
  }

  /** s[i], where the position past the end holds the terminator. */
  function At(s: string, i: nat): char {
    if i < |s| then s[i] else NUL
  }

  // ---------- character classes ----------

  predicate IsInSet(ch: char, s: string) {
    ch != NUL && ch in s
  }

  predicate IsAsciiDigit(ch: char) {
    '0' <= ch <= '9'
  }

  predicate IsAsciiPunct(ch: char) {
    IsInSet(ch, "^-!\"#$%&'()*+,./:;<=>?@[\\]_`{|}~")
  }

  predicate IsRepeat(ch: char) {
    IsInSet(ch, "?*+")
  }

  predicate IsAsciiWhiteSpace(ch: char) {
    IsInSet(ch, " \U{000C}\n\r\t\U{000B}")
  }

  predicate IsAsciiWordChar(ch: char) {
    ('a' <= ch <= 'z') || ('A' <= ch <= 'Z') || ('0' <= ch <= '9') || ch == '_'
  }

  predicate IsValidEscape(c: char) {
    IsAsciiPunct(c) || IsInSet(c, "dDfnrsStvwW")
  }

  predicate AtomMatchesChar(escaped: bool, p: char, ch: char) {
    if escaped then
      match p
      case 'd' => IsAsciiDigit(ch)
      case 'D' => !IsAsciiDigit(ch)
      case 'f' => ch == '\U{000C}'
      case 'n' => ch == '\n'
      case 'r' => ch == '\r'
      case 's' => IsAsciiWhiteSpace(ch)
      case 'S' => !IsAsciiWhiteSpace(ch)
      case 't' => ch == '\t'
      case 'v' => ch == '\U{000B}'
      case 'w' => IsAsciiWordChar(ch)
      case 'W' => !IsAsciiWordChar(ch)
      case _ => IsAsciiPunct(p) && p == ch
    else
      (p == '.' && ch != '\n') || p == ch
  }

  // ---------- what the classes stand for ----------

  const ESCAPE_LETTERS := "dDfnrsStvwW"

  predicate IsDigit(ch: char) {
    ch in "0123456789"
  }

  /** The other classes by their ASCII codes. */
  predicate IsPunctuation(ch: char) {
    var code := ch as int;
    33 <= code <= 47 || 58 <= code <= 64 || 91 <= code <= 96 || 123 <= code <= 126
  }

  predicate IsSpace(ch: char) {
    var code := ch as int;
    code == 32 || 9 <= code <= 13
  }

  predicate IsWord(ch: char) {
    var code := ch as int;
    48 <= code <= 57 || 65 <= code <= 90 || 97 <= code <= 122 || code == 95
  }

  predicate IsControl(ch: char, code: int) {
    ch as int == code
  }

  /** The characters that an atom stands for. */
  ghost predicate InClass(escaped: bool, c: char, ch: char) {
    if !escaped then if c == '.' then !IsControl(ch, 10) else ch == c
    else if c == 'd' then IsDigit(ch)
    else if c == 'D' then !IsDigit(ch)
    else if c == 's' then IsSpace(ch)
    else if c == 'S' then !IsSpace(ch)
    else if c == 'w' then IsWord(ch)
    else if c == 'W' then !IsWord(ch)
    else if c == 't' then IsControl(ch, 9)
    else if c == 'n' then IsControl(ch, 10)
    else if c == 'v' then IsControl(ch, 11)
    else if c == 'f' then IsControl(ch, 12)
    else if c == 'r' then IsControl(ch, 13)
    else IsPunctuation(c) && ch == c
  }

  lemma ClassesWrittenOut(ch: char)
    ensures IsAsciiDigit(ch) <==> IsDigit(ch)
    ensures IsAsciiWhiteSpace(ch) <==> IsSpace(ch)
    ensures IsAsciiWordChar(ch) <==> IsWord(ch)
  {
  }

  lemma PunctuationWrittenOut(ch: char)
    ensures IsAsciiPunct(ch) <==> IsPunctuation(ch)
  {
  }

  lemma ControlsWrittenOut(ch: char)
    ensures ch == '\t' <==> IsControl(ch, 9)
    ensures ch == '\n' <==> IsControl(ch, 10)
    ensures ch == '\U{000B}' <==> IsControl(ch, 11)
    ensures ch == '\U{000C}' <==> IsControl(ch, 12)
    ensures ch == '\r' <==> IsControl(ch, 13)
  {
  }

  /** For every atom and every character the matcher decides the class. */
  lemma AtomMatchesClass(escaped: bool, c: char, ch: char)
    ensures AtomMatchesChar(escaped, c, ch) <==> InClass(escaped, c, ch)
  {
    hide IsAsciiDigit, IsAsciiPunct, IsAsciiWhiteSpace, IsAsciiWordChar, IsDigit, IsPunctuation, IsSpace, IsWord,
         IsControl;
    ClassesWrittenOut(ch);
    ControlsWrittenOut(ch);
    PunctuationWrittenOut(c);
  }

  lemma ValidEscapesWrittenOut(c: char)
    ensures IsValidEscape(c) <==> IsPunctuation(c) || c in ESCAPE_LETTERS
  {
    hide IsAsciiPunct, IsPunctuation;
    PunctuationWrittenOut(c);
  }

  // ---------- syntax ----------

  datatype Repeat = Once | Optional | Star | Plus

  datatype Item = Item(escaped: bool, c: char, repeat: Repeat)

  datatype Regex = Regex(startAnchor: bool, items: seq<Item>, endAnchor: bool)

  ghost predicate ItemOk(it: Item) {
    if it.escaped then IsPunctuation(it.c) || it.c in ESCAPE_LETTERS else it.c != NUL && it.c !in "\\^$()[]{}|?*+"
  }

  ghost predicate ItemsOk(items: seq<Item>) {
    forall i :: 0 <= i < |items| ==> ItemOk(items[i])
  }

  function WriteRepeat(r: Repeat): string {
    match r
    case Once => ""
    case Optional => "?"
    case Star => "*"
    case Plus => "+"
  }

  function WriteItem(it: Item): string {
    (if it.escaped then ['\\', it.c] else [it.c]) + WriteRepeat(it.repeat)
  }

  /** Items and the end anchor. */
  function WriteTail(items: seq<Item>, end: bool): string {
    if items == [] then if end then "$" else "" else WriteItem(items[0]) + WriteTail(items[1..], end)
  }

  function Write(r: Regex): string {
    (if r.startAnchor then "^" else "") + WriteTail(r.items, r.endAnchor)
  }

  // ---------- meaning ----------

  ghost predicate ItemAccepts(it: Item, w: string) {
    && (forall i :: 0 <= i < |w| ==> InClass(it.escaped, it.c, w[i]))
    && (it.repeat == Once || it.repeat == Plus ==> |w| >= 1)
    && (it.repeat == Once || it.repeat == Optional ==> |w| <= 1)
  }

  /** The language of a sequence of items: w splits into one piece for each. */
  ghost predicate InLanguage(items: seq<Item>, w: string) {
    if items == [] then w == ""
    else exists k :: 0 <= k <= |w| && ItemAccepts(items[0], w[..k]) && InLanguage(items[1..], w[k..])
  }

  /** Some prefix of s, or the whole of s if the end is anchored, is in the language. */
  ghost predicate MatchesPrefix(items: seq<Item>, end: bool, s: string) {
    exists n :: 0 <= n <= |s| && (end ==> n == |s|) && InLanguage(items, s[..n])
  }

  /** Some substring of s, anchored as the regex says, is in the language. */
  ghost predicate MatchesSubstring(r: Regex, s: string) {
    exists i :: 0 <= i <= |s| && (r.startAnchor ==> i == 0) && MatchesPrefix(r.items, r.endAnchor, s[i..])
  }

  // ---------- the matcher ----------

  lemma PrefixOfNothing(end: bool, s: string)
    ensures MatchesPrefix([], end, s) <==> (end ==> s == "")
  {
    if end ==> s == "" {
      assert s[..0] == "";
    }
  }

  /** k characters may go to the first item. */
  ghost predicate CanTake(it: Item, s: string, k: int) {
    0 <= k <= |s| && ItemAccepts(it, s[..k])
  }

  lemma PrefixOfCons(it: Item, items: seq<Item>, end: bool, s: string)
    ensures MatchesPrefix([it] + items, end, s) <==> exists k :: CanTake(it, s, k) && MatchesPrefix(items, end, s[k..])
  {
    var all := [it] + items;
    assert all[1..] == items;
    if MatchesPrefix(all, end, s) {
      var n :| 0 <= n <= |s| && (end ==> n == |s|) && InLanguage(all, s[..n]);
      var w := s[..n];
      var k :| 0 <= k <= |w| && ItemAccepts(all[0], w[..k]) && InLanguage(all[1..], w[k..]);
      assert w[..k] == s[..k] && w[k..] == s[k..][..n - k];
      assert CanTake(it, s, k) && MatchesPrefix(items, end, s[k..]);
    }
    if k :| CanTake(it, s, k) && MatchesPrefix(items, end, s[k..]) {
      var m :| 0 <= m <= |s[k..]| && (end ==> m == |s[k..]|) && InLanguage(items, s[k..][..m]);
      var w := s[..k + m];
      assert w[..k] == s[..k] && w[k..] == s[k..][..m];
      assert InLanguage(all, w);
    }
  }

  ghost function RepeatOf(ch: char): Repeat {
    if ch == '?' then Optional else if ch == '*' then Star else if ch == '+' then Plus else Once
  }

  method MatchRepetitionAndRegexAtHead(escaped: bool, c: char, repeat: char, regex: string, str: string,
                                       ghost items: seq<Item>, ghost end: bool) returns (found: bool)
    requires IsRepeat(repeat) && regex == WriteTail(items, end) && ItemsOk(items)
    requires NoNul(str) && |str| < SIZE_MAX
    ensures found <==> MatchesPrefix([Item(escaped, c, RepeatOf(repeat))] + items, end, str)
    decreases |regex|, 1
  {
    hide AtomMatchesChar, InClass, MatchesPrefix, WriteTail;
    ghost var it := Item(escaped, c, RepeatOf(repeat));
    PrefixOfCons(it, items, end, str);
    var minCount := if repeat == '+' then 1 else 0;
    var maxCount := if repeat == '?' then 1 else SIZE_MAX - 1;
    var i := 0;
    while i <= maxCount
      invariant 0 <= i <= |str|
      invariant forall j :: 0 <= j < i ==> InClass(escaped, c, str[j])
      invariant forall j :: minCount <= j < i ==> !MatchesPrefix(items, end, str[j..])
      decreases |str| - i
    {
      if i >= minCount {
        var tail := MatchRegexAtHead(regex, str[i..], items, end);
        if tail {
          assert CanTake(it, str, i);
          return true;
        }
      }
      AtomMatchesClass(escaped, c, At(str, i));
      if At(str, i) == NUL || !AtomMatchesChar(escaped, c, At(str, i)) {
        assert forall k :: CanTake(it, str, k) ==> minCount <= k <= i;
        return false;
      }
      i := i + 1;
    }
    assert forall k :: CanTake(it, str, k) ==> minCount <= k <= maxCount;
    return false;
  }

  /** The first character of a writing tells what comes first in it. */
  lemma FirstChar(items: seq<Item>, end: bool)
    requires ItemsOk(items)
    ensures var ch := At(WriteTail(items, end), 0);
            && !IsRepeat(ch) && ch != '^'
            && (ch == NUL <==> items == [] && !end) && (ch == '$' <==> items == [] && end)
            && (ch == '\\' <==> items != [] && items[0].escaped)
  {
    if items != [] {
      assert ItemOk(items[0]);
    }
  }

  /** The writing of items taken apart: p is where the first item's character stands. */
  lemma WrittenHead(items: seq<Item>, end: bool) returns (p: nat)
    requires ItemsOk(items) && items != []
    ensures var regex, it := WriteTail(items, end), items[0];
            && p == (if it.escaped then 1 else 0) && p < |regex| && regex[p] == it.c
            && (IsRepeat(At(regex, p + 1)) <==> it.repeat != Once)
            && (it.repeat == Once ==> regex[p + 1..] == WriteTail(items[1..], end))
            && (it.repeat != Once ==>
                  p + 2 <= |regex| && RepeatOf(regex[p + 1]) == it.repeat
                  && regex[p + 2..] == WriteTail(items[1..], end))
  {
    p := if items[0].escaped then 1 else 0;
    FirstChar(items[1..], end);
    var rest := WriteTail(items[1..], end);
    assert WriteTail(items, end) == WriteItem(items[0]) + rest;
    if items[0].repeat == Once {
      assert At(WriteTail(items, end), p + 1) == At(rest, 0);
    }
  }

  lemma PrefixOfOnce(it: Item, items: seq<Item>, end: bool, s: string)
    requires it.repeat == Once
    ensures MatchesPrefix([it] + items, end, s) <==>
              s != "" && InClass(it.escaped, it.c, s[0]) && MatchesPrefix(items, end, s[1..])
  {
    hide InClass, MatchesPrefix;
    PrefixOfCons(it, items, end, s);
    assert forall k :: CanTake(it, s, k) ==> k == 1;
    assert CanTake(it, s, 1) <==> s != "" && InClass(it.escaped, it.c, s[0]);
  }

  /** True exactly when the written items match a prefix of str. */
  method MatchRegexAtHead(regex: string, str: string, ghost items: seq<Item>, ghost end: bool) returns (found: bool)
    requires regex == WriteTail(items, end) && ItemsOk(items)
    requires NoNul(str) && |str| < SIZE_MAX
    ensures found <==> MatchesPrefix(items, end, str)
    decreases |regex|, 0
  {
    hide AtomMatchesChar, InClass, MatchesPrefix, WriteTail, IsInSet;
    FirstChar(items, end);
    if At(regex, 0) == NUL {
      PrefixOfNothing(end, str);
      return true;
    }
    if At(regex, 0) == '$' {
      PrefixOfNothing(end, str);
      return At(str, 0) == NUL;
    }
    ghost var head := WrittenHead(items, end);
    assert items == [items[0]] + items[1..];
    var escaped := At(regex, 0) == '\\';
    var p := if escaped then 1 else 0;
    if IsRepeat(At(regex, p + 1)) {
      found := MatchRepetitionAndRegexAtHead(escaped, regex[p], regex[p + 1], regex[p + 2..], str, items[1..], end);
    } else {
      PrefixOfOnce(items[0], items[1..], end, str);
      AtomMatchesClass(escaped, regex[p], At(str, 0));
      found := At(str, 0) != NUL && AtomMatchesChar(escaped, regex[p], str[0]);
      if found {
        found := MatchRegexAtHead(regex[p + 1..], str[1..], items[1..], end);
      }
    }
  }

  method MatchRegexAnywhere(regex: CString, str: CString, ghost r: Regex) returns (found: bool)
    requires regex.Text? ==> regex.text == Write(r) && ItemsOk(r.items)
    requires str.Text? ==> NoNul(str.text) && |str.text| < SIZE_MAX
    ensures found <==> regex.Text? && str.Text? && MatchesSubstring(r, str.text)
  {
    if regex.Null? || str.Null? {
      return false;
    }
    var s := str.text;
    StartsWithAnchor(r);
    if At(regex.text, 0) == '^' {
      found := MatchRegexAtHead(regex.text[1..], s, r.items, r.endAnchor);
      assert s[0..] == s;
      return;
    }
    var i := 0;
    while true
      invariant 0 <= i <= |s|
      invariant forall j :: 0 <= j < i ==> !MatchesPrefix(r.items, r.endAnchor, s[j..])
      decreases |s| - i
    {
      found := MatchRegexAtHead(regex.text, s[i..], r.items, r.endAnchor);
      if found {
        return;
      }
      if At(s, i) == NUL {
        return;
      }
      i := i + 1;
    }
  }

  /** A written regex begins with ^ exactly when its start is anchored. */
  lemma StartsWithAnchor(r: Regex)
    requires ItemsOk(r.items)
    ensures At(Write(r), 0) == '^' <==> r.startAnchor
    ensures r.startAnchor ==> Write(r) == ['^'] + WriteTail(r.items, r.endAnchor)
    ensures !r.startAnchor ==> Write(r) == WriteTail(r.items, r.endAnchor)
  {
    if r.items != [] {
      assert ItemOk(r.items[0]);
    }
  }

  // ---------- the validator ----------

  /** What the rest of the validator's loop concludes from position i. */
  predicate ScanOk(regex: string, i: nat, prevRepeatable: bool)
    decreases |regex| - i
  {
    if i >= |regex| then true
    else if regex[i] == '\\' then i + 1 < |regex| && IsValidEscape(regex[i + 1]) && ScanOk(regex, i + 2, true)
    else CharOk(regex, i, prevRepeatable) && ScanOk(regex, i + 1, !IsInSet(regex[i], "^$?*+"))
  }

  predicate CharOk(regex: string, i: nat, prevRepeatable: bool)
    requires i < |regex|
  {
    && (regex[i] == '^' ==> i == 0)
    && (regex[i] == '$' ==> At(regex, i + 1) == NUL)
    && !IsInSet(regex[i], "()[]{}|")
    && (IsRepeat(regex[i]) ==> prevRepeatable)
  }

  ghost predicate IsWritten(regex: string) {
    exists r: Regex :: ItemsOk(r.items) && Write(r) == regex
  }

  /** An unescaped character that passes, and does not repeat or anchor, is a plain atom. */
  lemma PlainChar(regex: string, i: nat, prevRepeatable: bool, r: Repeat)
    requires i < |regex| && CharOk(regex, i, prevRepeatable) && regex[i] != NUL && regex[i] !in "\\$"
    requires !IsRepeat(regex[i]) && (regex[i] == '^' ==> i > 0)
    ensures ItemOk(Item(false, regex[i], r)) && !IsInSet(regex[i], "^$?*+")
  {
  }

  /** An atom the scan accepts, up to its repetition character. */
  lemma ScanAtom(regex: string, i: nat, prevRepeatable: bool) returns (escaped: bool, p: nat)
    requires NoNul(regex) && i < |regex| && ScanOk(regex, i, prevRepeatable)
    requires prevRepeatable ==> !IsRepeat(regex[i])
    requires regex[i] != '$' && (regex[i] == '^' ==> i > 0)
    ensures p == (if escaped then i + 1 else i) < |regex| && (escaped <==> regex[i] == '\\')
    ensures forall r :: ItemOk(Item(escaped, regex[p], r))
    ensures ScanOk(regex, p + 1, true)
  {
    hide IsValidEscape, IsPunctuation;
    escaped := regex[i] == '\\';
    p := if escaped then i + 1 else i;
    ValidEscapesWrittenOut(regex[p]);
    forall r ensures ItemOk(Item(escaped, regex[p], r)) {
      if !escaped {
        PlainChar(regex, i, prevRepeatable, r);
      }
    }
    if !escaped {
      PlainChar(regex, i, prevRepeatable, Once);
    }
  }

  lemma ScanRepeat(regex: string, j: nat)
    requires j < |regex| && IsRepeat(regex[j]) && ScanOk(regex, j, true)
    ensures ScanOk(regex, j + 1, false) && WriteRepeat(RepeatOf(regex[j])) == [regex[j]]
  {
  }

  /** The scan ends at the end of the regex, or at a dollar sign that is the last character. */
  lemma ScanEnds(regex: string, i: nat, prevRepeatable: bool) returns (end: bool)
    requires NoNul(regex) && i <= |regex| && ScanOk(regex, i, prevRepeatable) && (i < |regex| ==> regex[i] == '$')
    ensures WriteTail([], end) == regex[i..]
  {
    assert i < |regex| ==> At(regex, i + 1) == NUL;
    end := i < |regex|;
  }

  /** A position the scan accepts starts the writing of some items. */
  lemma {:induction false} ScanParses(regex: string, i: nat, prevRepeatable: bool) returns (items: seq<Item>, end: bool)
    requires NoNul(regex) && i <= |regex| && ScanOk(regex, i, prevRepeatable)
    requires prevRepeatable ==> !IsRepeat(At(regex, i))
    requires At(regex, i) == '^' ==> i > 0
    ensures ItemsOk(items) && WriteTail(items, end) == regex[i..]
    decreases |regex| - i
  {
    hide ScanOk, IsInSet, ItemOk, WriteItem, WriteTail;
    if i == |regex| || regex[i] == '$' {
      end := ScanEnds(regex, i, prevRepeatable);
      items := [];
    } else {
      var escaped, p := ScanAtom(regex, i, prevRepeatable);
      var it := Item(escaped, regex[p], RepeatOf(At(regex, p + 1)));
      if IsRepeat(At(regex, p + 1)) {
        NulIsNoRepeat();
        ScanRepeat(regex, p + 1);
        items, end := ScanParses(regex, p + 2, false);
      } else {
        NoRepeatIsOnce(At(regex, p + 1));
        items, end := ScanParses(regex, p + 1, true);
      }
      WrittenAt(regex, i, it, p);
      WriteCons(it, items, end);
      items := [it] + items;
    }
  }

  lemma NoRepeatIsOnce(ch: char)
    requires !IsRepeat(ch)
    ensures RepeatOf(ch) == Once
  {
  }

  lemma WriteCons(it: Item, items: seq<Item>, end: bool)
    ensures WriteTail([it] + items, end) == WriteItem(it) + WriteTail(items, end)
  {
    assert ([it] + items)[1..] == items;
  }

  /** The item whose character stands at p, as it is written from i on. */
  lemma WrittenAt(regex: string, i: nat, it: Item, p: nat)
    requires i <= p < |regex| && it.c == regex[p] && it.repeat == RepeatOf(At(regex, p + 1))
    requires if it.escaped then p == i + 1 && regex[i] == '\\' else p == i
    ensures var j := if it.repeat == Once then p + 1 else p + 2;
            j <= |regex| && regex[i..] == WriteItem(it) + regex[j..]
  {
  }

  lemma NulIsNoRepeat()
    ensures !IsRepeat(NUL)
  {
  }

  /** An item written at i passes the scan if what follows does. */
  lemma ItemScans(regex: string, i: nat, prevRepeatable: bool, it: Item)
    requires ItemOk(it) && i + |WriteItem(it)| <= |regex| && regex[i..i + |WriteItem(it)|] == WriteItem(it)
    requires ScanOk(regex, i + |WriteItem(it)|, it.repeat == Once)
    ensures ScanOk(regex, i, prevRepeatable)
  {
    hide ScanOk, ItemOk, IsInSet;
    var w := WriteItem(it);
    var p := if it.escaped then i + 1 else i;
    assert regex[p] == it.c by { assert regex[i..i + |w|][p - i] == w[p - i]; }
    if it.escaped {
      assert regex[i] == '\\' by { assert regex[i..i + |w|][0] == w[0]; }
    }
    if it.repeat != Once {
      assert [regex[p + 1]] == WriteRepeat(it.repeat) by { assert regex[i..i + |w|][p + 1 - i] == w[p + 1 - i]; }
      RepeatScans(regex, p + 1);
    }
    AtomScans(regex, i, prevRepeatable, it);
  }

  lemma RepeatScans(regex: string, j: nat)
    requires j < |regex| && regex[j] in "?*+" && ScanOk(regex, j + 1, false)
    ensures ScanOk(regex, j, true)
  {
  }

  lemma AtomScans(regex: string, i: nat, prevRepeatable: bool, it: Item)
    requires ItemOk(it)
    requires var p := if it.escaped then i + 1 else i;
             p < |regex| && regex[p] == it.c && (it.escaped ==> regex[i] == '\\') && ScanOk(regex, p + 1, true)
    ensures ScanOk(regex, i, prevRepeatable)
  {
    hide IsValidEscape, IsPunctuation;
    ValidEscapesWrittenOut(it.c);
  }

  /** The writing of items, from any position but a leading ^, passes the scan. */
  lemma {:induction false} WrittenScans(regex: string, i: nat, prevRepeatable: bool, items: seq<Item>, end: bool)
    requires i <= |regex| && regex[i..] == WriteTail(items, end) && ItemsOk(items)
    ensures ScanOk(regex, i, prevRepeatable)
    decreases |items|
  {
    hide ScanOk, WriteItem, ItemOk, WriteTail, IsInSet;
    if items == [] {
      EmptyTail();
      EndScans(regex, i, prevRepeatable, end);
    } else {
      var w, rest := WriteItem(items[0]), WriteTail(items[1..], end);
      assert items == [items[0]] + items[1..];
      WriteCons(items[0], items[1..], end);
      SplitSuffix(regex, i, w, rest);
      WrittenScans(regex, i + |w|, items[0].repeat == Once, items[1..], end);
      ItemScans(regex, i, prevRepeatable, items[0]);
    }
  }

  lemma SplitSuffix(s: string, i: nat, a: string, b: string)
    requires i <= |s| && s[i..] == a + b
    ensures i + |a| <= |s| && s[i..i + |a|] == a && s[i + |a|..] == b
  {
    assert s[i..][..|a|] == s[i..i + |a|];
    assert s[i..][|a|..] == s[i + |a|..];
  }

  lemma EndScans(regex: string, i: nat, prevRepeatable: bool, end: bool)
    requires i <= |regex| && regex[i..] == if end then "$" else ""
    ensures ScanOk(regex, i, prevRepeatable)
  {
    if end {
      assert regex[i] == regex[i..][0] == '$';
    }
  }

  lemma ScanIffWritten(regex: string)
    requires NoNul(regex)
    ensures ScanOk(regex, 0, false) <==> IsWritten(regex)
  {
    hide WriteTail, ItemOk;
    if ScanOk(regex, 0, false) {
      var anchored := At(regex, 0) == '^';
      var start := if anchored then 1 else 0;
      var items, end := ScanParses(regex, start, false);
      assert Write(Regex(anchored, items, end)) == regex;
    }
    if r: Regex :| ItemsOk(r.items) && Write(r) == regex {
      StartsWithAnchor(r);
      WrittenScans(regex, if r.startAnchor then 1 else 0, false, r.items, r.endAnchor);
    }
  }

  /** Accepts exactly the strings that some syntax tree is written as. */
  method ValidateRegex(regex: CString) returns (valid: bool)
    requires regex.Text? ==> NoNul(regex.text)
    ensures valid <==> regex.Text? && IsWritten(regex.text)
  {
    if regex.Null? {
      return false;
    }
    var re := regex.text;
    ScanIffWritten(re);
    var isValid, prevRepeatable, i: nat := true, false, 0;
    while At(re, i) != NUL
      invariant i <= |re|
      invariant isValid && ScanOk(re, i, prevRepeatable) <==> ScanOk(re, 0, false)
      decreases |re| - i
    {
      if re[i] == '\\' {
        i := i + 1;
        if At(re, i) == NUL {
          return false;
        }
        if !IsValidEscape(re[i]) {
          isValid := false;
        }
        prevRepeatable := true;
      } else {
        var ch := re[i];
        if ch == '^' && i > 0 {
          isValid := false;
        } else if ch == '$' && At(re, i + 1) != NUL {
          isValid := false;
        } else if IsInSet(ch, "()[]{}|") {
          isValid := false;
        } else if IsRepeat(ch) && !prevRepeatable {
          isValid := false;
        }
        prevRepeatable := !IsInSet(ch, "^$?*+");
      }
      i := i + 1;
    }
    return isValid;
  }

  // ---------- a writing determines its tree ----------

  lemma {:induction false} TailDetermines(a: seq<Item>, endA: bool, b: seq<Item>, endB: bool)
    requires ItemsOk(a) && ItemsOk(b) && WriteTail(a, endA) == WriteTail(b, endB)
    ensures a == b && endA == endB
    decreases |a|
  {
    hide WriteTail, ItemOk, IsInSet;
    FirstChar(a, endA);
    FirstChar(b, endB);
    if a != [] {
      var p := WrittenHead(a, endA);
      var q := WrittenHead(b, endB);
      assert a[0] == b[0];
      TailDetermines(a[1..], endA, b[1..], endB);
      assert a == [a[0]] + a[1..] && b == [b[0]] + b[1..];
    }
  }

  lemma WritingDeterminesTree(a: Regex, b: Regex)
    requires ItemsOk(a.items) && ItemsOk(b.items) && Write(a) == Write(b)
    ensures a == b
  {
    hide WriteTail, ItemsOk;
    StartsWithAnchor(a);
    StartsWithAnchor(b);
    assert a.startAnchor ==>
      Write(a)[1..] == WriteTail(a.items, a.endAnchor) && Write(b)[1..] == WriteTail(b.items, b.endAnchor);
    TailDetermines(a.items, a.endAnchor, b.items, b.endAnchor);
  }

  /** The tree of a valid regex; WritingDeterminesTree says that there is no other. */
  ghost function TreeOf(regex: string): (r: Regex)
    requires IsWritten(regex)
    ensures ItemsOk(r.items) && Write(r) == regex
  {
    var r: Regex :| ItemsOk(r.items) && Write(r) == regex;
    r
  }

  // ---------- RE: partial and full matches ----------

  function LastChar(s: string): char {
    if s == "" then NUL else s[|s| - 1]
  }

  /** The pattern RE::Init builds for full matches. */
  function FullPattern(regex: string): string {
    (if At(regex, 0) != '^' then "^" else "") + regex + (if LastChar(regex) != '$' then "$" else "")
  }

  /** The regex is written with a final $ that is an escaped dollar sign, not an anchor. */
  ghost predicate EndsInEscapedDollar(r: Regex) {
    !r.endAnchor && r.items != [] && r.items[|r.items| - 1] == Item(true, '$', Once)
  }

  lemma LastCharOfItem(it: Item)
    requires ItemOk(it)
    ensures WriteItem(it) != "" && (LastChar(WriteItem(it)) == '$' <==> it == Item(true, '$', Once))
  {
  }

  lemma LastCharOfConcat(a: string, b: string)
    ensures LastChar(a + b) == if b == "" then LastChar(a) else LastChar(b)
  {
  }

  lemma {:induction false} LastCharOfTail(items: seq<Item>, end: bool)
    requires ItemsOk(items)
    ensures LastChar(WriteTail(items, end)) == '$' <==> end || EndsInEscapedDollar(Regex(false, items, end))
    ensures items != [] ==> WriteTail(items, end) != ""
    decreases |items|
  {
    hide WriteItem, ItemOk, LastChar;
    if items == [] {
      LastCharOfEnd();
    } else {
      var rest := items[1..];
      LastCharOfTail(rest, end);
      LastCharOfItem(items[0]);
      LastCharOfConcat(WriteItem(items[0]), WriteTail(rest, end));
      assert rest != [] ==> rest[|rest| - 1] == items[|items| - 1];
    }
  }

  lemma LastCharOfEnd()
    ensures LastChar("$") == '$' && LastChar("") != '$'
  {
  }

  lemma {:induction false} WriteTailEnd(items: seq<Item>)
    ensures WriteTail(items, true) == WriteTail(items, false) + "$"
    decreases |items|
  {
    if items != [] {
      WriteTailEnd(items[1..]);
    }
  }

  /** Adding anchors to the text adds them to the tree, except after an escaped dollar sign. */
  lemma FullPatternIsWritten(r: Regex)
    requires ItemsOk(r.items)
    ensures FullPattern(Write(r)) == Write(Regex(true, r.items, !EndsInEscapedDollar(r)))
  {
    hide WriteTail, ItemsOk, LastChar, IsInSet;
    StartsWithAnchor(r);
    LastCharOfTail(r.items, r.endAnchor);
    WriteTailEnd(r.items);
    EmptyTail();
    LastCharOfConcat("^", WriteTail(r.items, r.endAnchor));
    LastCharOfCaret();
  }

  lemma LastCharOfCaret()
    ensures LastChar("^") != '$'
  {
  }

  lemma EmptyTail()
    ensures WriteTail([], false) == "" && WriteTail([], true) == "$"
  {
  }

  /** RE::PartialMatch */
  method PartialMatch(regex: CString, str: CString) returns (found: bool)
    requires regex.Text? ==> NoNul(regex.text)
    requires str.Text? ==> NoNul(str.text) && |str.text| < SIZE_MAX
    ensures found <==>
      regex.Text? && IsWritten(regex.text) && str.Text? && MatchesSubstring(TreeOf(regex.text), str.text)
  {
    found := ValidateRegex(regex);
    if found {
      found := MatchRegexAnywhere(regex, str, TreeOf(regex.text));
    }
  }

  /** RE::FullMatch: anchored at the start always, at the end unless the last $ is escaped. */
  method FullMatch(regex: CString, str: CString) returns (found: bool)
    requires regex.Text? ==> NoNul(regex.text)
    requires str.Text? ==> NoNul(str.text) && |str.text| < SIZE_MAX
    ensures found <==>
      regex.Text? && IsWritten(regex.text) && str.Text? &&
      var r := TreeOf(regex.text); MatchesPrefix(r.items, !EndsInEscapedDollar(r), str.text)
  {
    hide MatchesPrefix;
    found := ValidateRegex(regex);
    if found {
      ghost var r := TreeOf(regex.text);
      ghost var full := Regex(true, r.items, !EndsInEscapedDollar(r));
      FullPatternIsWritten(r);
      found := MatchRegexAnywhere(Text(FullPattern(regex.text)), str, full);
      assert str.Text? ==> str.text[0..] == str.text;
    }
  }

  // ---------- when FullMatch is a full match ----------

  /** Every atom accepts some character, so every language has a word; x ends no word of \$. */
  lemma AtomSample(it: Item) returns (ch: char)
    requires ItemOk(it)
    ensures InClass(it.escaped, it.c, ch) && ch != NUL
  {
    hide InClass, AtomMatchesChar;
    ch := SampleOf(it.escaped, it.c);
    AtomMatchesClass(it.escaped, it.c, ch);
    SampleMatches(it);
  }

  /** A character that matches: a digit and a letter and a blank, or the character that is written. */
  ghost function SampleOf(escaped: bool, c: char): char {
    if !escaped then if c == '.' then 'a' else c
    else
      match c
      case 'd' => '0'
      case 'D' => 'a'
      case 'f' => '\U{000C}'
      case 'n' => '\n'
      case 'r' => '\r'
      case 's' => ' '
      case 'S' => 'a'
      case 't' => '\t'
      case 'v' => '\U{000B}'
      case 'w' => 'a'
      case 'W' => ' '
      case _ => c
  }

  lemma SampleMatches(it: Item)
    requires ItemOk(it)
    ensures var ch := SampleOf(it.escaped, it.c); AtomMatchesChar(it.escaped, it.c, ch) && ch != NUL
  {
    PunctuationWrittenOut(it.c);
  }

  lemma {:induction false} LanguageSample(items: seq<Item>) returns (w: string)
    requires ItemsOk(items)
    ensures InLanguage(items, w) && NoNul(w)
    decreases |items|
  {
    if items == [] {
      w := "";
    } else {
      var ch := AtomSample(items[0]);
      var rest := LanguageSample(items[1..]);
      hide InClass;
      w := [ch] + rest;
      assert w[..1] == [ch] && w[1..] == rest;
      assert ItemAccepts(items[0], w[..1]) && InLanguage(items[1..], w[1..]);
    }
  }

  /** Words of a language that ends in a single atom end in a character of that atom. */
  lemma {:induction false} LastAtom(items: seq<Item>, w: string)
    requires items != [] && items[|items| - 1].repeat == Once && InLanguage(items, w)
    ensures w != "" && var it := items[|items| - 1]; InClass(it.escaped, it.c, w[|w| - 1])
    decreases |items|
  {
    hide InClass;
    var k :| 0 <= k <= |w| && ItemAccepts(items[0], w[..k]) && InLanguage(items[1..], w[k..]);
    if |items| == 1 {
      assert w[k..] == "" && w[..k] == w;
    } else {
      LastAtom(items[1..], w[k..]);
      assert w[k..][|w| - k - 1] == w[|w| - 1];
    }
  }

  /** A string that FullMatch accepts although it is not in the language. */
  lemma EscapedDollarMisled(r: Regex) returns (s: string)
    requires ItemsOk(r.items) && EndsInEscapedDollar(r)
    ensures NoNul(s) && MatchesPrefix(r.items, false, s) && !InLanguage(r.items, s)
  {
    hide InLanguage, ItemsOk, NoNul, MatchesPrefix, InClass;
    var w := LanguageSample(r.items);
    s := w + ['x'];
    ExtendWord(r.items, w, 'x');
    if InLanguage(r.items, s) {
      LastAtom(r.items, s);
      DollarMatchesDollar(s[|s| - 1]);
    }
  }

  const ESCAPED_DOLLAR := Item(true, '$', Once)

  lemma EscapedDollarTree()
    ensures IsWritten(['\\', '$']) && TreeOf(['\\', '$']) == Regex(false, [ESCAPED_DOLLAR], false)
  {
    hide TreeOf;
    var items := [ESCAPED_DOLLAR];
    assert items[1..] == [];
    assert WriteTail(items[1..], false) == "";
    assert WriteTail(items, false) == WriteItem(ESCAPED_DOLLAR) + "" == ['\\', '$'];
    assert Write(Regex(false, items, false)) == ['\\', '$'];
    assert IsPunctuation('$') && ItemOk(ESCAPED_DOLLAR);
    WritingDeterminesTree(TreeOf(['\\', '$']), Regex(false, items, false));
  }

  /** The shortest of them, written with a backslash and a dollar sign, and a string that its full
      match accepts: a dollar sign and an x. */
  lemma EscapedDollarExample()
    ensures IsWritten(['\\', '$'])
    ensures var r := TreeOf(['\\', '$']);
            EndsInEscapedDollar(r) && MatchesPrefix(r.items, false, ['$', 'x']) && !InLanguage(r.items, ['$', 'x'])
  {
    hide InClass, InLanguage, MatchesPrefix, TreeOf, IsWritten;
    EscapedDollarTree();
    var items := [ESCAPED_DOLLAR];
    DollarMatchesDollar('$');
    PrefixOfOnce(ESCAPED_DOLLAR, [], false, ['$', 'x']);
    PrefixOfNothing(false, ['$', 'x'][1..]);
    assert items + [] == items;
    if InLanguage(items, ['$', 'x']) {
      LastAtom(items, ['$', 'x']);
      DollarMatchesDollar('x');
    }
  }

  lemma ExtendWord(items: seq<Item>, w: string, ch: char)
    requires InLanguage(items, w) && NoNul(w) && ch != NUL
    ensures MatchesPrefix(items, false, w + [ch]) && NoNul(w + [ch])
  {
    hide InLanguage;
    assert (w + [ch])[..|w|] == w;
  }

  lemma DollarMatchesDollar(ch: char)
    ensures InClass(true, '$', ch) <==> ch == '$'
  {
  }

  lemma AnchoredPrefixIsWhole(items: seq<Item>, s: string)
    ensures MatchesPrefix(items, true, s) <==> InLanguage(items, s)
  {
    hide InLanguage;
    assert s[..|s|] == s;
  }

  /** FullMatch decides whether the whole string is in the language, for every string, exactly
      when the regex does not end in an escaped dollar sign. */
  lemma FullMatchExact(r: Regex)
    requires ItemsOk(r.items)
    ensures (forall s :: NoNul(s) ==> (MatchesPrefix(r.items, !EndsInEscapedDollar(r), s) <==> InLanguage(r.items, s)))
            <==> !EndsInEscapedDollar(r)
  {
    hide InLanguage, MatchesPrefix, ItemsOk, NoNul;
    if EndsInEscapedDollar(r) {
      var s := EscapedDollarMisled(r);
    } else {
      forall s ensures MatchesPrefix(r.items, true, s) <==> InLanguage(r.items, s) {
        AnchoredPrefixIsWhole(r.items, s);
      }
    }
  }
}
