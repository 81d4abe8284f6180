/**
 Python's `str` operations that the scrapers use, over `string` (a sequence of code points):
 `find`/`in`, `split(sep)`, `join`, `replace`, `strip()` and `upper()`.
 */
module Text {
  import opened Wrappers

  /** Python's `str.isspace()`: the characters `str.strip()` removes when given no argument. */
  predicate IsSpace(c: char) {
    || c == ' '
    || ('\t' <= c <= '\r')
    || ('\U{1C}' <= c <= '\U{1F}')
    || c == '\U{85}' || c == '\U{A0}' || c == '\U{1680}'
    || ('\U{2000}' <= c <= '\U{200A}')
    || c == '\U{2028}' || c == '\U{2029}' || c == '\U{202F}' || c == '\U{205F}' || c == '\U{3000}'
  }

  /** `t` occurs in `s` starting at index `i`. */
  predicate OccursAt(s: string, t: string, i: int) {
    0 <= i && i + |t| <= |s| && s[i..i + |t|] == t
  }

  function FindFrom(s: string, t: string, i: nat): (r: Option<nat>)
    requires i <= |s|
    ensures r.Some? ==> i <= r.value && OccursAt(s, t, r.value)
    ensures r.Some? ==> forall j :: i <= j < r.value ==> !OccursAt(s, t, j)
    ensures r.None? ==> forall j :: i <= j ==> !OccursAt(s, t, j)
    decreases |s| - i
  {
    if OccursAt(s, t, i) then Some(i)
    else if i + |t| >= |s| then None
    else FindFrom(s, t, i + 1)
  }

  /** Python's `s.find(t)`: the lowest index where `t` occurs, or None for -1. */
  function Find(s: string, t: string): (r: Option<nat>)
    ensures r.Some? ==> OccursAt(s, t, r.value) && forall j :: 0 <= j < r.value ==> !OccursAt(s, t, j)
    ensures r.None? ==> forall j :: !OccursAt(s, t, j)
  {
    FindFrom(s, t, 0)
  }

  /** Python's `t in s` for strings. */
  predicate Contains(s: string, t: string) {
    Find(s, t).Some?
  }

  lemma OccursAtContains(s: string, t: string, i: int)
    requires OccursAt(s, t, i)
    ensures Contains(s, t)
  {
  }

  /** An occurrence inside a slice of `s` is an occurrence in `s`. */
  lemma OccursInSlice(s: string, t: string, lo: nat, hi: nat, j: int)
    requires lo <= hi <= |s|
    requires OccursAt(s[lo..hi], t, j)
    ensures OccursAt(s, t, lo + j)
  {
    forall k | 0 <= k < |t|
      ensures s[lo + j..lo + j + |t|][k] == t[k]
    {
      assert s[lo..hi][j..j + |t|][k] == t[k];
    }
  }

  /** Python's `sep.join(parts)`. */
  function Join(parts: seq<string>, sep: string): string
  {
    if |parts| == 0 then ""
    else if |parts| == 1 then parts[0]
    else parts[0] + sep + Join(parts[1..], sep)
  }

  /**
   Python's `s.split(sep)` for a non-empty separator (an empty one raises ValueError, and every
   caller passes a literal): cut at each occurrence found scanning left to right.
   Joining the parts again with `sep` gives back `s`, and no part contains `sep`.
   */
  function Split(s: string, sep: string): (parts: seq<string>)
    requires sep != []
    ensures |parts| >= 1
    ensures Join(parts, sep) == s
    ensures |parts| == 1 <==> !Contains(s, sep)
    ensures forall k :: 0 <= k < |parts| ==> !Contains(parts[k], sep)
    decreases |s|
  {
    match Find(s, sep)
    case None => [s]
    case Some(i) =>
      var rest := Split(s[i + |sep|..], sep);
      SplitCons(s, sep, i, rest);
      [s[..i]] + rest
  }

  /** Cutting at the first occurrence and splitting the rest gives a split of the whole text. */
  lemma SplitCons(s: string, sep: string, i: nat, rest: seq<string>)
    requires sep != [] && Find(s, sep) == Some(i)
    requires |rest| >= 1 && Join(rest, sep) == s[i + |sep|..]
    requires forall k :: 0 <= k < |rest| ==> !Contains(rest[k], sep)
    ensures var parts := [s[..i]] + rest;
      && |parts| >= 2
      && Join(parts, sep) == s
      && Contains(s, sep)
      && forall k :: 0 <= k < |parts| ==> !Contains(parts[k], sep)
  {
    JoinAtFirst(s, sep, i, rest);
    NoEarlierOccurrence(s, sep, i);
    PartsCons(s[..i], rest, sep);
  }

  /** The text is its part before the first occurrence, `sep`, and the rest. */
  lemma JoinAtFirst(s: string, sep: string, i: nat, rest: seq<string>)
    requires i + |sep| <= |s| && s[i..i + |sep|] == sep
    requires |rest| >= 1 && Join(rest, sep) == s[i + |sep|..]
    ensures Join([s[..i]] + rest, sep) == s
  {
    JoinCons(s[..i], rest, sep);
    CutAround(s, i, |sep|);
  }

  /** Joining a part in front of at least one more. */
  lemma JoinCons(first: string, rest: seq<string>, sep: string)
    requires |rest| >= 1
    ensures Join([first] + rest, sep) == first + sep + Join(rest, sep)
  {
    assert ([first] + rest)[1..] == rest;
  }

  /** A string is its text before position `i`, the `n` characters there, and the rest. */
  lemma CutAround(s: string, i: nat, n: nat)
    requires i + n <= |s|
    ensures s == s[..i] + s[i..i + n] + s[i + n..]
  {
  }

  /** Prepending a part without `sep` to parts without `sep`. */
  lemma PartsCons(first: string, rest: seq<string>, sep: string)
    requires !Contains(first, sep)
    requires forall k :: 0 <= k < |rest| ==> !Contains(rest[k], sep)
    ensures forall k :: 0 <= k < |[first] + rest| ==> !Contains(([first] + rest)[k], sep)
  {
    var parts := [first] + rest;
    forall k | 0 <= k < |parts|
      ensures !Contains(parts[k], sep)
    {
      if k > 0 {
        assert parts[k] == rest[k - 1];
      }
    }
  }

  /** The text before the first occurrence of `sep` does not contain `sep`. */
  lemma NoEarlierOccurrence(s: string, sep: string, i: nat)
    requires sep != [] && Find(s, sep) == Some(i)
    ensures !Contains(s[..i], sep)
  {
    if Contains(s[..i], sep) {
      var j := Find(s[..i], sep).value;
      OccursInSlice(s, sep, 0, i, j);
      assert false;
    }
  }

  /** The first part of a split is the text up to the first occurrence of the separator. */
  lemma SplitFirst(s: string, sep: string)
    requires sep != []
    ensures Split(s, sep)[0] == UpToFirst(s, sep)
  {
  }

  /** Unfolding a split once: `s` is the first part, `sep`, and the join of the remaining parts. */
  lemma SplitUnfold(s: string, sep: string)
    requires sep != [] && Contains(s, sep)
    ensures var i := Find(s, sep).value;
      Split(s, sep) == [s[..i]] + Split(s[i + |sep|..], sep)
  {
  }

  /** `last` ends `s`, and either is all of `s` or follows an occurrence of `sep`. */
  predicate EndsAfter(s: string, last: string, sep: string) {
    && |last| <= |s| && s[|s| - |last|..] == last
    && (|last| < |s| ==> |last| + |sep| <= |s| && s[|s| - |last| - |sep|..|s| - |last|] == sep)
  }

  /** What ends the text after an occurrence of `sep` ends the whole text. */
  lemma EndsAfterExtend(s: string, sep: string, i: nat, last: string)
    requires i + |sep| <= |s| && s[i..i + |sep|] == sep
    requires EndsAfter(s[i + |sep|..], last, sep)
    ensures EndsAfter(s, last, sep)
  {
    var rest := s[i + |sep|..];
    var start := |s| - |last|;
    assert s[start..] == rest[|rest| - |last|..];
    if start == i + |sep| {
      assert s[start - |sep|..start] == s[i..i + |sep|];
    } else {
      assert s[start - |sep|..start] == rest[|rest| - |last| - |sep|..|rest| - |last|];
    }
  }

  /** The last of the joined parts ends the joined text, right after a separator if there are several. */
  lemma {:induction false} JoinLast(parts: seq<string>, sep: string, s: string)
    requires |parts| >= 1 && Join(parts, sep) == s
    ensures EndsAfter(s, parts[|parts| - 1], sep)
  {
    if |parts| == 1 {
      assert s == parts[0];
    } else {
      var i := |parts[0]|;
      var rest := Join(parts[1..], sep);
      assert s == parts[0] + sep + rest;
      assert s[i..i + |sep|] == sep;
      assert s[i + |sep|..] == rest;
      JoinLast(parts[1..], sep, rest);
      EndsAfterExtend(s, sep, i, parts[|parts| - 1]);
    }
  }

  /** `parts` joined by `sep` give `s`, and no part contains `sep`: what a split returns. */
  predicate SplitsInto(s: string, sep: string, parts: seq<string>) {
    && |parts| >= 1
    && Join(parts, sep) == s
    && forall k :: 0 <= k < |parts| ==> !Contains(parts[k], sep)
  }

  lemma SplitSplitsInto(s: string, sep: string)
    requires sep != []
    ensures SplitsInto(s, sep, Split(s, sep))
  {
  }

  /** The text up to the first occurrence of `sep`, or all of `s`: the first part of a split. */
  function UpToFirst(s: string, sep: string): (r: string)
    requires sep != []
    ensures |r| <= |s| && s[..|r|] == r
    ensures |r| == |s| || OccursAt(s, sep, |r|)
    ensures !Contains(r, sep)
  {
    match Find(s, sep)
    case None => s
    case Some(i) => NoEarlierOccurrence(s, sep, i); s[..i]
  }

  /** Up to the first `c`: the text before index `i` when `s[i]` is the first `c`. */
  lemma UpToFirstChar(s: string, c: char, i: nat)
    requires i < |s| && s[i] == c && c !in s[..i]
    ensures UpToFirst(s, [c]) == s[..i]
  {
    assert s[i..i + 1] == [c];
    forall k | 0 <= k < i
      ensures !OccursAt(s, [c], k)
    {
      assert s[..i][k] == s[k];
      assert s[k..k + 1] == [s[k]];
    }
    var r := Find(s, [c]);
    assert OccursAt(s, [c], i);
    assert r.Some? && r.value == i;
  }

  /**
   Python's `s.split(sep)[1]`, or None where that raises IndexError (no `sep` in `s`): the text
   between the first occurrence of `sep` and the next one (or the end of `s`).
   */
  function SecondPart(s: string, sep: string): (r: Option<string>)
    requires sep != []
    ensures r.Some? <==> Contains(s, sep)
    ensures r.Some? ==> !Contains(r.value, sep)
    ensures r.Some? ==>
      var start := Find(s, sep).value + |sep|;
      var end := start + |r.value|;
      end <= |s| && s[start..end] == r.value && (end == |s| || OccursAt(s, sep, end))
  {
    match Find(s, sep)
    case None => None
    case Some(i) =>
      AfterOccurrence(s, sep, i);
      Some(UpToFirst(s[i + |sep|..], sep))
  }

  /** The text after an occurrence, up to the next occurrence or the end, sits in `s` right after it. */
  lemma AfterOccurrence(s: string, sep: string, i: nat)
    requires sep != [] && i + |sep| <= |s|
    ensures var p := UpToFirst(s[i + |sep|..], sep);
      var end := i + |sep| + |p|;
      end <= |s| && s[i + |sep|..end] == p && (end == |s| || OccursAt(s, sep, end))
  {
    var rest := s[i + |sep|..];
    var p := UpToFirst(rest, sep);
    assert s[i + |sep|..i + |sep| + |p|] == rest[..|p|];
    if |p| < |rest| {
      assert rest == s[i + |sep|..|s|];
      OccursInSlice(s, sep, i + |sep|, |s|, |p|);
    }
  }

  /** `SecondPart` is the second element of the split, when there is one. */
  lemma SecondPartIsSplit(s: string, sep: string)
    requires sep != []
    ensures SecondPart(s, sep) == if |Split(s, sep)| >= 2 then Some(Split(s, sep)[1]) else None
  {
    match Find(s, sep)
    case None =>
    case Some(i) =>
      SplitUnfold(s, sep);
      SplitFirst(s[i + |sep|..], sep);
  }

  /** Python's `s.replace(pat, rep)` with an empty pattern: `rep` before every character and at the end. */
  function Interleave(s: string, rep: string): (r: string)
    ensures rep == [] ==> r == s
  {
    if s == [] then rep else rep + [s[0]] + Interleave(s[1..], rep)
  }

  /** Python's `s.replace(pat, rep)`: every occurrence found scanning left to right is replaced. */
  function Replace(s: string, pat: string, rep: string): string
  {
    if pat == [] then Interleave(s, rep) else ReplaceEach(s, pat, rep)
  }

  function ReplaceEach(s: string, pat: string, rep: string): string
    requires pat != []
    decreases |s|
  {
    match Find(s, pat)
    case None => s
    case Some(i) => s[..i] + rep + ReplaceEach(s[i + |pat|..], pat, rep)
  }

  /** Replacing is joining the split with the replacement (Python documents the two as equal). */
  lemma ReplaceIsJoinOfSplit(s: string, pat: string, rep: string)
    requires pat != []
    ensures Replace(s, pat, rep) == Join(Split(s, pat), rep)
  {
    ReplaceEachIsJoinOfSplit(s, pat, rep);
  }

  lemma {:induction false} ReplaceEachIsJoinOfSplit(s: string, pat: string, rep: string)
    requires pat != []
    ensures ReplaceEach(s, pat, rep) == Join(Split(s, pat), rep)
    decreases |s|
  {
    match Find(s, pat)
    case None =>
    case Some(i) =>
      var rest := s[i + |pat|..];
      ReplaceEachIsJoinOfSplit(rest, pat, rep);
      var parts := [s[..i]] + Split(rest, pat);
      assert parts[1..] == Split(rest, pat);
  }

  /** Without an occurrence of the pattern (so the pattern is not empty), replacing changes nothing. */
  lemma ReplaceAbsent(s: string, pat: string, rep: string)
    requires !Contains(s, pat)
    ensures Replace(s, pat, rep) == s
  {
    assert pat != [] by {
      if pat == [] {
        assert OccursAt(s, pat, 0);
      }
    }
  }

  /** Replacing never brings in a character that neither the text nor the replacement holds. */
  lemma ReplaceKeepsOut(s: string, pat: string, rep: string, c: char)
    requires c !in s && c !in rep
    ensures c !in Replace(s, pat, rep)
  {
    if pat == [] {
      InterleaveKeepsOut(s, rep, c);
    } else {
      ReplaceEachKeepsOut(s, pat, rep, c);
    }
  }

  lemma {:induction false} InterleaveKeepsOut(s: string, rep: string, c: char)
    requires c !in s && c !in rep
    ensures c !in Interleave(s, rep)
    decreases |s|
  {
    if s != [] {
      assert c !in s[1..];
      InterleaveKeepsOut(s[1..], rep, c);
    }
  }

  lemma {:induction false} ReplaceEachKeepsOut(s: string, pat: string, rep: string, c: char)
    requires pat != [] && c !in s && c !in rep
    ensures c !in ReplaceEach(s, pat, rep)
    decreases |s|
  {
    match Find(s, pat)
    case None =>
    case Some(i) =>
      assert c !in s[..i];
      assert c !in s[i + |pat|..];
      ReplaceEachKeepsOut(s[i + |pat|..], pat, rep, c);
  }

  /** A one-character text occurs in `s` exactly when that character is an element of `s`. */
  lemma ContainsChar(s: string, c: char)
    ensures Contains(s, [c]) <==> c in s
  {
    if c in s {
      var i :| 0 <= i < |s| && s[i] == c;
      assert s[i..i + 1] == [c];
      OccursAtContains(s, [c], i);
    }
    if Contains(s, [c]) {
      var i := Find(s, [c]).value;
      assert s[i..i + 1][0] == s[i];
    }
  }

  /** The stripped text holds no character the text does not hold. */
  lemma StripKeepsOut(s: string, c: char)
    requires c !in s
    ensures c !in Strip(s)
  {
    var r := Strip(s);
    var i := LeadingSpace(s);
    forall k | 0 <= k < |r|
      ensures r[k] != c
    {
      assert r[k] == s[i + k];
    }
  }

  /** A replacement no longer than the pattern never lengthens (an empty pattern needs an empty one). */
  lemma ReplaceNoLonger(s: string, pat: string, rep: string)
    requires |rep| <= |pat|
    ensures |Replace(s, pat, rep)| <= |s|
  {
    if pat != [] {
      ReplaceEachNoLonger(s, pat, rep);
    }
  }

  lemma {:induction false} ReplaceEachNoLonger(s: string, pat: string, rep: string)
    requires |rep| <= |pat| && pat != []
    ensures |ReplaceEach(s, pat, rep)| <= |s|
    decreases |s|
  {
    match Find(s, pat)
    case None =>
    case Some(i) =>
      ReplaceEachNoLonger(s[i + |pat|..], pat, rep);
  }

  /** The number of leading whitespace characters. */
  function LeadingSpace(s: string): (n: nat)
    ensures n <= |s|
    ensures forall k :: 0 <= k < n ==> IsSpace(s[k])
    ensures n < |s| ==> !IsSpace(s[n])
  {
    if s == [] || !IsSpace(s[0]) then 0 else 1 + LeadingSpace(s[1..])
  }

  /** The number of trailing whitespace characters. */
  function TrailingSpace(s: string): (n: nat)
    ensures n <= |s|
    ensures forall k :: |s| - n <= k < |s| ==> IsSpace(s[k])
    ensures n < |s| ==> !IsSpace(s[|s| - 1 - n])
  {
    if s == [] || !IsSpace(s[|s| - 1]) then 0 else 1 + TrailingSpace(s[..|s| - 1])
  }

  /**
   Python's `s.strip()`: the infix of `s` left after removing whitespace at both ends.
   The result starts and ends with a non-space, and everything removed is whitespace.
   */
  function Strip(s: string): (r: string)
    ensures |r| <= |s|
    ensures r == [] || (!IsSpace(r[0]) && !IsSpace(r[|r| - 1]))
    ensures var i := LeadingSpace(s); i + |r| <= |s| && s[i..i + |r|] == r
    ensures forall k :: LeadingSpace(s) + |r| <= k < |s| ==> IsSpace(s[k])
  {
    var i := LeadingSpace(s);
    var rest := s[i..];
    rest[..|rest| - TrailingSpace(rest)]
  }

  predicate IsLower(c: char) { 'a' <= c <= 'z' }

  function UpperChar(c: char): char {
    if IsLower(c) then (c as int - 32) as char else c
  }

  /** Python's `s.upper()` on ASCII letters. */
  function Upper(s: string): (r: string)
    ensures |r| == |s|
    ensures forall k :: 0 <= k < |r| ==> !IsLower(r[k])
    ensures forall k :: 0 <= k < |s| && !('a' <= s[k] <= 'z' || 'A' <= s[k] <= 'Z') ==> r[k] == s[k]
    ensures forall k :: 0 <= k < |s| && 'a' <= s[k] <= 'z' ==> r[k] as int == s[k] as int - 32
    ensures forall k :: 0 <= k < |s| && 'A' <= s[k] <= 'Z' ==> r[k] == s[k]
    ensures forall k :: 0 <= k < |s| ==> (IsSpace(r[k]) <==> IsSpace(s[k]))
  {
    seq(|s|, k requires 0 <= k < |s| => UpperChar(s[k]))
  }

  /** Upper-casing never brings in a character that is not a letter. */
  lemma UpperKeepsOut(s: string, c: char)
    requires c !in s && !('a' <= c <= 'z' || 'A' <= c <= 'Z')
    ensures c !in Upper(s)
  {
    var r := Upper(s);
    forall k | 0 <= k < |r|
      ensures r[k] != c
    {
      if 'a' <= s[k] <= 'z' {
        assert 'A' <= r[k] <= 'Z';
      }
    }
  }

  /** The decimal digits of `n`, most significant first. */
  function Digits(n: nat): (r: string)
    ensures |r| >= 1
    ensures forall k :: 0 <= k < |r| ==> '0' <= r[k] <= '9'
    decreases n
  {
    var d := ['0' + (n % 10) as char];
    if n < 10 then d else Digits(n / 10) + d
  }

  /** Python's `str(n)` for an int. */
  function Decimal(n: int): string {
    if n < 0 then "-" + Digits(-n) else Digits(n)
  }

  /** A number of one digit is written with one character, a larger one with more. */
  lemma DigitsLength(n: nat)
    ensures |Digits(n)| == 1 <==> n < 10
  {
    if n >= 10 {
      assert |Digits(n)| == |Digits(n / 10)| + 1;
    }
  }

  /** Different numbers are written differently. */
  lemma {:induction false} DigitsInjective(a: nat, b: nat)
    requires Digits(a) == Digits(b)
    ensures a == b
    decreases a
  {
    var da, db := Digits(a), Digits(b);
    assert da[|da| - 1] == '0' + (a % 10) as char;
    assert db[|db| - 1] == '0' + (b % 10) as char;
    DigitsLength(a);
    DigitsLength(b);
    if a >= 10 {
      assert Digits(a / 10) == da[..|da| - 1] == db[..|db| - 1] == Digits(b / 10);
      DigitsInjective(a / 10, b / 10);
    }
  }

  /** `str(a) == str(b)` only for `a == b`. */
  lemma DecimalInjective(a: int, b: int)
    requires Decimal(a) == Decimal(b)
    ensures a == b
  {
    DecimalSign(a);
    DecimalSign(b);
    if a < 0 {
      DigitsInjective(-a, -b);
    } else {
      DigitsInjective(a, b);
    }
  }

  /** A negative number is written as a minus sign and the digits of its magnitude; others as their digits. */
  lemma DecimalSign(n: int)
    ensures Decimal(n)[0] == '-' <==> n < 0
    ensures n < 0 ==> Decimal(n)[1..] == Digits(-n)
    ensures n >= 0 ==> Decimal(n) == Digits(n)
  {
    var d := Digits(if n < 0 then -n else n);
    assert '0' <= d[0] <= '9';
    if n < 0 {
      assert Decimal(n) == "-" + d;
    }
  }
}
