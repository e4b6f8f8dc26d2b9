/**
 * The few Python string operations the scraper relies on, on `string`
 * (a sequence of Unicode scalar values): `str.strip()`, `str.lower()`,
 * `sub in s`, `s.startswith(p)`, `sep.join(parts)` and `s.split(' ')[0]`.
 */
module Text {

  /** Python's `str.isspace()` for one character: exactly the characters
      that `str.strip()` with no argument removes. */
  predicate IsSpace(c: char) {
    || ('\t' <= c <= '\r')                 // \t \n \v \f \r
    || ('\U{1C}' <= c <= '\U{1F}')         // file, group, record, unit separators
    || c == ' ' || c == '\U{85}' || c == '\U{A0}' || c == '\U{1680}'
    || ('\U{2000}' <= c <= '\U{200A}')
    || c == '\U{2028}' || c == '\U{2029}' || c == '\U{202F}' || c == '\U{205F}'
    || c == '\U{3000}'
  }

  /** A string with no whitespace at either end: what `strip()` returns. */
  predicate IsStripped(s: string) {
    s == [] || (!IsSpace(s[0]) && !IsSpace(s[|s| - 1]))
  }

  /** `r` is `s` with some whitespace removed from the front and the back. */
  ghost predicate IsTrimOf(s: string, r: string) {
    exists i :: 0 <= i <= |s| - |r| && TrimAt(s, r, i)
  }

  ghost predicate TrimAt(s: string, r: string, i: int)
    requires 0 <= i <= |s| - |r|
  {
    && s[i..i + |r|] == r
    && (forall k :: 0 <= k < i ==> IsSpace(s[k]))
    && (forall k :: i + |r| <= k < |s| ==> IsSpace(s[k]))
  }

  function StripLeft(s: string): (r: string)
    ensures |r| <= |s| && r == s[|s| - |r|..]
    ensures r == [] || !IsSpace(r[0])
  {
    if |s| > 0 && IsSpace(s[0]) then StripLeft(s[1..]) else s
  }

  /** `StripLeft` removes only whitespace. */
  lemma {:induction false} StripLeftRemovesSpace(s: string)
    ensures forall k :: 0 <= k < |s| - |StripLeft(s)| ==> IsSpace(s[k])
    decreases |s|
  {
    if |s| > 0 && IsSpace(s[0]) {
      StripLeftRemovesSpace(s[1..]);
      assert forall k :: 1 <= k < |s| ==> s[k] == s[1..][k - 1];
    }
  }

  function StripRight(s: string): (r: string)
    ensures |r| <= |s| && r == s[..|r|]
    ensures r == [] || !IsSpace(r[|r| - 1])
  {
    if |s| > 0 && IsSpace(s[|s| - 1]) then StripRight(s[..|s| - 1]) else s
  }

  /** `StripRight` removes only whitespace. */
  lemma {:induction false} StripRightRemovesSpace(s: string)
    ensures forall k :: |StripRight(s)| <= k < |s| ==> IsSpace(s[k])
    decreases |s|
  {
    if |s| > 0 && IsSpace(s[|s| - 1]) {
      StripRightRemovesSpace(s[..|s| - 1]);
    }
  }

  /** Python's `s.strip()`: the longest part of `s` that neither starts nor
      ends with whitespace, after removing whitespace at both ends. */
  function Strip(s: string): (r: string)
    ensures IsStripped(r)
    ensures IsStripped(s) ==> r == s
  {
    StripRight(StripLeft(s))
  }

  /** `Strip` removes whitespace from both ends and nothing else. */
  lemma StripTrims(s: string)
    ensures IsTrimOf(s, Strip(s))
  {
    var left := StripLeft(s);
    StripLeftRemovesSpace(s);
    StripRightRemovesSpace(left);
    TrimCompose(s, left, StripRight(left), |s| - |left|);
  }

  lemma TrimCompose(s: string, left: string, r: string, i: int)
    requires 0 <= i <= |s| && left == s[i..]
    requires forall k :: 0 <= k < i ==> IsSpace(s[k])
    requires |r| <= |left| && r == left[..|r|]
    requires forall k :: |r| <= k < |left| ==> IsSpace(left[k])
    ensures IsTrimOf(s, r)
  {
    assert s[i..i + |r|] == r;
    forall k | i + |r| <= k < |s| ensures IsSpace(s[k]) {
      assert s[k] == left[k - i];
    }
    assert TrimAt(s, r, i);
  }

  /** `strip()` gives the empty string exactly when every character of the
      input is whitespace. */
  lemma StripEmptyIffBlank(s: string)
    ensures Strip(s) == [] <==> forall k :: 0 <= k < |s| ==> IsSpace(s[k])
  {
    if forall k :: 0 <= k < |s| ==> IsSpace(s[k]) {
      StripLeftBlank(s);
    } else {
      StripTrims(s);
      var i :| 0 <= i <= |s| - |Strip(s)| && TrimAt(s, Strip(s), i);
    }
  }

  lemma {:induction false} StripLeftBlank(s: string)
    requires forall k :: 0 <= k < |s| ==> IsSpace(s[k])
    ensures StripLeft(s) == []
    decreases |s|
  {
    if |s| > 0 {
      assert IsSpace(s[0]);
      assert forall k :: 0 <= k < |s| - 1 ==> s[1..][k] == s[k + 1];
      StripLeftBlank(s[1..]);
    }
  }

  /** `lower()` is idempotent. */
  lemma LowerIdempotent(s: string)
    ensures Lower(Lower(s)) == Lower(s)
  {
  }

  /** ASCII case folding of one character. */
  function LowerChar(c: char): (r: char)
    ensures 'A' <= c <= 'Z' ==> 'a' <= r <= 'z' && r as int - c as int == 32
    ensures !('A' <= c <= 'Z') ==> r == c
  {
    if 'A' <= c <= 'Z' then (c as int + 32) as char else c
  }

  /** Python's `s.lower()`, restricted to ASCII letters. */
  function Lower(s: string): (r: string)
    ensures |r| == |s|
    ensures forall i :: 0 <= i < |s| ==> r[i] == LowerChar(s[i])
  {
    seq(|s|, i requires 0 <= i < |s| => LowerChar(s[i]))
  }

  /** Python's `s.startswith(prefix)`. */
  predicate StartsWith(s: string, prefix: string) {
    |prefix| <= |s| && s[..|prefix|] == prefix
  }

  /** Python's `s.endswith(suffix)`. */
  predicate EndsWith(s: string, suffix: string) {
    |suffix| <= |s| && s[|s| - |suffix|..] == suffix
  }

  /** `sub` occurs in `s` starting at index `i`. */
  ghost predicate OccursAt(s: string, sub: string, i: int) {
    0 <= i <= |s| - |sub| && s[i..i + |sub|] == sub
  }

  /** Python's `sub in s` (the empty string occurs in every string);
      `ContainsOccurs` says what it means. */
  predicate Contains(s: string, sub: string)
    decreases |s|
  {
    StartsWith(s, sub) || (|s| > 0 && Contains(s[1..], sub))
  }

  /** `sub in s` holds exactly when `sub` occurs at some index of `s`. */
  lemma {:induction false} ContainsOccurs(s: string, sub: string)
    ensures Contains(s, sub) <==> exists i :: OccursAt(s, sub, i)
    decreases |s|
  {
    if StartsWith(s, sub) {
      assert OccursAt(s, sub, 0);
    } else if |s| > 0 {
      ContainsOccurs(s[1..], sub);
      OccursShift(s, sub);
    }
  }

  /** When `sub` is not a prefix of `s`, it occurs in `s` iff it occurs in
      the tail of `s`. */
  lemma OccursShift(s: string, sub: string)
    requires |s| > 0 && !StartsWith(s, sub)
    ensures (exists i :: OccursAt(s, sub, i)) <==> (exists i :: OccursAt(s[1..], sub, i))
  {
    forall i | OccursAt(s[1..], sub, i) ensures OccursAt(s, sub, i + 1) {
      SliceOfTail(s, i, i + |sub|);
    }
    forall i | OccursAt(s, sub, i) ensures OccursAt(s[1..], sub, i - 1) {
      assert i != 0;
      SliceOfTail(s, i - 1, i - 1 + |sub|);
    }
  }

  lemma SliceOfTail(s: string, lo: int, hi: int)
    requires 0 <= lo <= hi < |s|
    ensures s[1..][lo..hi] == s[lo + 1..hi + 1]
  {
    assert forall k :: 0 <= k < hi - lo ==> s[1..][lo..hi][k] == s[lo + 1 + k];
  }

  /** A prefix is a substring. */
  lemma StartsWithContains(s: string, prefix: string)
    requires StartsWith(s, prefix)
    ensures Contains(s, prefix)
  {
  }

  /** Concatenation is associative. */
  lemma AppendAssoc<T>(a: seq<T>, b: seq<T>, c: seq<T>)
    ensures (a + b) + c == a + (b + c)
  {
  }

  /** Python's `sep.join(parts)`. The result begins with the first part and
      ends with the last one. */
  function Join(parts: seq<string>, sep: string): (r: string)
    ensures parts == [] ==> r == []
    ensures |parts| > 0 ==> StartsWith(r, parts[0])
    ensures |parts| > 0 ==> EndsWith(r, parts[|parts| - 1])
  {
    if |parts| == 0 then []
    else if |parts| == 1 then parts[0]
    else
      var rest := Join(parts[1..], sep);
      assert parts[1..][|parts[1..]| - 1] == parts[|parts| - 1];
      var r := parts[0] + sep + rest;
      assert r[|r| - |rest|..] == rest;
      r
  }

  /** Joining non-empty stripped parts gives a stripped string that is
      empty exactly when there are no parts. */
  lemma JoinStripped(parts: seq<string>, sep: string)
    requires forall i :: 0 <= i < |parts| ==> parts[i] != [] && IsStripped(parts[i])
    ensures IsStripped(Join(parts, sep))
    ensures Join(parts, sep) == [] <==> parts == []
  {
    if |parts| > 0 {
      var r := Join(parts, sep);
      var first, last := parts[0], parts[|parts| - 1];
      assert r[0] == first[0];
      assert r[|r| - 1] == last[|last| - 1] by {
        assert r[|r| - |last|..][|last| - 1] == last[|last| - 1];
      }
    }
  }

  /** Python's `s.split(' ')[0]`: the text before the first single space,
      or all of `s` when it holds no space. */
  function FirstToken(s: string): (r: string)
    ensures StartsWith(s, r)
    ensures ' ' !in r
    ensures |r| < |s| ==> s[|r|] == ' '
  {
    if s == [] || s[0] == ' ' then [] else [s[0]] + FirstToken(s[1..])
  }
}
