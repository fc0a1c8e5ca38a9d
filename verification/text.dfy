/**
 * The few Python `str` operations the application relies on, with Python's
 * semantics: `strip()`, substring search (`in`), `split(sep)`,
 * `replace(old, '')`, and `str()` of a non-negative integer.
 */
module Text {
  import opened Wrappers

  /** Python truthiness of an optional string: present and non-empty. */
  predicate Truthy(s: Option<string>)
  {
    s.Some? && s.value != []
  }

  // ---------------------------------------------------------------------
  // Whitespace and strip()
  // ---------------------------------------------------------------------

  /** The characters for which Python's `str.isspace()` is true. */
  predicate IsSpace(c: char)
  {
    || ('\t' <= c <= '\r')
    || ('\U{1C}' <= c <= ' ')
    || c == '\U{85}' || c == '\U{A0}' || c == '\U{1680}'
    || ('\U{2000}' <= c <= '\U{200A}')
    || c == '\U{2028}' || c == '\U{2029}' || c == '\U{202F}' || c == '\U{205F}' || c == '\U{3000}'
  }

  /** Neither the first nor the last character is whitespace. */
  predicate IsStripped(s: string)
  {
    s == [] || (!IsSpace(s[0]) && !IsSpace(s[|s| - 1]))
  }

  predicate AllSpace(s: string)
  {
    forall i :: 0 <= i < |s| ==> IsSpace(s[i])
  }

  /** Python's `lstrip()`: drops the longest all-whitespace prefix. */
  function TrimStart(s: string): (r: string)
    ensures |r| <= |s| && r == s[|s| - |r|..]
    ensures AllSpace(s[..|s| - |r|])
    ensures r != [] ==> !IsSpace(r[0])
    decreases |s|
  {
    if s != [] && IsSpace(s[0]) then
      var r := TrimStart(s[1..]);
      assert s[..|s| - |r|] == [s[0]] + s[1..][..|s| - 1 - |r|];
      r
    else s
  }

  /** Python's `rstrip()`: drops the longest all-whitespace suffix. */
  function TrimEnd(s: string): (r: string)
    ensures |r| <= |s| && r == s[..|r|]
    ensures AllSpace(s[|r|..])
    ensures r != [] ==> !IsSpace(r[|r| - 1])
    decreases |s|
  {
    if s != [] && IsSpace(s[|s| - 1]) then
      var r := TrimEnd(s[..|s| - 1]);
      assert s[|r|..] == s[..|s| - 1][|r|..] + [s[|s| - 1]];
      r
    else s
  }

  /** Python's `strip()`. */
  function Strip(s: string): (r: string)
    ensures IsStripped(r)
    ensures |r| <= |s|
  {
    TrimEnd(TrimStart(s))
  }

  /** `TrimStart` removes exactly a leading run of whitespace. */
  lemma {:induction false} TrimStartPadded(pre: string, rest: string)
    requires AllSpace(pre) && (rest == [] || !IsSpace(rest[0]))
    ensures TrimStart(pre + rest) == rest
    decreases |pre|
  {
    if pre != [] {
      assert (pre + rest)[1..] == pre[1..] + rest;
      TrimStartPadded(pre[1..], rest);
    }
  }

  /** `TrimEnd` removes exactly a trailing run of whitespace. */
  lemma {:induction false} TrimEndPadded(mid: string, post: string)
    requires AllSpace(post) && (mid == [] || !IsSpace(mid[|mid| - 1]))
    ensures TrimEnd(mid + post) == mid
    decreases |post|
  {
    var s := mid + post;
    if post == [] {
      assert s == mid;
    } else {
      assert s[|s| - 1] == post[|post| - 1];
      assert s[..|s| - 1] == mid + post[..|post| - 1];
      TrimEndPadded(mid, post[..|post| - 1]);
    }
  }

  /**
   * `Strip` removes exactly the surrounding whitespace: any string made of
   * whitespace, a stripped middle and whitespace strips to that middle.
   */
  lemma StripPadded(pre: string, mid: string, post: string)
    requires AllSpace(pre) && AllSpace(post) && IsStripped(mid)
    ensures Strip(pre + mid + post) == mid
  {
    if mid == [] {
      assert pre + mid + post == (pre + post) + [];
      TrimStartPadded(pre + post, []);
    } else {
      assert pre + mid + post == pre + (mid + post);
      TrimStartPadded(pre, mid + post);
      TrimEndPadded(mid, post);
    }
  }

  /** A string with no surrounding whitespace is left alone by `Strip`. */
  lemma StripStripped(x: string)
    requires IsStripped(x)
    ensures Strip(x) == x
  {
    assert [] + x == x;
    TrimStartPadded([], x);
    assert x + [] == x;
    TrimEndPadded(x, []);
  }

  /** Stripping twice is stripping once. */
  lemma StripIdempotent(s: string)
    ensures Strip(Strip(s)) == Strip(s)
  {
    StripStripped(Strip(s));
  }

  // ---------------------------------------------------------------------
  // Substring search: `pat in s`
  // ---------------------------------------------------------------------

  /** `pat` occurs in `s` starting at index `i`. */
  predicate MatchAt(s: string, pat: string, i: nat)
  {
    i + |pat| <= |s| && s[i..i + |pat|] == pat
  }

  /** Python's `pat in s`. */
  predicate Contains(s: string, pat: string)
  {
    exists i | 0 <= i <= |s| - |pat| :: MatchAt(s, pat, i)
  }

  /** An occurrence inside a prefix of `s` is an occurrence in `s`. */
  lemma MatchInPrefix(s: string, n: nat, pat: string, k: nat)
    requires n <= |s| && MatchAt(s[..n], pat, k)
    ensures MatchAt(s, pat, k)
  {
    assert s[..n][k..k + |pat|] == s[k..k + |pat|];
  }

  /** Occurrences in a suffix of `s` are the occurrences in `s` shifted by the cut. */
  lemma MatchInSuffix(s: string, n: nat, pat: string, k: nat)
    requires n <= |s|
    ensures MatchAt(s[n..], pat, k) <==> MatchAt(s, pat, n + k)
  {
    if n + k + |pat| <= |s| {
      assert s[n..][k..k + |pat|] == s[n + k..n + k + |pat|];
    }
  }

  /** `FindFrom(s, pat, from)` is the first occurrence of `pat` at or after `from`. */
  function FindFrom(s: string, pat: string, from: nat): (r: Option<nat>)
    requires from <= |s|
    ensures r.Some? ==> from <= r.value && MatchAt(s, pat, r.value)
    ensures r.Some? ==> forall k: nat :: from <= k < r.value ==> !MatchAt(s, pat, k)
    ensures r.None? ==> forall k: nat :: from <= k ==> !MatchAt(s, pat, k)
    decreases |s| - from
  {
    if MatchAt(s, pat, from) then Some(from)
    else if from == |s| then None
    else FindFrom(s, pat, from + 1)
  }

  /** Python's `s.find(pat)`, with None for -1: the first index where `pat` occurs. */
  function Find(s: string, pat: string): (r: Option<nat>)
    ensures r.Some? ==> MatchAt(s, pat, r.value)
    ensures r.Some? ==> forall k: nat :: k < r.value ==> !MatchAt(s, pat, k)
    ensures r.None? <==> !Contains(s, pat)
  {
    FindFrom(s, pat, 0)
  }

  /** The first occurrence is unique: an occurrence with none before it is what `Find` returns. */
  lemma FindIs(s: string, pat: string, i: nat)
    requires MatchAt(s, pat, i)
    requires forall k: nat :: k < i ==> !MatchAt(s, pat, k)
    ensures Find(s, pat) == Some(i)
  {
    assert Contains(s, pat);
  }

  /** Searching for a single character is Dafny's `in` on sequences. */
  lemma ContainsChar(s: string, c: char)
    ensures Contains(s, [c]) <==> c in s
  {
    if c in s {
      var i :| 0 <= i < |s| && s[i] == c;
      assert MatchAt(s, [c], i);
    }
    if Contains(s, [c]) {
      var i :| 0 <= i <= |s| - 1 && MatchAt(s, [c], i);
      assert s[i..i + 1][0] == c;
    }
  }

  // ---------------------------------------------------------------------
  // split(sep) and its inverse
  // ---------------------------------------------------------------------

  /** Python's `s.split(sep)` for a non-empty separator: cuts at every leftmost, non-overlapping occurrence. */
  function Split(s: string, sep: string): (parts: seq<string>)
    requires sep != []
    ensures |parts| >= 1
    ensures |parts| == 1 <==> !Contains(s, sep)
    ensures forall i :: 0 <= i < |parts| ==> !Contains(parts[i], sep)
    decreases |s|
  {
    match Find(s, sep)
    case None => [s]
    case Some(i) =>
      var head := s[..i];
      assert !Contains(head, sep) by {
        forall k: nat | MatchAt(head, sep, k) ensures false {
          MatchInPrefix(s, i, sep, k);
        }
      }
      [head] + Split(s[i + |sep|..], sep)
  }

  /** Python's `sep.join(parts)`. */
  function Join(parts: seq<string>, sep: string): string
  {
    if parts == [] then []
    else if |parts| == 1 then parts[0]
    else parts[0] + sep + Join(parts[1..], sep)
  }

  /** Joining a first piece onto a non-empty rest puts one separator between them. */
  lemma JoinCons(head: string, tail: seq<string>, sep: string)
    requires tail != []
    ensures Join([head] + tail, sep) == head + sep + Join(tail, sep)
  {
    assert ([head] + tail)[1..] == tail;
  }

  /** At its first occurrence of the separator, a split emits the text before it and splits the rest. */
  lemma {:induction false} SplitAt(s: string, sep: string, i: nat)
    requires sep != [] && Find(s, sep) == Some(i)
    ensures Split(s, sep) == [s[..i]] + Split(s[i + |sep|..], sep)
  {
  }

  /** An occurrence cuts the string into the text before, the pattern and the text after. */
  lemma MatchCuts(s: string, pat: string, i: nat)
    requires MatchAt(s, pat, i)
    ensures s == s[..i] + pat + s[i + |pat|..]
  {
    assert s == s[..i] + s[i..i + |pat|] + s[i + |pat|..];
  }

  /** Joining the pieces of a split with the same separator gives back the string. */
  lemma {:induction false} JoinSplit(s: string, sep: string)
    requires sep != []
    ensures Join(Split(s, sep), sep) == s
    decreases |s|
  {
    match Find(s, sep)
    case None =>
    case Some(i) =>
      var rest := s[i + |sep|..];
      SplitAt(s, sep, i);
      JoinCons(s[..i], Split(rest, sep), sep);
      JoinSplit(rest, sep);
      MatchCuts(s, sep, i);
  }

  /** `FirstPiece(s, sep)` is Python's `s.split(sep)[0]`. */
  function FirstPiece(s: string, sep: string): (r: string)
    requires sep != []
    ensures !Contains(r, sep)
    ensures |r| <= |s| && r == s[..|r|]
    ensures !Contains(s, sep) ==> r == s
    ensures Contains(s, sep) ==> Find(s, sep) == Some(|r|)
  {
    Split(s, sep)[0]
  }

  /** Split at a single character, the first piece is the whole text or stops at that character. */
  lemma FirstPieceOfChar(s: string, c: char)
    ensures var r := FirstPiece(s, [c]); r == s || (|r| < |s| && s[|r|] == c)
  {
    var r := FirstPiece(s, [c]);
    if Contains(s, [c]) {
      assert MatchAt(s, [c], |r|);
      assert s[|r|..|r| + 1][0] == s[|r|];
    }
  }

  // ---------------------------------------------------------------------
  // replace(pat, '')
  // ---------------------------------------------------------------------

  /** Python's `s.replace(pat, '')`: deletes every leftmost, non-overlapping occurrence of `pat`. */
  function RemoveAll(s: string, pat: string): (r: string)
    requires pat != []
    ensures !Contains(s, pat) ==> r == s
    ensures Contains(s, pat) ==> |r| <= |s| - |pat|
    decreases |s|
  {
    match Find(s, pat)
    case None => s
    case Some(i) => s[..i] + RemoveAll(s[i + |pat|..], pat)
  }

  /** `s.replace(pat, '')` agrees with `''.join(s.split(pat))`. */
  lemma {:induction false} RemoveAllIsJoinOfSplit(s: string, pat: string)
    requires pat != []
    ensures RemoveAll(s, pat) == Join(Split(s, pat), [])
    decreases |s|
  {
    match Find(s, pat)
    case None =>
    case Some(i) =>
      var rest := s[i + |pat|..];
      SplitAt(s, pat, i);
      JoinCons(s[..i], Split(rest, pat), []);
      RemoveAllIsJoinOfSplit(rest, pat);
      assert s[..i] + [] == s[..i];
  }

  /** Removing an occurrence at the very front leaves the rest with its own removals. */
  lemma RemoveAllAtFront(pat: string, rest: string)
    requires pat != []
    ensures RemoveAll(pat + rest, pat) == RemoveAll(rest, pat)
  {
    var s := pat + rest;
    assert MatchAt(s, pat, 0);
    assert s[|pat|..] == rest;
  }

  // ---------------------------------------------------------------------
  // str(n) for a non-negative integer
  // ---------------------------------------------------------------------

  function DigitChar(d: nat): (c: char)
    requires d < 10
    ensures '0' <= c <= '9'
  {
    ('0' as int + d) as char
  }

  /** The value of a decimal digit character. */
  function DigitValue(c: char): nat
    requires '0' <= c <= '9'
  {
    c as int - '0' as int
  }

  /** The number a string of decimal digits spells, most significant digit first. */
  function DigitsValue(s: string): nat
    requires forall i :: 0 <= i < |s| ==> '0' <= s[i] <= '9'
  {
    if s == [] then 0 else 10 * DigitsValue(s[..|s| - 1]) + DigitValue(s[|s| - 1])
  }

  /** Python's `str(n)` for `n >= 0`: decimal digits without leading zeros. */
  function NatToString(n: nat): (r: string)
    ensures |r| >= 1
    ensures forall i :: 0 <= i < |r| ==> '0' <= r[i] <= '9'
    ensures DigitsValue(r) == n
    ensures |r| > 1 ==> r[0] != '0'
  {
    if n < 10 then [DigitChar(n)]
    else
      var high := NatToString(n / 10);
      var r := high + [DigitChar(n % 10)];
      assert r[..|r| - 1] == high;
      r
  }

  /** Different row indices have different decimal spellings. */
  lemma {:induction false} NatToStringInjective(a: nat, b: nat)
    requires NatToString(a) == NatToString(b)
    ensures a == b
    decreases a
  {
    if a < 10 || b < 10 {
      assert NatToString(a)[0] == DigitChar(a);
    } else {
      var sa, sb := NatToString(a), NatToString(b);
      assert sa[|sa| - 1] == DigitChar(a % 10);
      assert sb[|sb| - 1] == DigitChar(b % 10);
      assert sa[..|sa| - 1] == NatToString(a / 10);
      assert sb[..|sb| - 1] == NatToString(b / 10);
      NatToStringInjective(a / 10, b / 10);
    }
  }
}
