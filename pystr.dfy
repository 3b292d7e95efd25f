/** The three string operations of Python that the calculator relies on, over
    `string` (a sequence of Unicode scalar values):
    - `str.strip()` with no argument, which removes leading and trailing
      whitespace as `str.isspace()` defines it;
    - `str.split(sep)` for a one-character separator, which cuts at EVERY
      occurrence of `sep`;
    - `sep in s` for a one-character `sep`, which is plain membership.
 */
module PyStr {

  /** Python's `str.isspace()` for one character: the Unicode characters of
      bidirectional class WS, B or S, or of general category Zs. */
  predicate IsSpace(ch: char) {
    || ('\t' <= ch <= '\r')                      // \t \n \v \f \r
    || ('\U{1C}' <= ch <= '\U{1F}')              // file, group, record, unit separators
    || ch == ' '
    || ch == '\U{85}' || ch == '\U{A0}' || ch == '\U{1680}'
    || ('\U{2000}' <= ch <= '\U{200A}')
    || ch == '\U{2028}' || ch == '\U{2029}' || ch == '\U{202F}'
    || ch == '\U{205F}' || ch == '\U{3000}'
  }

  /** The first index at or after `i` that does not hold whitespace (or `|s|`). */
  function SkipSpace(s: string, i: nat): (j: nat)
    requires i <= |s|
    ensures i <= j <= |s|
    ensures forall k :: i <= k < j ==> IsSpace(s[k])
    ensures j == |s| || !IsSpace(s[j])
    decreases |s| - i
  {
    if i < |s| && IsSpace(s[i]) then SkipSpace(s, i + 1) else i
  }

  /** The end of `s[lo..j]` once the whitespace at its end is cut off. */
  function SkipSpaceBack(s: string, lo: nat, j: nat): (e: nat)
    requires lo <= j <= |s|
    ensures lo <= e <= j
    ensures forall k :: e <= k < j ==> IsSpace(s[k])
    ensures e == lo || !IsSpace(s[e - 1])
    decreases j
  {
    if lo < j && IsSpace(s[j - 1]) then SkipSpaceBack(s, lo, j - 1) else j
  }

  /** `r` is `s[i..i + |r|]` and everything of `s` outside that slice is whitespace. */
  predicate SurroundedBySpace(s: string, r: string, i: nat) {
    && i + |r| <= |s|
    && r == s[i..i + |r|]
    && (forall j :: 0 <= j < i ==> IsSpace(s[j]))
    && (forall j :: i + |r| <= j < |s| ==> IsSpace(s[j]))
  }

  /** `s.strip()`: the slice of `s` between its leading and its trailing
      whitespace. */
  function Strip(s: string): (r: string)
    ensures |r| <= |s|
    ensures r == [] || (!IsSpace(r[0]) && !IsSpace(r[|r| - 1]))
  {
    var i := SkipSpace(s, 0);
    s[i..SkipSpaceBack(s, i, |s|)]
  }

  /** What `Strip` keeps is a slice of `s` with only whitespace outside it. */
  lemma StripSurrounded(s: string)
    ensures exists i: nat :: SurroundedBySpace(s, Strip(s), i)
  {
    var i := SkipSpace(s, 0);
    var j := SkipSpaceBack(s, i, |s|);
    assert Strip(s) == s[i..j];
    assert SurroundedBySpace(s, s[i..j], i);
  }

  /** `Strip` keeps exactly the slice `s[i..j]` when only whitespace lies
      outside it and the slice neither starts nor ends with whitespace. */
  lemma StripSlice(s: string, i: nat, j: nat)
    requires i <= j <= |s|
    requires forall k :: 0 <= k < i ==> IsSpace(s[k])
    requires forall k :: j <= k < |s| ==> IsSpace(s[k])
    requires i < j ==> !IsSpace(s[i]) && !IsSpace(s[j - 1])
    ensures Strip(s) == s[i..j]
  {
    var a := SkipSpace(s, 0);
    if i < j {
      assert a == i;
      var e := SkipSpaceBack(s, a, |s|);
      assert e == j;
    } else {
      assert a == |s|;
    }
  }

  /** Stripping twice is stripping once. */
  lemma StripIdempotent(s: string)
    ensures Strip(Strip(s)) == Strip(s)
  {
    var r := Strip(s);
    assert SkipSpace(r, 0) == 0;
    assert SkipSpaceBack(r, 0, |r|) == |r|;
    assert r[0..|r|] == r;
  }

  /** Number of occurrences of `c` in `s`; it is positive exactly when `c in s`. */
  function Count(s: string, c: char): (n: nat)
    ensures n <= |s|
    ensures n > 0 <==> c in s
  {
    if s == [] then 0
    else (if s[0] == c then 1 else 0) + Count(s[1..], c)
  }

  /** Occurrences add up over a concatenation. */
  lemma {:induction false} CountConcat(s: string, t: string, c: char)
    ensures Count(s + t, c) == Count(s, c) + Count(t, c)
    decreases |s|
  {
    if s == [] {
      assert s + t == t;
    } else {
      assert (s + t)[0] == s[0];
      assert (s + t)[1..] == s[1..] + t;
      CountConcat(s[1..], t, c);
    }
  }

  /** Two occurrences of `c` make its count at least two. */
  lemma CountTwo(s: string, c: char, i: nat, j: nat)
    requires i < j < |s| && s[i] == c && s[j] == c
    ensures Count(s, c) >= 2
  {
    assert s == s[..j] + s[j..];
    assert s[..j][i] == c && s[j..][0] == c;
    CountConcat(s[..j], s[j..], c);
  }

  /** A single occurrence of `c`, at `k`, makes its count one. */
  lemma CountOne(s: string, c: char, k: nat)
    requires k < |s| && s[k] == c && c !in s[..k] && c !in s[k + 1..]
    ensures Count(s, c) == 1
  {
    assert s == s[..k] + ([c] + s[k + 1..]);
    CountConcat(s[..k], [c] + s[k + 1..], c);
    CountConcat([c], s[k + 1..], c);
  }

  /** `s.split(c)`: the pieces between consecutive occurrences of `c`. There is
      one more piece than there are occurrences of `c`, and no piece contains `c`. */
  function Split(s: string, c: char): (parts: seq<string>)
    ensures |parts| == Count(s, c) + 1
    ensures forall i :: 0 <= i < |parts| ==> c !in parts[i]
    decreases |s|
  {
    if s == [] then [[]]
    else
      var rest := Split(s[1..], c);
      if s[0] == c then [[]] + rest
      else [[s[0]] + rest[0]] + rest[1..]
  }

  /** `c.join(parts)`, the inverse of `Split`. */
  function Join(parts: seq<string>, c: char): string
    requires |parts| >= 1
  {
    if |parts| == 1 then parts[0] else parts[0] + [c] + Join(parts[1..], c)
  }

  /** Splitting and joining back on the same character gives the original text. */
  lemma {:induction false} JoinSplit(s: string, c: char)
    ensures Join(Split(s, c), c) == s
    decreases |s|
  {
    if s != [] {
      var rest := Split(s[1..], c);
      JoinSplit(s[1..], c);
      if s[0] == c {
        JoinCons([], rest, c);
        assert [] + [c] + s[1..] == s;
      } else {
        JoinExtendFirst(s[0], rest, c);
        assert [s[0]] + s[1..] == s;
      }
    }
  }

  /** Joining a piece in front of at least one more piece puts `c` between them. */
  lemma JoinCons(x: string, rest: seq<string>, c: char)
    requires |rest| >= 1
    ensures Join([x] + rest, c) == x + [c] + Join(rest, c)
  {
    assert ([x] + rest)[1..] == rest;
  }

  /** Extending the first piece by one character extends the joined text by it. */
  lemma JoinExtendFirst(ch: char, parts: seq<string>, c: char)
    requires |parts| >= 1
    ensures Join([[ch] + parts[0]] + parts[1..], c) == [ch] + Join(parts, c)
  {
    if |parts| > 1 {
      JoinCons([ch] + parts[0], parts[1..], c);
      JoinCons(parts[0], parts[1..], c);
      assert [parts[0]] + parts[1..] == parts;
    }
  }

  /** Without `c` in `s`, splitting on it yields `s` itself as the only piece. */
  lemma {:induction false} SplitAbsent(s: string, c: char)
    requires c !in s
    ensures Split(s, c) == [s]
    decreases |s|
  {
    if s != [] {
      assert c !in s[1..];
      SplitAbsent(s[1..], c);
      assert [s[0]] + s[1..] == s;
    }
  }

  /** When `c` occurs exactly once, at index `k`, splitting on it yields exactly
      the text before `k` and the text after `k`. */
  lemma {:induction false} SplitOnce(s: string, c: char, k: nat)
    requires k < |s| && s[k] == c && Count(s, c) == 1
    ensures Split(s, c) == [s[..k], s[k + 1..]]
    decreases |s|
  {
    var rest := Split(s[1..], c);
    if k == 0 {
      assert Count(s[1..], c) == 0;
      SplitAbsent(s[1..], c);
    } else {
      assert s[1..][k - 1] == c;
      assert s[0] != c;
      SplitOnce(s[1..], c, k - 1);
      assert [s[0]] + s[1..][..k - 1] == s[..k];
      assert s[1..][k..] == s[k + 1..];
    }
  }

  /** ASCII lower-casing, as `str.lower()` acts on 'A'..'Z': each capital
      becomes its small letter, every other character is kept. */
  function LowerAscii(s: string): (r: string)
    ensures |r| == |s|
    ensures forall i :: 0 <= i < |s| ==> !('A' <= r[i] <= 'Z')
    ensures forall i :: 0 <= i < |s| ==>
      r[i] == if 'A' <= s[i] <= 'Z' then (s[i] as int + 32) as char else s[i]
  {
    if s == [] then []
    else [if 'A' <= s[0] <= 'Z' then (s[0] as int + 32) as char else s[0]] + LowerAscii(s[1..])
  }
}
