/** The handful of Python `str` operations the crawler relies on, over `seq<char>`. */
module Text {
  import opened Options

  /** `p` occurs in `s` starting at index `i`. */
  predicate OccursAt(s: string, p: string, i: int) {
    0 <= i && i + |p| <= |s| && s[i..i + |p|] == p
  }

  /** Python's `p in s` for strings: substring containment. The empty string is in every string. */
  predicate Contains(s: string, p: string)
    decreases |s|
  {
    p <= s || (|s| > 0 && Contains(s[1..], p))
  }

  /** `Contains` agrees with the positional definition of a substring, in both directions. */
  lemma ContainsIffOccurs(s: string, p: string)
    ensures Contains(s, p) <==> exists i :: OccursAt(s, p, i)
  {
    if Contains(s, p) {
      ContainsHasPosition(s, p);
    }
    forall i | OccursAt(s, p, i)
      ensures Contains(s, p)
    {
      PositionIsContained(s, p, i);
    }
  }

  /** A contained pattern occurs at some position. */
  lemma {:induction false} ContainsHasPosition(s: string, p: string)
    requires Contains(s, p)
    ensures exists i :: OccursAt(s, p, i)
    decreases |s|
  {
    if p <= s {
      assert s[0..|p|] == p;
      assert OccursAt(s, p, 0);
    } else {
      ContainsHasPosition(s[1..], p);
      var i :| OccursAt(s[1..], p, i);
      assert s[i + 1..i + 1 + |p|] == s[1..][i..i + |p|];
      assert OccursAt(s, p, i + 1);
    }
  }

  /** A pattern occurring at some position is contained. */
  lemma {:induction false} PositionIsContained(s: string, p: string, i: int)
    requires OccursAt(s, p, i)
    ensures Contains(s, p)
    decreases i
  {
    if i == 0 {
      assert s[0..|p|] == p;
      assert p <= s;
    } else {
      assert s[1..][i - 1..i - 1 + |p|] == s[i..i + |p|];
      PositionIsContained(s[1..], p, i - 1);
    }
  }

  /** The empty string is a substring of everything, as in Python. */
  lemma EmptyIsEverywhere(s: string)
    ensures Contains(s, "")
  {
  }

  /** The characters Python's `str.isspace` accepts (the ASCII ones and the Unicode separators). */
  predicate IsSpace(c: char) {
    || c == ' ' || c == '\t' || c == '\n' || c == '\r' || c == '\U{B}' || c == '\U{C}'
    || ('\U{1C}' <= c <= '\U{1F}')
    || c == '\U{85}' || c == '\U{A0}' || c == '\U{1680}'
    || ('\U{2000}' <= c <= '\U{200A}')
    || c == '\U{2028}' || c == '\U{2029}' || c == '\U{202F}' || c == '\U{205F}' || c == '\U{3000}'
  }

  /** Every character of `s` in `[from, to)` is whitespace. */
  predicate SpaceBetween(s: string, from: int, to: int) {
    forall k :: from <= k < to && 0 <= k < |s| ==> IsSpace(s[k])
  }

  /** Neither end of `s` is whitespace. */
  predicate Trimmed(s: string) {
    |s| == 0 || (!IsSpace(s[0]) && !IsSpace(s[|s| - 1]))
  }

  /** The first index at or after `from` that does not hold whitespace, or `|s|`. */
  function SkipSpace(s: string, from: nat): (r: nat)
    requires from <= |s|
    ensures from <= r <= |s| && SpaceBetween(s, from, r)
    ensures r < |s| ==> !IsSpace(s[r])
    decreases |s| - from
  {
    if from < |s| && IsSpace(s[from]) then SkipSpace(s, from + 1) else from
  }

  /** The end, at or after `lo`, of `s[..hi]` once its trailing whitespace is dropped. */
  function SkipSpaceBack(s: string, lo: nat, hi: nat): (r: nat)
    requires lo <= hi <= |s|
    ensures lo <= r <= hi && SpaceBetween(s, r, hi)
    ensures r > lo ==> !IsSpace(s[r - 1])
    decreases hi
  {
    if hi > lo && IsSpace(s[hi - 1]) then SkipSpaceBack(s, lo, hi - 1) else hi
  }

  /** `r` is what is left of `s` once `lead` whitespace characters in front and all the
      whitespace behind `r` are removed. */
  predicate StripsAt(s: string, r: string, lead: nat) {
    && lead + |r| <= |s|
    && s[lead..lead + |r|] == r
    && SpaceBetween(s, 0, lead)
    && SpaceBetween(s, lead + |r|, |s|)
  }

  /** `str.strip()`: `s` is `lead + r + trail` with `lead` and `trail` all whitespace, and `r`
      neither starts nor ends with whitespace. */
  function Strip(s: string): (r: string)
    ensures Trimmed(r)
    ensures exists lead: nat :: StripsAt(s, r, lead)
  {
    var i := SkipSpace(s, 0);
    var j := SkipSpaceBack(s, i, |s|);
    assert StripsAt(s, s[i..j], i);
    s[i..j]
  }

  /** A string that neither starts nor ends with whitespace is its own strip; in particular
      stripping twice is stripping once. */
  lemma StripFixesTrimmed(s: string)
    ensures Trimmed(s) ==> Strip(s) == s
    ensures Strip(Strip(s)) == Strip(s)
  {
    var t := Strip(s);
    assert Trimmed(t) ==> SkipSpace(t, 0) == 0 && SkipSpaceBack(t, 0, |t|) == |t|;
    assert t[0..|t|] == t;
    assert Trimmed(s) ==> SkipSpace(s, 0) == 0 && SkipSpaceBack(s, 0, |s|) == |s|;
    assert s[0..|s|] == s;
  }

  /** `s` split at the first `c`: the part before it and the part after it; `(s, "")` when `c`
      does not occur. */
  function SplitFirst(s: string, c: char): (r: (string, string))
    ensures c !in s ==> r == (s, "")
    ensures c in s ==> s == r.0 + [c] + r.1 && c !in r.0
    decreases |s|
  {
    if |s| == 0 then ("", "")
    else if s[0] == c then ("", s[1..])
    else
      var (a, b) := SplitFirst(s[1..], c);
      assert s == [s[0]] + s[1..];
      ([s[0]] + a, b)
  }

  /** Splitting `a + [c] + b` at the first `c` recovers `a` and `b` when `c` is not in `a`. */
  lemma {:induction false} SplitFirstOf(a: string, c: char, b: string)
    requires c !in a
    ensures SplitFirst(a + [c] + b, c) == (a, b)
    decreases |a|
  {
    if |a| > 0 {
      assert (a + [c] + b)[1..] == a[1..] + [c] + b;
      SplitFirstOf(a[1..], c, b);
      assert [a[0]] + a[1..] == a;
    }
  }

  /** Python's `s.rfind(c)` when it finds something: the index of the last `c` in `s`. */
  function LastIndexOf(s: string, c: char): (r: Option<nat>)
    ensures r.None? <==> c !in s
    ensures r.Some? ==> r.value < |s| && s[r.value] == c
                        && forall k :: r.value < k < |s| ==> s[k] != c
    decreases |s|
  {
    if |s| == 0 then None
    else if s[|s| - 1] == c then Some(|s| - 1)
    else
      var r := LastIndexOf(s[..|s| - 1], c);
      assert s == s[..|s| - 1] + [s[|s| - 1]];
      r
  }
}
