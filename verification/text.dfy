/** The handful of Python `str` operations the bot's decision logic relies on:
    `in` (substring test), `endswith`, `replace(pat, '')`, `split(c)[0]`, `strip()`,
    `upper()` and the `<=` comparison. Strings are sequences of Unicode scalar
    values, as Python strings are sequences of code points. */
module Text {
  import opened Optional

  /** `n` occurs in `h` starting at position `i`. */
  predicate OccursAt(n: string, h: string, i: int) {
    0 <= i && i + |n| <= |h| && h[i..i + |n|] == n
  }

  /** Python's `n in h` for strings. */
  predicate IsSubstring(n: string, h: string)
    decreases |h|
  {
    n <= h || (h != [] && IsSubstring(n, h[1..]))
  }

  /** `IsSubstring` holds exactly when there is a position where `n` occurs. */
  lemma {:induction false} SubstringAt(n: string, h: string)
    ensures IsSubstring(n, h) <==> exists i :: OccursAt(n, h, i)
    decreases |h|
  {
    if n <= h {
      assert OccursAt(n, h, 0);
    } else if h != [] {
      SubstringAt(n, h[1..]);
      if exists i :: OccursAt(n, h[1..], i) {
        var i :| OccursAt(n, h[1..], i);
        assert h[1..][i..i + |n|] == h[i + 1..i + 1 + |n|];
        assert OccursAt(n, h, i + 1);
      }
      if exists i :: OccursAt(n, h, i) {
        var i :| OccursAt(n, h, i);
        assert i != 0;
        assert h[1..][i - 1..i - 1 + |n|] == h[i..i + |n|];
        assert OccursAt(n, h[1..], i - 1);
      }
    }
  }

  /** A string occurring in `h` is no longer than `h`, and one as long as `h` is `h`. */
  lemma SubstringLength(n: string, h: string)
    requires IsSubstring(n, h)
    ensures |n| <= |h|
    ensures |n| == |h| ==> n == h
  {
    SubstringAt(n, h);
    var i :| OccursAt(n, h, i);
  }

  /** Every string occurs in itself. */
  lemma SubstringSelf(s: string)
    ensures IsSubstring(s, s)
  {
  }

  /** Python's `s.endswith(suffix)`: `s` is some text followed by `suffix`. */
  function EndsWith(s: string, suffix: string): (r: bool)
    ensures r <==> exists front :: s == front + suffix
  {
    EndsWithSplit(s, suffix);
    |suffix| <= |s| && s[|s| - |suffix|..] == suffix
  }

  lemma EndsWithSplit(s: string, suffix: string)
    ensures (|suffix| <= |s| && s[|s| - |suffix|..] == suffix) <==> exists front :: s == front + suffix
  {
    if |suffix| <= |s| && s[|s| - |suffix|..] == suffix {
      assert s == s[..|s| - |suffix|] + suffix;
    }
    if exists front :: s == front + suffix {
      var front :| s == front + suffix;
      assert s[|front|..] == suffix;
    }
  }

  /** Where `pat` first occurs in `s`, scanning from the left. */
  function FirstOccurrence(pat: string, s: string): (r: Option<nat>)
    ensures r.Some? ==> OccursAt(pat, s, r.value) && forall j :: 0 <= j < r.value ==> !OccursAt(pat, s, j)
    ensures r.None? ==> forall j :: !OccursAt(pat, s, j)
    decreases |s|
  {
    OccursAtFront(pat, s);
    if pat <= s then Some(0)
    else if s == [] then None
    else
      var rest := FirstOccurrence(pat, s[1..]);
      ShiftOccurrences(pat, s);
      match rest
      case None => None
      case Some(i) => Some(i + 1)
  }

  lemma OccursAtFront(pat: string, s: string)
    ensures OccursAt(pat, s, 0) <==> pat <= s
  {
  }

  /** Past the first position, `pat` occurs in `s` exactly where it occurs in
      `s[1..]`, one position later. */
  lemma ShiftOccurrences(pat: string, s: string)
    requires s != []
    ensures forall j :: j > 0 ==> (OccursAt(pat, s, j) <==> OccursAt(pat, s[1..], j - 1))
  {
    forall j | j > 0 ensures OccursAt(pat, s, j) <==> OccursAt(pat, s[1..], j - 1) {
      if j + |pat| <= |s| {
        assert s[1..][j - 1..j - 1 + |pat|] == s[j..j + |pat|];
      }
    }
  }

  /** Python's `s.replace(pat, '')`. */
  function RemoveAll(s: string, pat: string): (r: string)
    requires pat != ""
    ensures |r| <= |s|
    ensures FirstOccurrence(pat, s).None? ==> r == s
    ensures !IsSubstring(pat, s) ==> r == s
    decreases |s|
  {
    NoOccurrenceNoSubstring(pat, s);
    if s == [] then []
    else if pat <= s then RemoveAll(s[|pat|..], pat)
    else [s[0]] + RemoveAll(s[1..], pat)
  }

  /** What `replace(pat, '')` deletes: the leftmost occurrence goes, the text
      before it stays, and the search resumes after it, so occurrences are
      found left to right and do not overlap. */
  lemma {:induction false} RemoveAllLeftmost(s: string, pat: string, i: nat)
    requires pat != ""
    requires FirstOccurrence(pat, s) == Some(i)
    ensures i + |pat| <= |s|
    ensures RemoveAll(s, pat) == s[..i] + RemoveAll(s[i + |pat|..], pat)
    decreases |s|
  {
    if pat <= s {
      AtFront(pat, s);
    } else {
      NotAtFront(pat, s);
      RemoveAllLeftmost(s[1..], pat, i - 1);
      LeftmostStep(s, pat, i);
    }
  }

  /** One step of `RemoveAllLeftmost`: when `s` does not start with `pat`,
      the claim for `s[1..]` gives the claim for `s`. */
  lemma LeftmostStep(s: string, pat: string, i: nat)
    requires pat != "" && s != [] && !(pat <= s) && 0 < i && i + |pat| <= |s|
    requires RemoveAll(s[1..], pat) == s[1..][..i - 1] + RemoveAll(s[1..][i - 1 + |pat|..], pat)
    ensures RemoveAll(s, pat) == s[..i] + RemoveAll(s[i + |pat|..], pat)
  {
    NotAtFront(pat, s);
    assert s[1..][i - 1 + |pat|..] == s[i + |pat|..];
    ConsSplit(s, i, RemoveAll(s[1..], pat), RemoveAll(s[i + |pat|..], pat));
  }

  lemma ConsSplit<T>(s: seq<T>, i: nat, rest: seq<T>, tail: seq<T>)
    requires 0 < i <= |s|
    requires rest == s[1..][..i - 1] + tail
    ensures [s[0]] + rest == s[..i] + tail
  {
    assert [s[0]] + s[1..][..i - 1] == s[..i];
  }

  /** When `s` starts with `pat`, that is the first occurrence and it is
      removed. */
  lemma AtFront(pat: string, s: string)
    requires pat != "" && pat <= s
    ensures FirstOccurrence(pat, s) == Some(0)
    ensures RemoveAll(s, pat) == s[..0] + RemoveAll(s[0 + |pat|..], pat)
  {
    assert s[..0] == [];
  }

  /** When `s` does not start with `pat`, both the search and the removal
      step past the first character. */
  lemma NotAtFront(pat: string, s: string)
    requires pat != "" && s != [] && !(pat <= s)
    ensures FirstOccurrence(pat, s).Some? <==> FirstOccurrence(pat, s[1..]).Some?
    ensures FirstOccurrence(pat, s).Some? ==> FirstOccurrence(pat, s).value == FirstOccurrence(pat, s[1..]).value + 1
    ensures RemoveAll(s, pat) == [s[0]] + RemoveAll(s[1..], pat)
  {
  }

  lemma NoOccurrenceNoSubstring(pat: string, s: string)
    ensures !IsSubstring(pat, s) ==> FirstOccurrence(pat, s).None?
  {
    SubstringAt(pat, s);
  }

  /** Python's `s.split(c)[0]`: everything before the first `c`, or all of `s`. */
  function BeforeFirst(s: string, c: char): (r: string)
    ensures r <= s
    ensures c !in r
    ensures |r| < |s| ==> s[|r|] == c
    decreases |s|
  {
    if s == [] then []
    else if s[0] == c then []
    else [s[0]] + BeforeFirst(s[1..], c)
  }

  /** The characters for which Python's `str.isspace()` holds. */
  predicate IsSpace(c: char) {
    c == ' ' || ('\t' <= c <= '\r') || ('\U{1C}' <= c <= '\U{1F}')
    || c == '\U{85}' || c == '\U{A0}' || c == '\U{1680}'
    || ('\U{2000}' <= c <= '\U{200A}') || c == '\U{2028}' || c == '\U{2029}'
    || c == '\U{202F}' || c == '\U{205F}' || c == '\U{3000}'
  }

  /** Python's `s.lstrip()`: drops the leading whitespace and nothing else. */
  function StripLeft(s: string): (r: string)
    ensures |r| <= |s| && r == s[|s| - |r|..]
    ensures forall i :: 0 <= i < |s| - |r| ==> IsSpace(s[i])
    ensures r != [] ==> !IsSpace(r[0])
    decreases |s|
  {
    if s != [] && IsSpace(s[0]) then StripLeft(s[1..]) else s
  }

  /** Python's `s.rstrip()`: drops the trailing whitespace and nothing else. */
  function StripRight(s: string): (r: string)
    ensures r <= s
    ensures forall i :: |r| <= i < |s| ==> IsSpace(s[i])
    ensures r != [] ==> !IsSpace(r[|r| - 1])
    decreases |s|
  {
    if s != [] && IsSpace(s[|s| - 1]) then StripRight(s[..|s| - 1]) else s
  }

  /** `r` is `s[a..a + |r|]` and everything of `s` around it is whitespace. */
  predicate StripsTo(s: string, r: string, a: int) {
    0 <= a && a + |r| <= |s| && r == s[a..a + |r|]
    && (forall i :: 0 <= i < a ==> IsSpace(s[i]))
    && (forall i :: a + |r| <= i < |s| ==> IsSpace(s[i]))
  }

  /** Python's `s.strip()`: a contiguous piece of `s` that neither starts nor ends
      with whitespace, and all of `s` when `s` has no whitespace at its ends. */
  function Strip(s: string): (r: string)
    ensures IsSubstring(r, s)
    ensures exists a :: StripsTo(s, r, a)
    ensures r != [] ==> !IsSpace(r[0]) && !IsSpace(r[|r| - 1])
    ensures (s == [] || (!IsSpace(s[0]) && !IsSpace(s[|s| - 1]))) ==> r == s
  {
    var l := StripLeft(s);
    var r := StripRight(l);
    StripKeepsPiece(s, l, r);
    StripOnlyEnds(s, l, r);
    StripUnchanged(s);
    r
  }

  lemma StripUnchanged(s: string)
    ensures (s == [] || (!IsSpace(s[0]) && !IsSpace(s[|s| - 1]))) ==> StripRight(StripLeft(s)) == s
  {
    if s != [] && !IsSpace(s[0]) && !IsSpace(s[|s| - 1]) {
      assert StripLeft(s) == s;
    }
  }

  lemma StripOnlyEnds(s: string, l: string, r: string)
    requires |l| <= |s| && l == s[|s| - |l|..]
    requires forall i :: 0 <= i < |s| - |l| ==> IsSpace(s[i])
    requires r <= l && forall i :: |r| <= i < |l| ==> IsSpace(l[i])
    ensures exists a :: StripsTo(s, r, a)
  {
    var a := |s| - |l|;
    assert r == s[a..a + |r|];
    forall i | a + |r| <= i < |s| ensures IsSpace(s[i]) {
      assert s[i] == l[i - a];
    }
    assert StripsTo(s, r, a);
  }

  lemma StripKeepsPiece(s: string, l: string, r: string)
    requires |l| <= |s| && l == s[|s| - |l|..]
    requires r <= l
    ensures IsSubstring(r, s)
  {
    assert s[|s| - |l|..][..|r|] == r;
    assert OccursAt(r, s, |s| - |l|);
    SubstringAt(r, s);
  }

  /** Python's `c.upper()` restricted to ASCII letters. */
  function UpperChar(c: char): char {
    if 'a' <= c <= 'z' then (c as int - 32) as char else c
  }

  /** Python's `s.upper()` on ASCII text. */
  function AsciiUpper(s: string): (r: string)
    ensures |r| == |s|
    ensures forall i :: 0 <= i < |s| ==> r[i] == UpperChar(s[i])
    decreases |s|
  {
    if s == [] then [] else [UpperChar(s[0])] + AsciiUpper(s[1..])
  }

  /** `a` and `b` agree before position `k` and `a` is smaller at `k`. */
  predicate SmallerAt(a: string, b: string, k: int) {
    0 <= k < |a| && k < |b| && a[..k] == b[..k] && a[k] < b[k]
  }

  /** Python's `a <= b` on strings: lexicographic by code point, a proper prefix
      being smaller. */
  function LexLe(a: string, b: string): (r: bool)
    ensures r <==> a <= b || exists k :: SmallerAt(a, b, k)
    decreases |a|
  {
    if a == [] then true
    else if b == [] then false
    else if a[0] != b[0] then
      assert SmallerAt(a, b, 0) <==> a[0] < b[0];
      HeadDecides(a, b);
      a[0] < b[0]
    else
      LexTail(a, b);
      LexLe(a[1..], b[1..])
  }

  /** Strings that agree on a non-empty prefix agree at position 0. */
  lemma HeadDecides(a: string, b: string)
    requires a != [] && b != []
    ensures forall k :: SmallerAt(a, b, k) && k > 0 ==> a[0] == b[0]
  {
    forall k | SmallerAt(a, b, k) && k > 0 ensures a[0] == b[0] {
      assert a[..k][0] == b[..k][0];
    }
  }

  /** Dropping a common first character changes neither comparison. */
  lemma LexTail(a: string, b: string)
    requires a != [] && b != [] && a[0] == b[0]
    ensures a <= b <==> a[1..] <= b[1..]
    ensures (exists k :: SmallerAt(a, b, k)) <==> exists k :: SmallerAt(a[1..], b[1..], k)
  {
    assert a == [a[0]] + a[1..] && b == [b[0]] + b[1..];
    if exists k :: SmallerAt(a, b, k) {
      var k :| SmallerAt(a, b, k);
      assert k > 0;
      assert a[1..][..k - 1] == a[..k][1..];
      assert b[1..][..k - 1] == b[..k][1..];
      assert SmallerAt(a[1..], b[1..], k - 1);
    }
    if exists k :: SmallerAt(a[1..], b[1..], k) {
      var k :| SmallerAt(a[1..], b[1..], k);
      assert a[..k + 1] == [a[0]] + a[1..][..k];
      assert b[..k + 1] == [b[0]] + b[1..][..k];
      assert SmallerAt(a, b, k + 1);
    }
  }
}
