/**
 * The few JavaScript string operations the wizard and the service page rely on,
 * with ECMAScript's clamping rules, so that malformed input behaves as it does
 * in a browser.
 */
module JsString {
  import opened Wrappers

  /** A position clamped to [0, len], as indexOf and substring clamp theirs. */
  function Clamp(k: int, len: nat): (r: nat)
    ensures r <= len
    ensures 0 <= k <= len ==> r == k
    ensures k < 0 ==> r == 0
    ensures k > len ==> r == len
  {
    if k < 0 then 0 else if k > len then len else k
  }

  /** `s.indexOf(c, from)` for a one-character search string: the first position at or after `from` holding `c`, or -1. */
  function IndexOf(s: string, c: char, from: int): (r: int)
    ensures -1 <= r < |s|
    ensures r >= 0 ==> Clamp(from, |s|) <= r && s[r] == c
    decreases |s| - Clamp(from, |s|)
  {
    var k := Clamp(from, |s|);
    if k == |s| then -1
    else if s[k] == c then k
    else IndexOf(s, c, k + 1)
  }

  /** No position before the one found (or before the end, on a miss) holds `c`. */
  lemma {:induction false} IndexOfFirst(s: string, c: char, from: int)
    ensures forall k :: Clamp(from, |s|) <= k < |s| && (IndexOf(s, c, from) < 0 || k < IndexOf(s, c, from)) ==> s[k] != c
    decreases |s| - Clamp(from, |s|)
  {
    var k := Clamp(from, |s|);
    if k < |s| && s[k] != c {
      IndexOfFirst(s, c, k + 1);
    }
  }

  /** `s.indexOf(c, from)` finds the first occurrence: any position meeting that description is the answer. */
  lemma {:induction false} IndexOfIs(s: string, c: char, from: int, k: int)
    requires Clamp(from, |s|) <= k < |s| && s[k] == c
    requires forall j :: Clamp(from, |s|) <= j < k ==> s[j] != c
    ensures IndexOf(s, c, from) == k
    decreases |s| - Clamp(from, |s|)
  {
    var i := Clamp(from, |s|);
    if i < k {
      IndexOfIs(s, c, i + 1, k);
    }
  }

  /** `s.indexOf(c, from)` is -1 exactly when `c` does not occur from `from` on. */
  lemma {:induction false} IndexOfMiss(s: string, c: char, from: int)
    requires forall j :: Clamp(from, |s|) <= j < |s| ==> s[j] != c
    ensures IndexOf(s, c, from) == -1
    decreases |s| - Clamp(from, |s|)
  {
    var i := Clamp(from, |s|);
    if i < |s| {
      IndexOfMiss(s, c, i + 1);
    }
  }

  /** `s.substring(start, end)`: both ends clamped to [0, |s|] and swapped when start > end. */
  function Substring(s: string, start: int, end: int): (r: string)
    ensures 0 <= start <= end <= |s| ==> r == s[start..end]
    ensures 0 <= end <= start <= |s| ==> r == s[end..start]
    ensures end < 0 && 0 <= start <= |s| ==> r == s[..start]
    ensures start < 0 && 0 <= end <= |s| ==> r == s[..end]
    ensures end > |s| && 0 <= start <= |s| ==> r == s[start..]
    ensures |r| <= |s|
  {
    var a, b := Clamp(start, |s|), Clamp(end, |s|);
    if a <= b then s[a..b] else s[b..a]
  }

  /** `s.substring(start)`: from the clamped start to the end. */
  function SubstringFrom(s: string, start: int): (r: string)
    ensures 0 <= start <= |s| ==> r == s[start..]
  {
    Substring(s, start, |s|)
  }

  /** `s.startsWith(prefix)`. */
  predicate StartsWith(s: string, prefix: string) {
    |prefix| <= |s| && s[..|prefix|] == prefix
  }

  /** The white space and line terminators that String.prototype.trim removes. */
  const WhiteSpace: set<char> :=
    {' ', '\t', '\n', '\r', '\U{000B}', '\U{000C}', '\U{00A0}', '\U{1680}',
     '\U{2000}', '\U{2001}', '\U{2002}', '\U{2003}', '\U{2004}', '\U{2005}', '\U{2006}',
     '\U{2007}', '\U{2008}', '\U{2009}', '\U{200A}',
     '\U{2028}', '\U{2029}', '\U{202F}', '\U{205F}', '\U{3000}', '\U{FEFF}'}

  /** Neither end of `s` is white space. */
  predicate Unpadded(s: string) {
    s == [] || (s[0] !in WhiteSpace && s[|s| - 1] !in WhiteSpace)
  }

  /** The first position at or after `k` that does not hold white space, or `|s|`. */
  function SkipWhiteSpace(s: string, k: nat): (r: nat)
    requires k <= |s|
    ensures k <= r <= |s|
    decreases |s| - k
  {
    if k == |s| || s[k] !in WhiteSpace then k else SkipWhiteSpace(s, k + 1)
  }

  /** The end of `s[..k]` once its trailing white space is dropped. */
  function BackOverWhiteSpace(s: string, k: nat): (r: nat)
    requires k <= |s|
    ensures r <= k
  {
    if k == 0 || s[k - 1] !in WhiteSpace then k else BackOverWhiteSpace(s, k - 1)
  }

  /** Drops the leading white space: the result is a suffix of `s`. */
  function TrimStart(s: string): (r: string)
    ensures |r| <= |s| && r == s[|s| - |r|..]
  {
    s[SkipWhiteSpace(s, 0)..]
  }

  /** Drops the trailing white space: the result is a prefix of `s`. */
  function TrimEnd(s: string): (r: string)
    ensures |r| <= |s| && r == s[..|r|]
  {
    s[..BackOverWhiteSpace(s, |s|)]
  }

  /** `s.trim()`: neither end of the result is white space. */
  function Trim(s: string): (r: string)
    ensures |r| <= |s|
    ensures Unpadded(r)
  {
    var t := TrimStart(s);
    SkipWhiteSpaceStops(s, 0);
    BackOverWhiteSpaceStops(t, |t|);
    TrimEnd(t)
  }

  /** Skipping stops at the first character that is not white space, and only white space is skipped. */
  lemma {:induction false} SkipWhiteSpaceStops(s: string, k: nat)
    requires k <= |s|
    ensures SkipWhiteSpace(s, k) < |s| ==> s[SkipWhiteSpace(s, k)] !in WhiteSpace
    ensures forall j :: k <= j < SkipWhiteSpace(s, k) ==> s[j] in WhiteSpace
    decreases |s| - k
  {
    if k < |s| && s[k] in WhiteSpace {
      SkipWhiteSpaceStops(s, k + 1);
    }
  }

  /** Stepping back stops after the last character that is not white space, and only white space is stepped over. */
  lemma {:induction false} BackOverWhiteSpaceStops(s: string, k: nat)
    requires k <= |s|
    ensures BackOverWhiteSpace(s, k) > 0 ==> s[BackOverWhiteSpace(s, k) - 1] !in WhiteSpace
    ensures forall j :: BackOverWhiteSpace(s, k) <= j < k ==> s[j] in WhiteSpace
  {
    if k > 0 && s[k - 1] in WhiteSpace {
      BackOverWhiteSpaceStops(s, k - 1);
    }
  }

  /**
   * `trim` removes exactly the white space at both ends: the result is a
   * slice of `s`, neither end of the result is white space, and everything
   * cut off is.
   */
  lemma Trimmed(s: string)
    ensures var r := Trim(s);
            && Unpadded(r)
            && (exists a, b ::
                  && 0 <= a <= b <= |s| && r == s[a..b]
                  && (forall j :: 0 <= j < a ==> s[j] in WhiteSpace)
                  && (forall j :: b <= j < |s| ==> s[j] in WhiteSpace))
  {
    var a := SkipWhiteSpace(s, 0);
    SkipWhiteSpaceStops(s, 0);
    var t := s[a..];
    var e := BackOverWhiteSpace(t, |t|);
    BackOverWhiteSpaceStops(t, |t|);
    var r := Trim(s);
    assert r == t[..e] == s[a..a + e];
    forall j | a + e <= j < |s| ensures s[j] in WhiteSpace {
      assert s[j] == t[j - a];
    }
  }

  /** A string that neither starts nor ends with white space is left alone by trim. */
  lemma TrimUnchanged(s: string)
    requires Unpadded(s)
    ensures Trim(s) == s
  {
  }

  /** `s.split(sep)` for a one-character separator: the pieces between the separators, at least one. */
  function Split(s: string, sep: char): (r: seq<string>)
    ensures |r| >= 1
    decreases |s|
  {
    var i := IndexOf(s, sep, 0);
    if i < 0 then [s] else [s[..i]] + Split(s[i + 1..], sep)
  }

  /** `s.replace(c, "")` with a one-character string pattern: removes the first occurrence of `c` only. */
  function ReplaceFirst(s: string, c: char): (r: string)
    ensures c in s ==> |r| == |s| - 1
    ensures c in s ==> exists i :: 0 <= i < |s| && s[i] == c && c !in s[..i] && r == s[..i] + s[i + 1..]
    ensures c !in s ==> r == s
  {
    var i := IndexOf(s, c, 0);
    IndexOfFirst(s, c, 0);
    if i < 0 then s
    else
      assert c !in s[..i] by {
        forall j | 0 <= j < i ensures s[..i][j] != c {
          assert s[..i][j] == s[j];
        }
      }
      s[..i] + s[i + 1..]
  }

  /** Reading index `k` of an array as JavaScript does: `undefined` past its end. */
  function At<T>(xs: seq<T>, k: nat): (r: Option<T>)
    ensures r.Some? <==> k < |xs|
    ensures k < |xs| ==> r == Some(xs[k])
  {
    if k < |xs| then Some(xs[k]) else None
  }
}
