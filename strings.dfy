/**
 The two functions of Go's `strings` package that the extraction relies on,
 `Index` and `Split`, for a non-empty separator (both markers are non-empty
 constants), together with `Join`, the inverse of `Split`.
 */
module Strings {

  import opened Wrappers

  /** `p` occurs in `s` starting at position `i`. */
  predicate OccursAt(s: string, p: string, i: int)
  {
    0 <= i && i + |p| <= |s| && s[i..i + |p|] == p
  }

  /** The first occurrence of `p` in `s` at or after position `from`. */
  function IndexFrom(s: string, p: string, from: nat): (r: Option<nat>)
    ensures r.Some? ==> from <= r.value && OccursAt(s, p, r.value)
    ensures forall j :: from <= j && (r.None? || j < r.value) ==> !OccursAt(s, p, j)
    decreases |s| - from
  {
    if from + |p| > |s| then None
    else if s[from..from + |p|] == p then Some(from)
    else IndexFrom(s, p, from + 1)
  }

  /** `strings.Index`: the position of the first occurrence of `p` in `s`, if any. */
  function Index(s: string, p: string): (r: Option<nat>)
    ensures r.Some? ==> OccursAt(s, p, r.value)
    ensures forall j :: 0 <= j && (r.None? || j < r.value) ==> !OccursAt(s, p, j)
  {
    IndexFrom(s, p, 0)
  }

  /**
   `strings.Split` for a non-empty separator: the pieces of `s` between
   successive leftmost, non-overlapping occurrences of `sep`. There is always
   at least one piece.
   */
  function Split(s: string, sep: string): (parts: seq<string>)
    requires |sep| > 0
    ensures |parts| >= 1
    decreases |s|
  {
    match Index(s, sep)
    case None => [s]
    case Some(m) => [s[..m]] + Split(s[m + |sep|..], sep)
  }

  /** `strings.Join`: the pieces with `sep` between each two of them. */
  function Join(parts: seq<string>, sep: string): string
    requires |parts| >= 1
  {
    if |parts| == 1 then parts[0] else parts[0] + sep + Join(parts[1..], sep)
  }

  /** An occurrence inside the first `n` characters is an occurrence in `s` that ends by `n`. */
  lemma OccursInPrefix(s: string, n: nat, p: string, j: int)
    requires n <= |s|
    ensures OccursAt(s[..n], p, j) <==> OccursAt(s, p, j) && j + |p| <= n
  {
    if 0 <= j && j + |p| <= n {
      assert s[..n][j..j + |p|] == s[j..j + |p|];
    }
  }

  /** An occurrence in the suffix from `n` is an occurrence in `s`, shifted by `n`. */
  lemma OccursInSuffix(s: string, n: nat, p: string, j: int)
    requires n <= |s|
    ensures OccursAt(s[n..], p, j) <==> 0 <= j && OccursAt(s, p, n + j)
  {
    if 0 <= j && n + j + |p| <= |s| {
      assert s[n..][j..j + |p|] == s[n + j..n + j + |p|];
    }
  }

  /** Splitting and joining again gives back the original text. */
  lemma {:induction false} SplitJoin(s: string, sep: string)
    requires |sep| > 0
    ensures Join(Split(s, sep), sep) == s
    decreases |s|
  {
    match Index(s, sep)
    case None =>
    case Some(m) =>
      var rest := s[m + |sep|..];
      SplitJoin(rest, sep);
      JoinCons(s[..m], Split(rest, sep), sep);
      Around(s, sep, m);
  }

  lemma JoinCons(first: string, parts: seq<string>, sep: string)
    requires |parts| >= 1
    ensures Join([first] + parts, sep) == first + sep + Join(parts, sep)
  {
    assert ([first] + parts)[1..] == parts;
  }

  /** An occurrence of `p` at `m` splits `s` into what precedes it, `p`, and what follows. */
  lemma Around(s: string, p: string, m: nat)
    requires OccursAt(s, p, m)
    ensures s == s[..m] + p + s[m + |p|..]
  {
    assert s == s[..m] + s[m..m + |p|] + s[m + |p|..];
  }

  /** No piece of a split contains the separator. */
  lemma {:induction false} SplitPartsFree(s: string, sep: string)
    requires |sep| > 0
    ensures forall k, j :: 0 <= k < |Split(s, sep)| ==> !OccursAt(Split(s, sep)[k], sep, j)
    decreases |s|
  {
    var parts := Split(s, sep);
    match Index(s, sep)
    case None =>
    case Some(m) =>
      var rest := s[m + |sep|..];
      SplitPartsFree(rest, sep);
      forall j ensures !OccursAt(s[..m], sep, j) {
        OccursInPrefix(s, m, sep, j);
      }
      forall k, j | 1 <= k < |parts| ensures !OccursAt(parts[k], sep, j) {
        assert parts[k] == Split(rest, sep)[k - 1];
      }
  }

  /** Searching a suffix is searching the whole text from where the suffix starts. */
  lemma IndexOfSuffix(s: string, p: string, n: nat)
    requires n <= |s|
    ensures Index(s[n..], p) == match IndexFrom(s, p, n) case None => None case Some(b) => Some(b - n)
  {
    var r := Index(s[n..], p);
    match IndexFrom(s, p, n)
    case None =>
      if r.Some? {
        OccursInSuffix(s, n, p, r.value);
      }
    case Some(b) =>
      OccursInSuffix(s, n, p, b - n);
      OccursInSuffix(s, n, p, r.value);
  }

  /** The text before the first occurrence of a non-empty `p` does not contain `p`. */
  lemma IndexPrefixFree(s: string, p: string, m: nat)
    requires |p| > 0 && Index(s, p) == Some(m)
    ensures Index(s[..m], p) == None
  {
    var r := Index(s[..m], p);
    if r.Some? {
      OccursInPrefix(s, m, p, r.value);
    }
  }

  /** A slice of a text that does not contain `p` does not contain it either. */
  lemma SliceFree(s: string, lo: nat, hi: nat, p: string)
    requires lo <= hi <= |s| && forall j :: !OccursAt(s, p, j)
    ensures forall j :: !OccursAt(s[lo..hi], p, j)
  {
    forall j ensures !OccursAt(s[lo..hi], p, j) {
      assert s[lo..hi] == s[..hi][lo..];
      OccursInSuffix(s[..hi], lo, p, j);
      OccursInPrefix(s, hi, p, lo + j);
    }
  }

  /**
   There is a second piece exactly when `sep` occurs, and it runs from the end
   of the first occurrence to the next occurrence, or to the end of `s`.
   */
  lemma SplitSecondPiece(s: string, sep: string)
    requires |sep| > 0
    ensures match Index(s, sep)
      case None => |Split(s, sep)| == 1
      case Some(a) =>
        var lo := a + |sep|;
        lo <= |s| && |Split(s, sep)| >= 2 &&
        Split(s, sep)[1] == s[lo..match IndexFrom(s, sep, lo) case None => |s| case Some(b) => b]
  {
    match Index(s, sep)
    case None =>
    case Some(a) =>
      var lo := a + |sep|;
      var rest := s[lo..];
      var parts := Split(s, sep);
      assert parts == [s[..a]] + Split(rest, sep);
      assert parts[1] == Split(rest, sep)[0];
      IndexOfSuffix(s, sep, lo);
  }

}
