/**
 * The Python `str` operations that the modelled code relies on, over `string`
 * (a sequence of Unicode scalar values, as a Python `str` is a sequence of code
 * points): whitespace and `strip()`, `split(sep)`, `sep.join(parts)`, slicing
 * with `[:n]` and `[-n:]`, and `str()` of a non-negative integer.
 */
module Strings {
  import opened Wrappers

  /**
   * The code points for which `str.isspace()` holds, which are also the ones
   * `\s` matches in a `str` pattern, as inclusive ranges.
   */
  const SpaceRanges: seq<(int, int)> :=
    [(0x09, 0x0D), (0x1C, 0x20), (0x85, 0x85), (0xA0, 0xA0), (0x1680, 0x1680),
     (0x2000, 0x200A), (0x2028, 0x2029), (0x202F, 0x202F), (0x205F, 0x205F), (0x3000, 0x3000)]

  predicate InRanges(n: int, ranges: seq<(int, int)>) {
    ranges != [] && (ranges[0].0 <= n <= ranges[0].1 || InRanges(n, ranges[1..]))
  }

  /** A number in none of the ranges is not in their union. */
  lemma {:induction false} NotInRanges(n: int, ranges: seq<(int, int)>)
    requires forall k | 0 <= k < |ranges| :: !(ranges[k].0 <= n <= ranges[k].1)
    ensures !InRanges(n, ranges)
  {
    if ranges != [] {
      NotInRanges(n, ranges[1..]);
    }
  }

  /** `str.isspace()` of a single character. */
  predicate IsSpace(c: char) {
    InRanges(c as int, SpaceRanges)
  }

  predicate AllSpace(s: string) {
    forall i | 0 <= i < |s| :: IsSpace(s[i])
  }

  /** Neither end is whitespace: what `strip()` leaves. */
  predicate IsStripped(s: string) {
    s == [] || (!IsSpace(s[0]) && !IsSpace(s[|s| - 1]))
  }

  predicate IsSuffix(u: string, t: string) {
    |u| <= |t| && t[|t| - |u|..] == u
  }

  ghost predicate IsSubstring(u: string, t: string) {
    exists a, b | 0 <= a <= b <= |t| :: t[a..b] == u
  }

  lemma SubstringTransitive(u: string, t: string, w: string)
    requires IsSubstring(u, t) && IsSubstring(t, w)
    ensures IsSubstring(u, w)
  {
    var a, b :| 0 <= a <= b <= |t| && t[a..b] == u;
    var c, d :| 0 <= c <= d <= |w| && w[c..d] == t;
    assert w[c + a..c + b] == u by {
      SliceOfSlice(w, c, d, a, b);
    }
  }

  /** A slice of a slice is a slice of the original. */
  lemma SliceOfSlice(w: string, c: nat, d: nat, a: nat, b: nat)
    requires c <= d <= |w| && a <= b <= d - c
    ensures w[c..d][a..b] == w[c + a..c + b]
  {
    forall k | 0 <= k < b - a ensures w[c..d][a..b][k] == w[c + a..c + b][k] {
      assert w[c..d][a..b][k] == w[c + a + k];
    }
  }

  lemma SuffixIsSubstring(u: string, t: string)
    requires IsSuffix(u, t)
    ensures IsSubstring(u, t)
  {
    assert t[|t| - |u|..|t|] == u;
  }

  lemma PrefixIsSubstring(u: string, t: string)
    requires u <= t
    ensures IsSubstring(u, t)
  {
    assert t[0..|u|] == u;
  }

  lemma SuffixTransitive(u: string, t: string, w: string)
    requires IsSuffix(u, t) && IsSuffix(t, w)
    ensures IsSuffix(u, w)
  {
    assert w[|w| - |u|..] == w[|w| - |t|..][|t| - |u|..];
  }

  /** Leading whitespace removed (`str.lstrip()`). */
  function TrimLeft(s: string): (r: string)
    ensures IsSuffix(r, s)
    ensures forall i | 0 <= i < |s| - |r| :: IsSpace(s[i])
    ensures r == [] || !IsSpace(r[0])
  {
    if s != [] && IsSpace(s[0]) then
      var r := TrimLeft(s[1..]);
      assert s[|s| - |r|..] == s[1..][|s| - 1 - |r|..];
      assert forall i | 1 <= i < |s| - |r| :: s[i] == s[1..][i - 1];
      r
    else
      s
  }

  lemma {:induction false} TrimLeftBlank(s: string)
    requires AllSpace(s)
    ensures TrimLeft(s) == []
  {
    if s != [] {
      TrimLeftBlank(s[1..]);
    }
  }

  /** Trailing whitespace removed (`str.rstrip()`). */
  function TrimRight(s: string): (r: string)
    ensures r <= s
    ensures forall i | |r| <= i < |s| :: IsSpace(s[i])
    ensures r == [] || !IsSpace(r[|r| - 1])
  {
    if s != [] && IsSpace(s[|s| - 1]) then TrimRight(s[..|s| - 1]) else s
  }

  /** `r` is `s` with the whitespace run `s[..a]` before it and a whitespace run after it. */
  predicate StripsTo(s: string, r: string, a: nat) {
    a + |r| <= |s| && s[a..a + |r|] == r && AllSpace(s[..a]) && AllSpace(s[a + |r|..])
  }

  /** Trimming the left end, then the right, removes two whitespace runs and nothing else. */
  lemma TrimBothEnds(s: string)
    ensures StripsTo(s, TrimRight(TrimLeft(s)), |s| - |TrimLeft(s)|)
  {
    TrimLeftSplits(s);
    TrimRightSplits(TrimLeft(s));
    StripsToParts(s, TrimLeft(s), TrimRight(TrimLeft(s)));
  }

  /** Dropping a whitespace run from the front of `s`, then one from the end of what is left, strips `s`. */
  lemma StripsToParts(s: string, l: string, r: string)
    requires |l| <= |s| && s[|s| - |l|..] == l && AllSpace(s[..|s| - |l|])
    requires |r| <= |l| && l[..|r|] == r && AllSpace(l[|r|..])
    ensures StripsTo(s, r, |s| - |l|)
  {
    var a := |s| - |l|;
    assert s[a..a + |r|] == r by {
      SliceOfSlice(s, a, |s|, 0, |r|);
    }
    assert s[a + |r|..] == l[|r|..] by {
      SliceOfSlice(s, a, |s|, |r|, |l|);
    }
  }

  /** `TrimLeft` drops a run of whitespace from the front and keeps the rest. */
  lemma TrimLeftSplits(s: string)
    ensures |TrimLeft(s)| <= |s| && s[|s| - |TrimLeft(s)|..] == TrimLeft(s)
    ensures AllSpace(s[..|s| - |TrimLeft(s)|])
  {
    var a := |s| - |TrimLeft(s)|;
    var before := s[..a];
    forall k | 0 <= k < |before| ensures IsSpace(before[k]) {
      assert before[k] == s[k];
    }
  }

  /** `TrimRight` drops a run of whitespace from the end and keeps the rest. */
  lemma TrimRightSplits(l: string)
    ensures |TrimRight(l)| <= |l| && l[..|TrimRight(l)|] == TrimRight(l)
    ensures AllSpace(l[|TrimRight(l)|..])
  {
    var after := l[|TrimRight(l)|..];
    forall k | 0 <= k < |after| ensures IsSpace(after[k]) {
      assert after[k] == l[|TrimRight(l)| + k];
    }
  }


  /**
   * `str.strip()`: the result is what is left of `s` once the whitespace at
   * both ends is removed, and nothing else; it has no whitespace at either end
   * and is empty exactly for blank input.
   */
  function Strip(s: string): (r: string)
    ensures exists a: nat :: StripsTo(s, r, a)
    ensures IsStripped(r)
    ensures |r| <= |s|
    ensures r == [] <==> AllSpace(s)
  {
    var l := TrimLeft(s);
    var r := TrimRight(l);
    assert AllSpace(s) ==> l == [] by {
      if AllSpace(s) {
        TrimLeftBlank(s);
      }
    }
    assert r != [] ==> r[0] == l[0];
    assert r == [] ==> AllSpace(l);
    TrimBothEnds(s);
    r
  }

  /** A text without whitespace is its own `strip()`. */
  lemma StripWithoutSpace(s: string)
    requires forall i | 0 <= i < |s| :: !IsSpace(s[i])
    ensures Strip(s) == s
  {
    var r := Strip(s);
    var a: nat :| StripsTo(s, r, a);
    assert a + |r| <= |s| && s[a..a + |r|] == r && AllSpace(s[..a]) && AllSpace(s[a + |r|..]);
    assert a == 0 && a + |r| == |s|;
    assert s[0..|s|] == s;
  }

  /** A text that starts with a whitespace-free `p` keeps `p` at the front of its `strip()`. */
  lemma StripKeepsLead(p: string, w: string)
    requires p != [] && p <= w && forall i | 0 <= i < |p| :: !IsSpace(p[i])
    ensures p <= Strip(w)
  {
    var r := Strip(w);
    var a: nat :| StripsTo(w, r, a);
    assert forall i | 0 <= i < |p| :: !IsSpace(w[i]);
    SpaceRunStart(w, a);
    assert a == 0;
    SpaceRunFrom(w, |r|);
    assert |p| <= |r|;
    assert r[..|p|] == w[..|p|] by {
      assert r == w[..|r|];
    }
  }

  /** A whitespace run at the front of a text starts with whitespace. */
  lemma SpaceRunStart(s: string, a: nat)
    requires a <= |s|
    ensures 0 < a && AllSpace(s[..a]) ==> IsSpace(s[0])
  {
    if 0 < a {
      assert s[..a][0] == s[0];
    }
  }

  /** A whitespace run that ends a text starts with whitespace. */
  lemma SpaceRunFrom(s: string, b: nat)
    requires b <= |s|
    ensures b < |s| && AllSpace(s[b..]) ==> IsSpace(s[b])
  {
    if b < |s| {
      assert s[b..][0] == s[b];
    }
  }

  /** What `strip()` keeps is a contiguous piece of its argument. */
  lemma StripIsSubstring(s: string)
    ensures IsSubstring(Strip(s), s)
  {
    var l := TrimLeft(s);
    assert Strip(s) == TrimRight(l);
    PrefixIsSubstring(Strip(s), l);
    SuffixIsSubstring(l, s);
    SubstringTransitive(Strip(s), l, s);
  }

  /** `s[:n]` for `n >= 0`. */
  function Take(s: string, n: nat): (r: string)
    ensures r <= s
    ensures |r| == if |s| <= n then |s| else n
  {
    if |s| <= n then s else s[..n]
  }

  /** `s[-n:]`; the source only slices this way with `n > 0` (`s[-0:]` would be all of `s`). */
  function Tail(s: string, n: nat): (r: string)
    requires n > 0
    ensures IsSuffix(r, s)
    ensures |r| == if |s| <= n then |s| else n
  {
    if |s| <= n then s else s[|s| - n..]
  }

  // ---------------------------------------------------------------------------
  // sep.join(parts) and s.split(sep)
  // ---------------------------------------------------------------------------

  /** Joining a head before at least one more part puts the separator after the head. */
  lemma JoinCons(head: string, tail: seq<string>, sep: string)
    requires |tail| >= 1
    ensures Join([head] + tail, sep) == head + sep + Join(tail, sep)
  {
    assert ([head] + tail)[1..] == tail;
  }

  /** A prefix of a prefix of `w` starts `w`, and the rest of `w` follows it. */
  lemma PrefixThrough(p: string, u: string, w: string)
    requires p <= u && u <= w
    ensures w == p + w[|p|..]
  {
    assert w[..|p|] == u[..|p|];
    assert w == w[..|p|] + w[|p|..];
  }

  /** A text starts with what it was built from. */
  lemma PrefixOfConcat(a: string, b: string)
    ensures a <= a + b
  {
    assert (a + b)[..|a|] == a;
  }

  /** Dropping the first part of a concatenation leaves the second. */
  lemma DropOfConcat(a: string, b: string)
    ensures (a + b)[|a|..] == b
  {
  }

  /** A text built from a non-empty one starts with its first character. */
  lemma HeadOfConcat(a: string, b: string)
    requires a != []
    ensures (a + b)[0] == a[0]
  {
  }

  /** A text ends with the last thing it was built from. */
  lemma SuffixOfConcat(a: string, b: string)
    ensures IsSuffix(b, a + b)
  {
    assert (a + b)[|a|..] == b;
  }

  /** A slice within the left part of a concatenation is a slice of that part. */
  lemma SliceLeft(a: string, b: string, x: nat, y: nat)
    requires x <= y <= |a|
    ensures (a + b)[x..y] == a[x..y]
  {
    assert forall k | 0 <= k < y - x :: (a + b)[x..y][k] == a[x..y][k];
  }

  /** A slice within the right part of a concatenation is a slice of that part. */
  lemma SliceRight(a: string, b: string, x: nat, y: nat)
    requires |a| <= x <= y <= |a| + |b|
    ensures (a + b)[x..y] == b[x - |a|..y - |a|]
  {
    assert forall k | 0 <= k < y - x :: (a + b)[x..y][k] == b[x - |a|..y - |a|][k];
  }

  /** A text is the concatenation of three consecutive slices of it. */
  lemma SliceThree(s: string, i: nat, j: nat)
    requires i <= j <= |s|
    ensures s == s[..i] + s[i..j] + s[j..]
  {
    assert s[..j] == s[..i] + s[i..j];
    assert s == s[..j] + s[j..];
  }

  /** `sep.join(parts)`. */
  function Join(parts: seq<string>, sep: string): string
  {
    if |parts| == 0 then "" else if |parts| == 1 then parts[0] else parts[0] + sep + Join(parts[1..], sep)
  }

  /** A single part joins to itself. */
  lemma JoinOne(parts: seq<string>, sep: string)
    ensures |parts| == 1 ==> Join(parts, sep) == parts[0]
  {
  }

  lemma {:induction false} JoinAppend(parts: seq<string>, p: string, sep: string)
    requires |parts| >= 1
    ensures Join(parts + [p], sep) == Join(parts, sep) + sep + p
  {
    if |parts| > 1 {
      assert (parts + [p])[1..] == parts[1..] + [p];
      JoinAppend(parts[1..], p, sep);
    }
  }

  /** Joining the first `k` parts gives a prefix of the whole join. */
  lemma {:induction false} JoinPrefix(parts: seq<string>, k: nat, sep: string)
    requires k <= |parts|
    ensures Join(parts[..k], sep) <= Join(parts, sep)
  {
    if k == |parts| {
      assert parts[..k] == parts;
    } else if k > 1 {
      assert parts[..k][1..] == parts[1..][..k - 1];
      JoinPrefix(parts[1..], k - 1, sep);
    } else if k == 1 && |parts| > 1 {
      assert parts[..k] == [parts[0]];
    }
  }

  /** Joining the parts from `k` on gives a suffix of the whole join. */
  lemma {:induction false} JoinSuffix(parts: seq<string>, k: nat, sep: string)
    requires k <= |parts|
    ensures IsSuffix(Join(parts[k..], sep), Join(parts, sep))
  {
    if k == 0 {
      assert parts[k..] == parts;
    } else if |parts| > 1 {
      assert parts[k..] == parts[1..][k - 1..];
      JoinSuffix(parts[1..], k - 1, sep);
    }
  }

  /** Every part stands contiguously in the join. */
  lemma {:induction false} JoinPartIsSubstring(parts: seq<string>, k: nat, sep: string)
    requires k < |parts|
    ensures IsSubstring(parts[k], Join(parts, sep))
  {
    var j := Join(parts, sep);
    if |parts| == 1 {
      assert j[0..|j|] == parts[k];
    } else if k == 0 {
      assert j[0..|parts[0]|] == parts[0];
    } else {
      JoinPartIsSubstring(parts[1..], k - 1, sep);
      JoinSuffix(parts, 1, sep);
      SuffixIsSubstring(Join(parts[1..], sep), j);
      SubstringTransitive(parts[k], Join(parts[1..], sep), j);
    }
  }

  /** The join of text made of whitespace only, with a whitespace separator, is blank iff every part is. */
  lemma {:induction false} JoinAllSpace(parts: seq<string>, sep: string)
    requires sep != [] && AllSpace(sep)
    ensures AllSpace(Join(parts, sep)) <==> forall k | 0 <= k < |parts| :: AllSpace(parts[k])
  {
    if |parts| > 1 {
      JoinAllSpace(parts[1..], sep);
      var rest := Join(parts[1..], sep);
      var j := parts[0] + sep + rest;
      assert j[..|parts[0]|] == parts[0];
      assert j[|parts[0] + sep|..] == rest;
      if AllSpace(j) {
        forall k | 0 <= k < |parts| ensures AllSpace(parts[k]) {
          if k > 0 {
            assert parts[k] == parts[1..][k - 1];
          }
        }
      }
      if forall k | 0 <= k < |parts| :: AllSpace(parts[k]) {
        forall k | 0 <= k < |parts| - 1 ensures AllSpace(parts[1..][k]) {
          assert parts[1..][k] == parts[k + 1];
        }
        forall i | 0 <= i < |j| ensures IsSpace(j[i]) {
          if i < |parts[0]| {
            assert j[i] == parts[0][i];
          } else if i < |parts[0]| + |sep| {
            assert j[i] == sep[i - |parts[0]|];
          } else {
            assert j[i] == rest[i - |parts[0]| - |sep|];
          }
        }
      }
    }
  }

  /** `sep` stands in `s` at index `i`. */
  predicate OccursAt(s: string, sep: string, i: nat) {
    i + |sep| <= |s| && s[i..i + |sep|] == sep
  }

  /** `s.find(sep, start)`: the leftmost occurrence at or after `start`, if any. */
  function Find(s: string, sep: string, start: nat): (r: Option<nat>)
    requires |sep| > 0
    ensures r.Some? ==> start <= r.value && OccursAt(s, sep, r.value)
    decreases |s| - start
  {
    if start + |sep| > |s| then None
    else if OccursAt(s, sep, start) then Some(start)
    else Find(s, sep, start + 1)
  }

  /** What `Find` returns is the leftmost occurrence from `start`; `None` means there is none. */
  lemma {:induction false} FindLeftmost(s: string, sep: string, start: nat)
    requires |sep| > 0
    ensures Find(s, sep, start).Some? ==> forall j | start <= j < Find(s, sep, start).value :: !OccursAt(s, sep, j)
    ensures Find(s, sep, start).None? ==> forall j | start <= j :: !OccursAt(s, sep, j)
    decreases |s| - start
  {
    if start + |sep| <= |s| && !OccursAt(s, sep, start) {
      FindLeftmost(s, sep, start + 1);
    }
  }

  /** `s.split(sep)` for a non-empty `sep` (Python raises on an empty one). */
  function Split(s: string, sep: string): (parts: seq<string>)
    requires |sep| > 0
    ensures |parts| >= 1
    decreases |s|
  {
    match Find(s, sep, 0)
    case None => [s]
    case Some(i) => [s[..i]] + Split(s[i + |sep|..], sep)
  }

  /** Joining what `split` returned with the same separator gives back the text. */
  lemma {:induction false} SplitJoin(s: string, sep: string)
    requires |sep| > 0
    ensures Join(Split(s, sep), sep) == s
    decreases |s|
  {
    match Find(s, sep, 0)
    case None =>
    case Some(i) =>
      var head, rest := s[..i], s[i + |sep|..];
      var tail := Split(rest, sep);
      calc {
        Join(Split(s, sep), sep);
        Join([head] + tail, sep);
        { JoinCons(head, tail, sep); }
        head + sep + Join(tail, sep);
        { SplitJoin(rest, sep); }
        head + sep + rest;
        { assert s[i..i + |sep|] == sep; SliceThree(s, i, i + |sep|); }
        s;
      }
  }


  /** No piece of a split contains the separator. */
  lemma {:induction false} SplitPiecesFree(s: string, sep: string)
    requires |sep| > 0
    ensures forall p, j | p in Split(s, sep) :: !OccursAt(p, sep, j)
    decreases |s|
  {
    FindLeftmost(s, sep, 0);
    match Find(s, sep, 0)
    case None =>
    case Some(i) =>
      var rest := s[i + |sep|..];
      SplitPiecesFree(rest, sep);
      forall j: nat | OccursAt(s[..i], sep, j) ensures false {
        assert s[..i][j..j + |sep|] == s[j..j + |sep|];
        assert OccursAt(s, sep, j);
      }
  }

  /** The last piece of a split is a suffix of the text. */
  lemma SplitLastPiece(s: string, sep: string, parts: seq<string>)
    requires |sep| > 0 && parts == Split(s, sep)
    ensures IsSuffix(parts[|parts| - 1], s)
  {
    var k := |parts| - 1;
    SplitJoin(s, sep);
    JoinSuffix(parts, k, sep);
    assert parts[k..] == [parts[k]];
  }

  /** A join whose last part is empty ends with the separator. */
  lemma JoinEndsWithSep(parts: seq<string>, sep: string)
    requires |parts| >= 2 && parts[|parts| - 1] == []
    ensures IsSuffix(sep, Join(parts, sep))
  {
    var init := parts[..|parts| - 1];
    assert parts == init + [[]];
    JoinAppend(init, [], sep);
    assert Join(parts, sep) == Join(init, sep) + sep;
    SuffixOfConcat(Join(init, sep), sep);
  }

  /** The last piece of a split of a non-empty text is empty only if the text ends with `sep`. */
  lemma SplitLastEmpty(s: string, sep: string, parts: seq<string>)
    requires |sep| > 0 && parts == Split(s, sep)
    ensures s != [] && parts[|parts| - 1] == [] ==> s[|s| - 1] == sep[|sep| - 1]
  {
    var k := |parts| - 1;
    SplitJoin(s, sep);
    if k == 0 {
      JoinOne(parts, sep);
    } else if parts[k] == [] {
      JoinEndsWithSep(parts, sep);
      assert s[|s| - 1] == s[|s| - |sep|..][|sep| - 1];
    }
  }

  // ---------------------------------------------------------------------------
  // str(n) for n >= 0
  // ---------------------------------------------------------------------------

  predicate IsDigit(c: char) {
    '0' <= c <= '9'
  }

  function DigitChar(d: nat): (c: char)
    requires d < 10
    ensures IsDigit(c)
  {
    ('0' as int + d) as char
  }

  /** `str(n)`: decimal digits, no sign and no leading zero. */
  function NatToString(n: nat): (s: string)
    ensures |s| >= 1 && forall i | 0 <= i < |s| :: IsDigit(s[i])
  {
    if n < 10 then [DigitChar(n)] else NatToString(n / 10) + [DigitChar(n % 10)]
  }

  /** `int(s)` of a string of decimal digits. */
  function DigitsValue(s: string): nat
    requires forall i | 0 <= i < |s| :: IsDigit(s[i])
  {
    if s == [] then 0 else DigitsValue(s[..|s| - 1]) * 10 + DigitValue(s[|s| - 1])
  }

  function DigitValue(c: char): nat
    requires IsDigit(c)
  {
    c as int - '0' as int
  }

  /** `int(str(n)) == n`. */
  lemma {:induction false} NatToStringRoundTrip(n: nat)
    ensures DigitsValue(NatToString(n)) == n
  {
    var s := NatToString(n);
    if n < 10 {
      assert s[..0] == [];
    } else {
      NatToStringRoundTrip(n / 10);
      assert s[..|s| - 1] == NatToString(n / 10);
    }
  }

  lemma NatToStringInjective(m: nat, n: nat)
    requires NatToString(m) == NatToString(n)
    ensures m == n
  {
    NatToStringRoundTrip(m);
    NatToStringRoundTrip(n);
  }
}
