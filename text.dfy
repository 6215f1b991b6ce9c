/** The optional value that stands for JavaScript's `null` / "no match". */
module Options {
  datatype Option<+T> = None | Some(value: T)
}

/**
 * Character classes and the string primitives the statement parser relies on:
 * JavaScript's `\s`, `trim()`, `lastIndexOf`, a leftmost search standing for an
 * unanchored regular-expression match, and the ASCII case folding of the `i` flag.
 */
module Text {
  import opened Options

  /** JavaScript's `\s`; `String.prototype.trim` removes exactly the same characters. */
  predicate IsSpace(c: char) {
    || c == ' ' || c == '\t' || c == '\n' || c == '\r' || c == '\U{000B}' || c == '\U{000C}'
    || c == '\U{00A0}' || c == '\U{1680}' || ('\U{2000}' <= c <= '\U{200A}')
    || c == '\U{2028}' || c == '\U{2029}' || c == '\U{202F}' || c == '\U{205F}'
    || c == '\U{3000}' || c == '\U{FEFF}'
  }

  /** The characters that `.` does not match (no `s` flag is used anywhere). */
  predicate IsLineTerminator(c: char) {
    c == '\n' || c == '\r' || c == '\U{2028}' || c == '\U{2029}'
  }

  /** `\d` */
  predicate IsDigit(c: char) { '0' <= c <= '9' }

  /** `[A-Z]` */
  predicate IsUpper(c: char) { 'A' <= c <= 'Z' }

  /** The word characters that `\b` separates from the rest: `[A-Za-z0-9_]`. */
  predicate IsWordChar(c: char) { IsDigit(c) || IsUpper(c) || ('a' <= c <= 'z') || c == '_' }

  /** ASCII lower-casing; every other character is left as it is. */
  function LowerAscii(c: char): (r: char)
    ensures IsUpper(c) ==> r as int == c as int + 32
    ensures !IsUpper(c) ==> r == c
  {
    if IsUpper(c) then (c as int + 32) as char else c
  }

  predicate AllSpace(s: string) {
    forall k :: 0 <= k < |s| ==> IsSpace(s[k])
  }

  predicate NoLineTerminator(s: string) {
    forall k :: 0 <= k < |s| ==> !IsLineTerminator(s[k])
  }

  /** Two texts without line terminators, one after the other, have none. */
  lemma NoLineTerminatorConcat(a: string, b: string)
    requires NoLineTerminator(a) && NoLineTerminator(b)
    ensures NoLineTerminator(a + b)
  {
    forall k | 0 <= k < |a + b| ensures !IsLineTerminator((a + b)[k]) {
      if k >= |a| {
        assert (a + b)[k] == b[k - |a|];
      }
    }
  }

  /** A string with no whitespace at either end, as `trim()` leaves it. */
  predicate IsTrimmed(s: string) {
    s == [] || (!IsSpace(s[0]) && !IsSpace(s[|s| - 1]))
  }

  /** Number of leading whitespace characters: a greedy `\s*` at the start of `t`. */
  function SpanSpace(t: string): (n: nat)
    ensures n <= |t|
    ensures forall k :: 0 <= k < n ==> IsSpace(t[k])
    ensures n == |t| || !IsSpace(t[n])
  {
    if t == [] || !IsSpace(t[0]) then 0 else 1 + SpanSpace(t[1..])
  }

  /** Number of trailing whitespace characters. */
  function SpanSpaceBack(t: string): (n: nat)
    ensures n <= |t|
    ensures forall k :: |t| - n <= k < |t| ==> IsSpace(t[k])
    ensures n == |t| || !IsSpace(t[|t| - n - 1])
  {
    if t == [] || !IsSpace(t[|t| - 1]) then 0 else 1 + SpanSpaceBack(t[..|t| - 1])
  }

  /** `String.prototype.trim`. */
  function Trim(s: string): (r: string)
    ensures IsTrimmed(r)
    ensures r == [] <==> AllSpace(s)
    ensures exists a, b :: 0 <= a <= b <= |s| && r == s[a..b] && AllSpace(s[..a]) && AllSpace(s[b..])
  {
    var a := SpanSpace(s);
    if a == |s| then
      assert s[..|s|] == s && s[|s|..] == [] && s[|s|..|s|] == [];
      []
    else
      var b := |s| - SpanSpaceBack(s);
      assert !IsSpace(s[a]) && a < b;
      s[a..b]
  }

  lemma {:induction false} SpanSpaceAppend(p: string, t: string)
    requires AllSpace(p)
    ensures SpanSpace(p + t) == |p| + SpanSpace(t)
  {
    if p != [] {
      assert (p + t)[1..] == p[1..] + t;
      SpanSpaceAppend(p[1..], t);
    } else {
      assert p + t == t;
    }
  }

  lemma {:induction false} SpanSpaceBackAppend(t: string, q: string)
    requires AllSpace(q)
    ensures SpanSpaceBack(t + q) == SpanSpaceBack(t) + |q|
  {
    if q != [] {
      var q' := q[..|q| - 1];
      assert (t + q)[..|t + q| - 1] == t + q';
      SpanSpaceBackAppend(t, q');
    } else {
      assert t + q == t;
    }
  }

  /** What is left of `t` after a greedy `\s*`. */
  function AfterSpace(t: string): (r: string)
    ensures |r| <= |t| && (r == [] || !IsSpace(r[0]))
  {
    t[SpanSpace(t)..]
  }

  /** `t` is the whitespace `\s*` skips followed by what is left. */
  lemma AfterSpaceSplit(t: string) returns (p: string)
    ensures AllSpace(p) && t == p + AfterSpace(t)
  {
    p := t[..SpanSpace(t)];
    assert t == p + t[SpanSpace(t)..];
  }

  /** Whitespace put in front of text that does not start with whitespace is exactly what `\s*` skips. */
  lemma AfterSpacePadded(p: string, t: string)
    requires AllSpace(p) && (t == [] || !IsSpace(t[0]))
    ensures AfterSpace(p + t) == t
  {
    SpanSpaceAppend(p, t);
    assert SpanSpace(t) == 0;
    assert (p + t)[|p|..] == t;
  }

  /** A string is its first `n` characters followed by the others. */
  lemma SplitAt(t: string, n: nat)
    requires n <= |t|
    ensures t == t[..n] + t[n..]
  {
  }

  /** A non-empty string is its first character followed by the others. */
  lemma SplitFirst(t: string, c: char)
    requires t != [] && t[0] == c
    ensures t == [c] + t[1..]
  {
  }

  /** A whitespace prefix that stops at a non-space character is the greedy `\s*`. */
  lemma SpanSpaceIs(t: string, n: nat)
    requires n <= |t| && AllSpace(t[..n])
    requires n == |t| || !IsSpace(t[n])
    ensures SpanSpace(t) == n
  {
    assert forall k :: 0 <= k < n ==> IsSpace(t[k]) by {
      forall k | 0 <= k < n ensures IsSpace(t[k]) { assert t[..n][k] == t[k]; }
    }
  }

  /** A string made of whitespace, a trimmed core and whitespace trims to that core. */
  lemma TrimPadded(p: string, r: string, q: string)
    requires AllSpace(p) && AllSpace(q) && IsTrimmed(r)
    ensures Trim(p + r + q) == r
  {
    var s := p + r + q;
    SpanSpaceAppend(p, r + q);
    assert s == p + (r + q);
    SpanSpaceBackAppend(p + r, q);
    if r == [] {
      assert SpanSpace(r + q) == |q| by { SpanSpaceAppend(q, []); assert q + [] == q; assert r + q == q; }
    } else {
      assert SpanSpace(r + q) == 0;
      assert SpanSpaceBack(p + r) == 0;
      assert s[|p|..|p| + |r|] == r;
    }
  }

  /** A trimmed string followed by a space trims back to itself. */
  lemma TrimSpaceAfter(r: string)
    requires IsTrimmed(r)
    ensures Trim(r + " ") == r
  {
    TrimPadded([], r, " ");
    assert [] + r + " " == r + " ";
  }

  /** A space followed by a trimmed string trims to that string. */
  lemma TrimSpaceBefore(r: string)
    requires IsTrimmed(r)
    ensures Trim(" " + r) == r
  {
    TrimPadded(" ", r, []);
    assert " " + r + [] == " " + r;
  }

  lemma TrimTrimmed(r: string)
    requires IsTrimmed(r)
    ensures Trim(r) == r
  {
    TrimPadded([], r, []);
    assert [] + r + [] == r;
  }

  /**
   * The first index in `[lo, hi)` at which `p` holds: the position at which an
   * unanchored regular expression (or `indexOf`) finds its leftmost match.
   */
  function FindFirst(p: nat -> bool, lo: nat, hi: nat): (r: Option<nat>)
    decreases hi - lo
    ensures r.Some? ==> lo <= r.value < hi && p(r.value)
    ensures forall k :: lo <= k < hi && (r.None? || k < r.value) ==> !p(k)
  {
    if lo >= hi then None
    else if p(lo) then Some(lo)
    else FindFirst(p, lo + 1, hi)
  }

  /** The last index in `[lo, hi)` at which `p` holds, as `lastIndexOf` reports it. */
  function FindLast(p: nat -> bool, lo: nat, hi: nat): (r: Option<nat>)
    decreases hi
    ensures r.Some? ==> lo <= r.value < hi && p(r.value)
    ensures forall k :: lo <= k < hi && (r.None? || k > r.value) ==> !p(k)
  {
    if lo >= hi then None
    else if p(hi - 1) then Some(hi - 1)
    else FindLast(p, lo, hi - 1)
  }

  /** The search finds exactly the index that is the only one to qualify from the left. */
  lemma FindFirstIs(p: nat -> bool, lo: nat, hi: nat, i: nat)
    requires lo <= i < hi && p(i)
    requires forall k :: lo <= k < i ==> !p(k)
    ensures FindFirst(p, lo, hi) == Some(i)
  {
  }

  lemma FindLastIs(p: nat -> bool, lo: nat, hi: nat, i: nat)
    requires lo <= i < hi && p(i)
    requires forall k :: i < k < hi ==> !p(k)
    ensures FindLast(p, lo, hi) == Some(i)
  {
  }

  /** `pat` occurs in `s` starting at index `k`. */
  predicate OccursAt(s: string, k: nat, pat: string) {
    k + |pat| <= |s| && s[k..k + |pat|] == pat
  }

  /** `s.lastIndexOf(pat)`, with `None` for -1. */
  function LastIndexOf(s: string, pat: string): (r: Option<nat>)
    requires pat != []
    ensures r.Some? ==> OccursAt(s, r.value, pat)
    ensures forall k: nat :: (r.None? || k > r.value) ==> !OccursAt(s, k, pat)
  {
    var p := (k: nat) => OccursAt(s, k, pat);
    var r := FindLast(p, 0, |s|);
    assert forall k: nat :: (r.None? || k > r.value) ==> !OccursAt(s, k, pat) by {
      forall k: nat | r.None? || k > r.value ensures !OccursAt(s, k, pat) {
        if k < |s| { assert !p(k); }
      }
    }
    r
  }

  /** `lastIndexOf` finds an occurrence that no later one follows. */
  lemma LastIndexOfIs(s: string, pat: string, i: nat)
    requires pat != [] && OccursAt(s, i, pat)
    requires forall k: nat :: k > i ==> !OccursAt(s, k, pat)
    ensures LastIndexOf(s, pat) == Some(i)
  {
  }

  /** `lastIndexOf` gives -1 when the pattern does not occur. */
  lemma LastIndexOfNone(s: string, pat: string)
    requires pat != [] && forall k: nat :: !OccursAt(s, k, pat)
    ensures LastIndexOf(s, pat).None?
  {
  }

  /** `pat` (lower case) occurs at `k` in `s` when case is ignored, as under the `i` flag. */
  predicate OccursAtIgnoreCase(s: string, k: nat, pat: string) {
    k + |pat| <= |s| && forall j :: 0 <= j < |pat| ==> LowerAscii(s[k + j]) == pat[j]
  }

  /** `/pat/i.test(s)` for a literal pattern written here in lower case. */
  predicate ContainsIgnoreCase(s: string, pat: string) {
    FindFirst((k: nat) => OccursAtIgnoreCase(s, k, pat), 0, |s|).Some?
  }

  lemma ContainsIgnoreCaseAt(s: string, pat: string, k: nat)
    requires OccursAtIgnoreCase(s, k, pat) && k < |s|
    ensures ContainsIgnoreCase(s, pat)
  {
    var p := (k: nat) => OccursAtIgnoreCase(s, k, pat);
    assert p(k);
  }

  /** Four texts one after the other, grouped from the right. */
  lemma Regroup(a: string, b: string, c: string, d: string)
    ensures a + b + c + d == a + (b + c + d)
  {
  }
}
