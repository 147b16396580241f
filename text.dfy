/**
 * The string primitives the sorter is built from: the two whitespace classes
 * it uses, literal search, PHP's trim, whitespace removal, the plain and
 * case-folded string orders of SORT_STRING, and implode.
 */
module Text {
  import opened Wrappers

  /** A character matched by the PCRE class `\s` (ASCII only). */
  predicate IsSpace(c: char) {
    c == ' ' || c == '\t' || c == '\n' || c == '\U{000B}' || c == '\U{000C}' || c == '\r'
  }

  /** A character removed by PHP's `trim` with its default character list. */
  predicate IsTrimmable(c: char) {
    c == ' ' || c == '\t' || c == '\n' || c == '\r' || c == '\0' || c == '\U{000B}'
  }

  predicate HasSpace(s: string) {
    exists i :: 0 <= i < |s| && IsSpace(s[i])
  }

  /** `pat` occurs in `s` starting at position `p`. */
  predicate IsAt(s: string, pat: string, p: int) {
    0 <= p && p + |pat| <= |s| && s[p..p + |pat|] == pat
  }

  /** The leftmost occurrence of `pat` in `s` at or after `from`. */
  function FindFrom(s: string, pat: string, from: nat): (r: Option<nat>)
    requires from <= |s|
    ensures r.Some? ==> from <= r.value && r.value + |pat| <= |s|
    decreases |s| - from
  {
    if from + |pat| > |s| then None
    else if s[from..from + |pat|] == pat then Some(from)
    else FindFrom(s, pat, from + 1)
  }

  /** The search finds an occurrence, and no occurrence is skipped. */
  lemma {:induction false} FindFromSpec(s: string, pat: string, from: nat)
    requires from <= |s|
    ensures FindFrom(s, pat, from).Some? ==> IsAt(s, pat, FindFrom(s, pat, from).value)
    ensures FindFrom(s, pat, from).Some? ==>
      forall p :: from <= p < FindFrom(s, pat, from).value ==> !IsAt(s, pat, p)
    ensures FindFrom(s, pat, from).None? ==> forall p :: from <= p ==> !IsAt(s, pat, p)
    decreases |s| - from
  {
    if from + |pat| <= |s| && s[from..from + |pat|] != pat {
      FindFromSpec(s, pat, from + 1);
    }
  }

  /** The leftmost occurrence of `pat` in `s` (strpos). */
  function Find(s: string, pat: string): (r: Option<nat>)
    ensures r.Some? ==> IsAt(s, pat, r.value) && forall p :: 0 <= p < r.value ==> !IsAt(s, pat, p)
    ensures r.None? ==> forall p :: !IsAt(s, pat, p)
  {
    FindFromSpec(s, pat, 0);
    FindFrom(s, pat, 0)
  }

  /** An occurrence inside the slice `s[a..b]` is an occurrence in `s`. */
  lemma IsAtSlice(s: string, a: nat, b: nat, pat: string, p: nat)
    requires a <= b <= |s| && IsAt(s[a..b], pat, p)
    ensures IsAt(s, pat, a + p)
  {
    var t := s[a..b];
    forall k | 0 <= k < |pat| ensures s[a + p + k] == pat[k] {
      assert t[p..p + |pat|][k] == t[p + k] == s[a + p + k];
    }
    assert s[a + p..a + p + |pat|] == pat;
  }

  /** The gap before a found occurrence, followed by that occurrence, holds it as its first one. */
  lemma GapBeforeOccurrence(s: string, pat: string, from: nat, q: nat)
    requires from <= |s| && FindFrom(s, pat, from) == Some(q)
    ensures Find(s[from..q] + pat, pat) == Some(q - from)
  {
    FindFromSpec(s, pat, from);
    var x := s[from..q + |pat|];
    assert IsAt(x, pat, q - from) by {
      assert x[q - from..q - from + |pat|] == s[q..q + |pat|];
    }
    forall p | 0 <= p < q - from && IsAt(x, pat, p) ensures false {
      IsAtSlice(s, from, q + |pat|, pat, p);
    }
    LeftmostAt(x, pat, q - from);
    assert x == s[from..q] + s[q..q + |pat|];
  }

  /** An occurrence with none before it is what `Find` returns. */
  lemma LeftmostAt(x: string, pat: string, k: nat)
    requires IsAt(x, pat, k) && forall p :: 0 <= p < k ==> !IsAt(x, pat, p)
    ensures Find(x, pat) == Some(k)
  {
  }

  /** A search from `a` and one from `b` agree when no occurrence starts in between. */
  lemma FindFromSkip(s: string, pat: string, a: nat, b: nat)
    requires a <= b <= |s|
    requires forall p :: a <= p < b ==> !IsAt(s, pat, p)
    ensures FindFrom(s, pat, a) == FindFrom(s, pat, b)
  {
    var ra, rb := FindFrom(s, pat, a), FindFrom(s, pat, b);
    FindFromSpec(s, pat, a);
    FindFromSpec(s, pat, b);
    if rb.Some? {
      assert IsAt(s, pat, rb.value);
      assert ra.Some? && ra.value >= b;
    } else {
      assert forall p :: a <= p ==> !IsAt(s, pat, p);
    }
  }

  /**
   * The number of occurrences of `pat` in `s[from..]` found by a left-to-right
   * scan that resumes after each match (the matches str_replace replaces).
   */
  function OccurrencesFrom(s: string, pat: string, from: nat): nat
    requires pat != [] && from <= |s|
    decreases |s| - from
  {
    match FindFrom(s, pat, from)
    case None => 0
    case Some(q) => 1 + OccurrencesFrom(s, pat, q + |pat|)
  }

  /** The start of the run of `IsSpace` characters that ends at position `q`, not going below `lo`. */
  function SpaceRunStart(s: string, lo: nat, q: nat): (p: nat)
    requires lo <= q <= |s|
    ensures lo <= p <= q
    decreases q
  {
    if q > lo && IsSpace(s[q - 1]) then SpaceRunStart(s, lo, q - 1) else q
  }

  /** The run found by `SpaceRunStart` is whitespace and cannot be extended to the left. */
  lemma {:induction false} SpaceRunStartSpec(s: string, lo: nat, q: nat)
    requires lo <= q <= |s|
    ensures var p := SpaceRunStart(s, lo, q);
      && (forall i :: p <= i < q ==> IsSpace(s[i]))
      && (p == lo || !IsSpace(s[p - 1]))
    decreases q
  {
    if q > lo && IsSpace(s[q - 1]) {
      SpaceRunStartSpec(s, lo, q - 1);
    }
  }

  /** The end of the run of `IsSpace` characters that starts at position `q`. */
  function SpaceRunEnd(s: string, q: nat): (e: nat)
    requires q <= |s|
    ensures q <= e <= |s|
    decreases |s| - q
  {
    if q < |s| && IsSpace(s[q]) then SpaceRunEnd(s, q + 1) else q
  }

  /** The run found by `SpaceRunEnd` is whitespace and cannot be extended to the right. */
  lemma {:induction false} SpaceRunEndSpec(s: string, q: nat)
    requires q <= |s|
    ensures var e := SpaceRunEnd(s, q);
      && (forall i :: q <= i < e ==> IsSpace(s[i]))
      && (e == |s| || !IsSpace(s[e]))
    decreases |s| - q
  {
    if q < |s| && IsSpace(s[q]) {
      SpaceRunEndSpec(s, q + 1);
    }
  }

  /** The first `IsSpace` character of `s` at or after `from`. */
  function FirstSpace(s: string, from: nat): (r: Option<nat>)
    requires from <= |s|
    ensures r.Some? ==> from <= r.value < |s| && IsSpace(s[r.value])
    ensures r.Some? ==> forall i :: from <= i < r.value ==> !IsSpace(s[i])
    ensures r.None? ==> forall i :: from <= i < |s| ==> !IsSpace(s[i])
    decreases |s| - from
  {
    if from == |s| then None
    else if IsSpace(s[from]) then Some(from)
    else FirstSpace(s, from + 1)
  }

  /** `preg_replace("/[\s]+/", "", s)`: every whitespace character removed. */
  function RemoveSpaces(s: string): (r: string)
    ensures |r| <= |s|
    ensures !HasSpace(r)
  {
    if s == [] then []
    else if IsSpace(s[0]) then RemoveSpaces(s[1..])
    else [s[0]] + RemoveSpaces(s[1..])
  }

  /** Removing whitespace keeps everything else, in order: it distributes over concatenation. */
  lemma {:induction false} RemoveSpacesAppend(s: string, t: string)
    ensures RemoveSpaces(s + t) == RemoveSpaces(s) + RemoveSpaces(t)
  {
    if s == [] {
      assert s + t == t;
    } else {
      assert (s + t)[0] == s[0];
      assert (s + t)[1..] == s[1..] + t;
      RemoveSpacesAppend(s[1..], t);
    }
  }

  /** On one character: whitespace is deleted, anything else is kept. */
  lemma RemoveSpacesChar(c: char)
    ensures RemoveSpaces([c]) == if IsSpace(c) then [] else [c]
  {
    assert [c][1..] == [];
  }

  /** A string without whitespace is left as it is. */
  lemma {:induction false} RemoveSpacesNoSpace(s: string)
    requires !HasSpace(s)
    ensures RemoveSpaces(s) == s
  {
    if s != [] {
      assert !IsSpace(s[0]);
      assert !HasSpace(s[1..]) by {
        forall i | 0 <= i < |s[1..]| ensures !IsSpace(s[1..][i]) {
          assert s[1..][i] == s[i + 1];
        }
      }
      RemoveSpacesNoSpace(s[1..]);
    }
  }

  /** Where `trim` starts: the first non-trimmable position at or after `i`, or the end. */
  function TrimStart(s: string, i: nat): (a: nat)
    requires i <= |s|
    ensures i <= a <= |s|
    ensures forall k :: i <= k < a ==> IsTrimmable(s[k])
    ensures a == |s| || !IsTrimmable(s[a])
    decreases |s| - i
  {
    if i < |s| && IsTrimmable(s[i]) then TrimStart(s, i + 1) else i
  }

  /** Where `trim` ends: the last non-trimmable position before `j`, plus one, not going below `a`. */
  function TrimEnd(s: string, a: nat, j: nat): (b: nat)
    requires a <= j <= |s|
    ensures a <= b <= j
    ensures forall k :: b <= k < j ==> IsTrimmable(s[k])
    ensures b == a || !IsTrimmable(s[b - 1])
    decreases j
  {
    if j > a && IsTrimmable(s[j - 1]) then TrimEnd(s, a, j - 1) else j
  }

  /** PHP `trim`: the longest infix of `s` that neither starts nor ends with a trimmable character. */
  function Trim(s: string): (r: string)
    ensures exists a, b ::
              && 0 <= a <= b <= |s| && r == s[a..b]
              && (forall i :: 0 <= i < a ==> IsTrimmable(s[i]))
              && (forall i :: b <= i < |s| ==> IsTrimmable(s[i]))
    ensures r == [] || (!IsTrimmable(r[0]) && !IsTrimmable(r[|r| - 1]))
  {
    var a := TrimStart(s, 0);
    var b := TrimEnd(s, a, |s|);
    s[a..b]
  }

  /** ASCII lower-casing, as PHP's case-folding string comparison does. */
  function Lower(c: char): char {
    if 'A' <= c <= 'Z' then (c as int + 32) as char else c
  }

  function LowerString(s: string): (r: string)
    ensures |r| == |s|
    ensures forall i :: 0 <= i < |s| ==> r[i] == Lower(s[i])
  {
    if s == [] then [] else [Lower(s[0])] + LowerString(s[1..])
  }

  /** SORT_STRING: `a` sorts before or with `b` in byte-wise lexicographic order (strcmp <= 0). */
  predicate LexLe(a: string, b: string)
    ensures a <= b ==> LexLe(a, b)
  {
    if a == [] then true
    else if b == [] then false
    else if a[0] != b[0] then a[0] < b[0]
    else LexLe(a[1..], b[1..])
  }

  /** SORT_STRING | SORT_FLAG_CASE: lexicographic order after ASCII lower-casing. */
  predicate FoldLe(a: string, b: string)
    ensures LowerString(a) <= LowerString(b) ==> FoldLe(a, b)
  {
    LexLe(LowerString(a), LowerString(b))
  }

  lemma {:induction false} LexLeTotal(a: string, b: string)
    ensures LexLe(a, b) || LexLe(b, a)
  {
    if a != [] && b != [] && a[0] == b[0] {
      LexLeTotal(a[1..], b[1..]);
    }
  }

  lemma {:induction false} LexLeTransitive(a: string, b: string, c: string)
    requires LexLe(a, b) && LexLe(b, c)
    ensures LexLe(a, c)
  {
    if a != [] && b != [] && c != [] && a[0] == b[0] && b[0] == c[0] {
      LexLeTransitive(a[1..], b[1..], c[1..]);
    }
  }

  lemma {:induction false} LexLeAntisymmetric(a: string, b: string)
    requires LexLe(a, b) && LexLe(b, a)
    ensures a == b
  {
    if a != [] && b != [] {
      LexLeAntisymmetric(a[1..], b[1..]);
      assert a == [a[0]] + a[1..];
      assert b == [b[0]] + b[1..];
    }
  }

  /** Under the folded order, strings equal up to ASCII case are tied both ways. */
  lemma FoldLeIgnoresCase(a: string, b: string)
    requires LowerString(a) == LowerString(b)
    ensures FoldLe(a, b) && FoldLe(b, a)
  {
    LexLeTotal(LowerString(a), LowerString(b));
  }

  /** PHP `implode(sep, ts)`: the tokens with `sep` between neighbours. */
  function Join(ts: seq<string>, sep: string): (r: string)
    ensures |ts| == 1 ==> r == ts[0]
    ensures |ts| == 0 ==> r == []
  {
    if |ts| == 0 then []
    else if |ts| == 1 then ts[0]
    else ts[0] + sep + Join(ts[1..], sep)
  }

  /** Imploding a token in front of a non-empty list puts one separator after it. */
  lemma JoinCons(t: string, ts: seq<string>, sep: string)
    requires ts != []
    ensures Join([t] + ts, sep) == t + sep + Join(ts, sep)
  {
    assert ([t] + ts)[1..] == ts;
  }

  /** The length of an implode: all the tokens plus one separator between each pair. */
  function TotalLength(ts: seq<string>): nat {
    if ts == [] then 0 else |ts[0]| + TotalLength(ts[1..])
  }

  lemma {:induction false} JoinLength(ts: seq<string>, sep: string)
    requires ts != []
    ensures |Join(ts, sep)| == TotalLength(ts) + (|ts| - 1) * |sep|
  {
    if |ts| > 1 {
      JoinLength(ts[1..], sep);
    }
  }
}
