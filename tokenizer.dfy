/**
 * The list tokeniser `stringToArray` (src/SimpleSortHooks.php): with an empty
 * separator the input loses all whitespace and falls apart into characters;
 * otherwise it is split on the literal separator, together with any
 * whitespace on either side of each occurrence.
 */
module Tokenizer {
  import opened Wrappers
  import opened Text
  import opened Pattern

  /**
   * `preg_split` of `s[start..]` on the pattern "whitespace, the quoted
   * separator, whitespace": the leftmost occurrence of `sep` is cut out
   * together with the whitespace run before it and the one after it, and
   * splitting resumes after that.
   */
  function SplitFrom(s: string, sep: string, start: nat): (r: seq<string>)
    requires sep != [] && start <= |s|
    ensures |r| >= 1
    decreases |s| - start
  {
    match FindFrom(s, sep, start)
    case None => [s[start..]]
    case Some(q) => [s[start..SpaceRunStart(s, start, q)]] + SplitFrom(s, sep, SpaceRunEnd(s, q + |sep|))
  }

  /** One step of the split, once the next separator is known (stated apart, it keeps the inductions below cheap). */
  lemma SplitStep(s: string, sep: string, start: nat, q: nat, b: nat, e: nat)
    requires sep != [] && start <= |s| && FindFrom(s, sep, start) == Some(q)
    requires b == SpaceRunStart(s, start, q) && e == SpaceRunEnd(s, q + |sep|)
    ensures SplitFrom(s, sep, start) == [s[start..b]] + SplitFrom(s, sep, e)
  {
  }

  /** `str_split(t)`: one single-character token per character ([""] for the empty string). */
  function Characters(t: string): (r: seq<string>)
    ensures |r| == if t == [] then 1 else |t|
    ensures forall i :: 0 <= i < |t| ==> r[i] == [t[i]]
    ensures Join(r, "") == t
  {
    if |t| <= 1 then [t]
    else
      var rest := Characters(t[1..]);
      assert t == [t[0]] + t[1..];
      [[t[0]]] + rest
  }

  /**
   * `stringToArray($inarray, $sep)`. A compiled pattern splits on the
   * literal separator with the whitespace around it; a separator holding
   * `/` makes `preg_split` return false.
   */
  function StringToArray(input: string, sep: string): (r: Option<seq<string>>)
    ensures r.None? <==> '/' in sep
    ensures r.Some? ==> |r.value| >= 1
  {
    SplitPatternCompiles(sep);
    if sep == [] then Some(Characters(RemoveSpaces(input)))
    else if Compiles(SplitPattern(sep, false)) then Some(SplitFrom(input, sep, 0))
    else None
  }

  /**
   * With an empty separator each token is one non-whitespace character of
   * the input, and the tokens, glued back together, are the input with its
   * whitespace removed.
   */
  lemma EmptySeparatorSplitsCharacters(input: string)
    ensures var r := StringToArray(input, "").value;
      && Join(r, "") == RemoveSpaces(input)
      && (RemoveSpaces(input) != [] ==> forall i :: 0 <= i < |r| ==> |r[i]| == 1 && !IsSpace(r[i][0]))
  {
  }

  /** No token contains the separator. */
  predicate NoSeparatorIn(r: seq<string>, sep: string) {
    forall i :: 0 <= i < |r| ==> Find(r[i], sep).None?
  }

  /** No token has whitespace on a side where a separator was cut out. */
  predicate SpacesCut(r: seq<string>) {
    && (forall i :: 0 <= i < |r| - 1 ==> r[i] == [] || !IsSpace(r[i][|r[i]| - 1]))
    && (forall i :: 0 < i < |r| ==> r[i] == [] || !IsSpace(r[i][0]))
  }

  /**
   * What splitting leaves in the tokens: no occurrence of the separator, and
   * no whitespace next to where a separator was cut out.
   */
  lemma {:induction false} SplitTokensClean(s: string, sep: string, start: nat)
    requires sep != [] && start <= |s|
    ensures var r := SplitFrom(s, sep, start);
      && |r[0]| <= |s| - start && r[0] == s[start..start + |r[0]|]
      && NoSeparatorIn(r, sep) && SpacesCut(r)
    decreases |s| - start, 1
  {
    match FindFrom(s, sep, start)
    case None =>
      NoSeparatorInside(s, sep, start, |s|);
    case Some(q) =>
      SplitTokensCleanStep(s, sep, start, q);
  }

  lemma {:induction false} SplitTokensCleanStep(s: string, sep: string, start: nat, q: nat)
    requires sep != [] && start <= |s| && FindFrom(s, sep, start) == Some(q)
    ensures var r := SplitFrom(s, sep, start);
      && |r[0]| <= |s| - start && r[0] == s[start..start + |r[0]|]
      && NoSeparatorIn(r, sep) && SpacesCut(r)
    decreases |s| - start, 0
  {
    var b := SpaceRunStart(s, start, q);
    var e := SpaceRunEnd(s, q + |sep|);
    SplitStep(s, sep, start, q, b, e);
    var token, tail := s[start..b], SplitFrom(s, sep, e);
    NoSeparatorInside(s, sep, start, b);
    TokenEndsClean(s, start, q);
    SplitTokensClean(s, sep, e);
    TailStartsClean(s, q + |sep|, tail[0]);
    ConsClean(token, tail, sep);
  }

  /** The token before a separator does not end with whitespace. */
  lemma TokenEndsClean(s: string, start: nat, q: nat)
    requires start <= q <= |s|
    ensures var token := s[start..SpaceRunStart(s, start, q)];
      token == [] || !IsSpace(token[|token| - 1])
  {
    var b := SpaceRunStart(s, start, q);
    SpaceRunStartSpec(s, start, q);
    if b > start {
      assert s[start..b][b - start - 1] == s[b - 1];
    }
  }

  /** A token that starts where a whitespace run ends does not start with whitespace. */
  lemma TailStartsClean(s: string, a: nat, t: string)
    requires a <= |s|
    requires var e := SpaceRunEnd(s, a); |t| <= |s| - e && t == s[e..e + |t|]
    ensures t == [] || !IsSpace(t[0])
  {
    var e := SpaceRunEnd(s, a);
    SpaceRunEndSpec(s, a);
    if t != [] {
      assert t[0] == s[e];
    }
  }

  /** What one split step cuts out: the whitespace run before the separator and the one after it. */
  datatype Cut = Cut(lead: string, trail: string)

  /** The text a cut stands for in the input. */
  function CutText(c: Cut, sep: string): string {
    c.lead + sep + c.trail
  }

  predicate AllSpace(s: string) {
    forall i :: 0 <= i < |s| ==> IsSpace(s[i])
  }

  /** The cuts `SplitFrom` makes, one between each pair of neighbouring tokens. */
  function Cuts(s: string, sep: string, start: nat): (r: seq<Cut>)
    requires sep != [] && start <= |s|
    ensures |r| + 1 == |SplitFrom(s, sep, start)|
    decreases |s| - start
  {
    match FindFrom(s, sep, start)
    case None => []
    case Some(q) =>
      var e := SpaceRunEnd(s, q + |sep|);
      [Cut(s[SpaceRunStart(s, start, q)..q], s[q + |sep|..e])] + Cuts(s, sep, e)
  }

  /** Tokens with the cuts put back between neighbours. */
  function Interleave(ts: seq<string>, cs: seq<Cut>, sep: string): string
    requires |ts| == |cs| + 1
    decreases |cs|
  {
    if cs == [] then ts[0] else ts[0] + CutText(cs[0], sep) + Interleave(ts[1..], cs[1..], sep)
  }

  /** Cuts made of whitespace around a separator that is the first one after the token before it. */
  predicate CutsAtSeparators(ts: seq<string>, cs: seq<Cut>, sep: string)
    requires |ts| == |cs| + 1
  {
    forall i :: 0 <= i < |cs| ==>
      && AllSpace(cs[i].lead) && AllSpace(cs[i].trail)
      && Find(ts[i] + cs[i].lead + sep, sep) == Some(|ts[i]| + |cs[i].lead|)
  }

  /**
   * What `preg_split` keeps and what it cuts out: the input is the tokens with,
   * between neighbours, a whitespace run, the separator and a whitespace run;
   * each separator cut out is the first occurrence after the token before it,
   * and the last token holds none.
   */
  lemma SplitFromCuts(s: string, sep: string, start: nat)
    requires sep != [] && start <= |s|
    ensures var r, cs := SplitFrom(s, sep, start), Cuts(s, sep, start);
      && Interleave(r, cs, sep) == s[start..]
      && CutsAtSeparators(r, cs, sep)
      && Find(r[|r| - 1], sep).None?
  {
    SplitFromRebuilds(s, sep, start);
    SplitFromCutsAt(s, sep, start);
    SplitTokensClean(s, sep, start);
  }

  /** The tokens with the cuts put back between them are the input. */
  lemma {:induction false} SplitFromRebuilds(s: string, sep: string, start: nat)
    requires sep != [] && start <= |s|
    ensures Interleave(SplitFrom(s, sep, start), Cuts(s, sep, start), sep) == s[start..]
    decreases |s| - start
  {
    match FindFrom(s, sep, start)
    case None =>
    case Some(q) =>
      var b, e := SpaceRunStart(s, start, q), SpaceRunEnd(s, q + |sep|);
      var c := Cut(s[b..q], s[q + |sep|..e]);
      SplitStep(s, sep, start, q, b, e);
      CutsStep(s, sep, start, q, b, e);
      FoundAt(s, sep, start, q);
      CutRebuilds(s, sep, start, q, b, e);
      SplitFromRebuilds(s, sep, e);
      InterleaveCons(s[start..b], c, SplitFrom(s, sep, e), Cuts(s, sep, e), sep);
  }

  /** Every cut is whitespace around the first separator after the token before it. */
  lemma {:induction false} SplitFromCutsAt(s: string, sep: string, start: nat)
    requires sep != [] && start <= |s|
    ensures CutsAtSeparators(SplitFrom(s, sep, start), Cuts(s, sep, start), sep)
    decreases |s| - start
  {
    match FindFrom(s, sep, start)
    case None =>
    case Some(q) =>
      var b, e := SpaceRunStart(s, start, q), SpaceRunEnd(s, q + |sep|);
      var c := Cut(s[b..q], s[q + |sep|..e]);
      SplitStep(s, sep, start, q, b, e);
      CutsStep(s, sep, start, q, b, e);
      CutSpaces(s, sep, start, q, b, e);
      CutLeftmost(s, sep, start, q, b, s[start..b], c.lead);
      SplitFromCutsAt(s, sep, e);
      CutsCons(s[start..b], c, SplitFrom(s, sep, e), Cuts(s, sep, e), sep);
  }

  /** One step of the cuts, once the next separator is known. */
  lemma CutsStep(s: string, sep: string, start: nat, q: nat, b: nat, e: nat)
    requires sep != [] && start <= |s| && FindFrom(s, sep, start) == Some(q)
    requires b == SpaceRunStart(s, start, q) && e == SpaceRunEnd(s, q + |sep|)
    ensures Cuts(s, sep, start) == [Cut(s[b..q], s[q + |sep|..e])] + Cuts(s, sep, e)
  {
  }

  lemma AllSpaceSlice(s: string, a: nat, b: nat)
    requires a <= b <= |s| && forall i :: a <= i < b ==> IsSpace(s[i])
    ensures AllSpace(s[a..b])
  {
    forall i | 0 <= i < b - a ensures IsSpace(s[a..b][i]) {
      assert s[a..b][i] == s[a + i];
    }
  }

  /** The text a step cuts out around the separator is whitespace. */
  lemma CutSpaces(s: string, sep: string, start: nat, q: nat, b: nat, e: nat)
    requires start <= q && q + |sep| <= |s|
    requires b == SpaceRunStart(s, start, q) && e == SpaceRunEnd(s, q + |sep|)
    ensures AllSpace(s[b..q]) && AllSpace(s[q + |sep|..e])
  {
    SpaceRunStartSpec(s, start, q);
    SpaceRunEndSpec(s, q + |sep|);
    AllSpaceSlice(s, b, q);
    AllSpaceSlice(s, q + |sep|, e);
  }

  /** The separator a step cuts out is the first one after the token. */
  lemma CutLeftmost(s: string, sep: string, start: nat, q: nat, b: nat, t: string, lead: string)
    requires start <= |s| && FindFrom(s, sep, start) == Some(q) && start <= b <= q
    requires t == s[start..b] && lead == s[b..q]
    ensures Find(t + lead + sep, sep) == Some(|t| + |lead|)
  {
    GapBeforeOccurrence(s, sep, start, q);
    assert s[start..b] + s[b..q] == s[start..q];
  }

  /** The token, the cut and the rest make up the input. */
  lemma CutRebuilds(s: string, sep: string, start: nat, q: nat, b: nat, e: nat)
    requires start <= b <= q && q + |sep| <= e <= |s| && s[q..q + |sep|] == sep
    ensures s[start..] == s[start..b] + CutText(Cut(s[b..q], s[q + |sep|..e]), sep) + s[e..]
  {
    var m := q + |sep|;
    var lead, trail, rest := s[b..q], s[m..e], s[e..];
    assert s[m..] == trail + rest;
    assert s[q..] == sep + (trail + rest) by {
      assert s[q..] == s[q..m] + s[m..];
    }
    assert s[b..] == lead + (sep + (trail + rest)) by {
      assert s[b..] == s[b..q] + s[q..];
    }
    assert s[start..] == s[start..b] + (lead + (sep + (trail + rest))) by {
      assert s[start..] == s[start..b] + s[b..];
    }
    RegroupCut(s[start..b], lead, sep, trail, rest);
  }

  /** The cut regrouped out of the input (stated apart, it keeps CutRebuilds cheap). */
  lemma RegroupCut(a: string, b: string, c: string, d: string, e: string)
    ensures a + (b + (c + (d + e))) == a + (b + c + d) + e
  {
  }

  /** A separator the search finds is there. */
  lemma FoundAt(s: string, sep: string, start: nat, q: nat)
    requires start <= |s| && FindFrom(s, sep, start) == Some(q)
    ensures s[q..q + |sep|] == sep
  {
    FindFromSpec(s, sep, start);
  }

  /** Putting a token and a cut that meet the conditions in front of tokens and cuts that meet them. */
  lemma CutsCons(t: string, c: Cut, ts: seq<string>, cs: seq<Cut>, sep: string)
    requires |ts| == |cs| + 1 && CutsAtSeparators(ts, cs, sep)
    requires AllSpace(c.lead) && AllSpace(c.trail) && Find(t + c.lead + sep, sep) == Some(|t| + |c.lead|)
    ensures CutsAtSeparators([t] + ts, [c] + cs, sep)
  {
    var ts', cs' := [t] + ts, [c] + cs;
    forall i | 0 <= i < |cs'|
      ensures && AllSpace(cs'[i].lead) && AllSpace(cs'[i].trail)
              && Find(ts'[i] + cs'[i].lead + sep, sep) == Some(|ts'[i]| + |cs'[i].lead|)
    {
      if i > 0 {
        assert cs'[i] == cs[i - 1] && ts'[i] == ts[i - 1];
      }
    }
  }

  /** Interleaving a token and a cut in front. */
  lemma InterleaveCons(t: string, c: Cut, ts: seq<string>, cs: seq<Cut>, sep: string)
    requires |ts| == |cs| + 1
    ensures Interleave([t] + ts, [c] + cs, sep) == t + CutText(c, sep) + Interleave(ts, cs, sep)
  {
    assert ([t] + ts)[1..] == ts && ([c] + cs)[1..] == cs;
  }

  /** A piece of `s` that ends before the next separator contains no separator. */
  lemma NoSeparatorInside(s: string, sep: string, start: nat, b: nat)
    requires sep != [] && start <= b <= |s|
    requires FindFrom(s, sep, start).Some? ==> b <= FindFrom(s, sep, start).value
    ensures Find(s[start..b], sep).None?
  {
    var token := s[start..b];
    FindFromSpec(s, sep, start);
    forall p | 0 <= p ensures !IsAt(token, sep, p) {
      if p + |sep| <= |token| {
        var x, y := token[p..p + |sep|], s[start + p..start + p + |sep|];
        forall j | 0 <= j < |sep| ensures x[j] == y[j] {
          assert token[p + j] == s[start + p + j];
        }
        assert x == y;
        assert !IsAt(s, sep, start + p);
      }
    }
  }

  /** Putting a clean token in front of clean tokens keeps them clean. */
  lemma ConsClean(token: string, tail: seq<string>, sep: string)
    requires tail != [] && Find(token, sep).None? && NoSeparatorIn(tail, sep) && SpacesCut(tail)
    requires token == [] || !IsSpace(token[|token| - 1])
    requires tail[0] == [] || !IsSpace(tail[0][0])
    ensures NoSeparatorIn([token] + tail, sep) && SpacesCut([token] + tail)
  {
    var r := [token] + tail;
    forall i | 0 < i < |r| ensures r[i] == tail[i - 1] {}
  }

  /** Skipping a run of whitespace loses no separator that starts with a non-space. */
  lemma OccurrencesSkipSpaces(s: string, sep: string, a: nat)
    requires sep != [] && !IsSpace(sep[0]) && a <= |s|
    ensures OccurrencesFrom(s, sep, a) == OccurrencesFrom(s, sep, SpaceRunEnd(s, a))
  {
    var b := SpaceRunEnd(s, a);
    SpaceRunEndSpec(s, a);
    forall p | a <= p < b ensures !IsAt(s, sep, p) {
      if p + |sep| <= |s| {
        assert s[p..p + |sep|][0] == s[p];
      }
    }
    FindFromSkip(s, sep, a, b);
  }

  /** The whitespace after the separator at `q` hides no further separator. */
  lemma OccurrencesAfterSeparator(s: string, sep: string, q: nat)
    requires sep != [] && !IsSpace(sep[0]) && q + |sep| <= |s|
    ensures OccurrencesFrom(s, sep, q + |sep|) == OccurrencesFrom(s, sep, SpaceRunEnd(s, q + |sep|))
  {
    OccurrencesSkipSpaces(s, sep, q + |sep|);
  }

  /**
   * For a separator that does not start with whitespace, the number of
   * tokens is one more than the number of occurrences of the separator.
   */
  lemma {:induction false} SplitCount(s: string, sep: string, start: nat)
    requires sep != [] && !IsSpace(sep[0]) && start <= |s|
    ensures |SplitFrom(s, sep, start)| == OccurrencesFrom(s, sep, start) + 1
    decreases |s| - start, 1
  {
    match FindFrom(s, sep, start)
    case None =>
    case Some(q) => SplitCountStep(s, sep, start, q);
  }

  lemma {:induction false} SplitCountStep(s: string, sep: string, start: nat, q: nat)
    requires sep != [] && !IsSpace(sep[0]) && start <= |s| && FindFrom(s, sep, start) == Some(q)
    ensures |SplitFrom(s, sep, start)| == OccurrencesFrom(s, sep, start) + 1
    decreases |s| - start, 0
  {
    var e := SpaceRunEnd(s, q + |sep|);
    assert OccurrencesFrom(s, sep, start) == 1 + OccurrencesFrom(s, sep, e) by {
      OccurrencesAfterSeparator(s, sep, q);
    }
    SplitCount(s, sep, e);
  }

  /**
   * A token that splitting can give back: no whitespace at either end, and
   * no occurrence of the separator that starts inside the token when the
   * separator follows it (which rules out, e.g., "a" before the separator "aa").
   */
  predicate Splittable(t: string, sep: string) {
    && (t == [] || (!IsSpace(t[0]) && !IsSpace(t[|t| - 1])))
    && forall p :: 0 <= p < |t| ==> !IsAt(t + sep, sep, p)
  }

  lemma SliceShift(s: string, k: nat, a: nat, b: nat)
    requires k <= |s| && a <= b <= |s| - k
    ensures s[k..][a..b] == s[k + a..k + b]
  {
  }

  lemma SliceOfLeft(x: string, y: string, a: nat, b: nat)
    requires a <= b <= |x|
    ensures (x + y)[a..b] == x[a..b]
  {
  }

  lemma NoEarlySeparator(t: string, sep: string, p: nat)
    requires Splittable(t, sep) && p < |t|
    ensures !IsAt(t + sep, sep, p)
  {
  }

  /** A joined list starts with its first token's first character, or with the separator. */
  lemma {:induction false} JoinStartsClean(ts: seq<string>, sep: string)
    requires ts != [] && sep != [] && !HasSpace(sep) && Splittable(ts[0], sep)
    ensures Join(ts, sep) == [] || !IsSpace(Join(ts, sep)[0])
  {
    if |ts| > 1 {
      var j := Join(ts, sep);
      if ts[0] == [] {
        assert j == sep + Join(ts[1..], sep);
        assert j[0] == sep[0];
      } else {
        assert j[0] == ts[0][0];
      }
    }
  }

  /** In `s[k..] == t + sep + rest`, the separator after a splittable `t` is the next one. */
  lemma NextSeparatorAfter(s: string, sep: string, k: nat, t: string, rest: string, q: nat)
    requires sep != [] && Splittable(t, sep)
    requires k <= |s| && s[k..] == t + sep + rest && q == k + |t|
    ensures FindFrom(s, sep, k) == Some(q)
  {
    NoSeparatorBefore(s, sep, k, t, rest);
    SeparatorAt(s, sep, k, t, rest);
    FindFromSkip(s, sep, k, q);
  }

  lemma NoSeparatorBefore(s: string, sep: string, k: nat, t: string, rest: string)
    requires sep != [] && Splittable(t, sep)
    requires k <= |s| && s[k..] == t + sep + rest
    ensures forall p :: k <= p < k + |t| ==> !IsAt(s, sep, p)
  {
    assert |s| == k + |t| + |sep| + |rest|;
    forall p | k <= p < k + |t| ensures !IsAt(s, sep, p) {
      SliceShift(s, k, p - k, p - k + |sep|);
      assert s[k..] == (t + sep) + rest;
      SliceOfLeft(t + sep, rest, p - k, p - k + |sep|);
      NoEarlySeparator(t, sep, p - k);
    }
  }

  lemma SeparatorAt(s: string, sep: string, k: nat, t: string, rest: string)
    requires sep != []
    requires k <= |s| && s[k..] == t + sep + rest
    ensures k + |t| <= |s| && FindFrom(s, sep, k + |t|) == Some(k + |t|)
  {
    assert |s| == k + |t| + |sep| + |rest|;
    SliceShift(s, k, |t|, |t| + |sep|);
    assert s[k..] == (t + sep) + rest;
    SliceOfLeft(t + sep, rest, |t|, |t| + |sep|);
    assert (t + sep)[|t|..|t| + |sep|] == sep;
  }

  /** In `s[k..] == t`, a splittable `t` holds no separator. */
  lemma NoSeparatorAfter(s: string, sep: string, k: nat, t: string)
    requires sep != [] && Splittable(t, sep)
    requires k <= |s| && s[k..] == t
    ensures FindFrom(s, sep, k).None?
  {
    FindFromSpec(s, sep, k);
    assert |s| == k + |t|;
    forall p | k <= p ensures !IsAt(s, sep, p) {
      if p + |sep| <= |s| {
        SliceShift(s, k, p - k, p - k + |sep|);
        SliceOfLeft(t, sep, p - k, p - k + |sep|);
        NoEarlySeparator(t, sep, p - k);
      }
    }
  }

  /** Around a separator that sits between clean tokens there is no whitespace to cut. */
  lemma NoSpacesAround(s: string, sep: string, k: nat, t: string, rest: string, q: nat, e: nat)
    requires sep != [] && Splittable(t, sep)
    requires rest == [] || !IsSpace(rest[0])
    requires k <= |s| && s[k..] == t + sep + rest && q == k + |t| && e == q + |sep|
    ensures q <= e <= |s|
    ensures SpaceRunStart(s, k, q) == q && SpaceRunEnd(s, e) == e
    ensures s[k..q] == t && s[e..] == rest
  {
    assert s[k..][..|t|] == t;
    assert s[k..][|t| + |sep|..] == rest;
    if |t| > 0 {
      assert s[q - 1] == t[|t| - 1];
    }
    if q + |sep| < |s| {
      assert s[q + |sep|] == rest[0];
    }
  }

  /** Every token of `ts` is splittable, stated one token at a time. */
  predicate AllSplittable(ts: seq<string>, sep: string)
    decreases |ts|
  {
    ts == [] || (Splittable(ts[0], sep) && AllSplittable(ts[1..], sep))
  }

  lemma {:induction false} AllSplittableIntro(ts: seq<string>, sep: string)
    requires forall i :: 0 <= i < |ts| ==> Splittable(ts[i], sep)
    ensures AllSplittable(ts, sep)
    decreases |ts|
  {
    if ts != [] {
      assert forall i :: 0 <= i < |ts[1..]| ==> ts[1..][i] == ts[i + 1];
      AllSplittableIntro(ts[1..], sep);
    }
  }

  /** Splitting resumed at `k`, where the join of `ts` starts, gives back `ts`. */
  lemma {:induction false} SplitJoinFrom(s: string, sep: string, k: nat, ts: seq<string>)
    requires ts != [] && sep != [] && !HasSpace(sep) && AllSplittable(ts, sep)
    requires k <= |s| && s[k..] == Join(ts, sep)
    ensures SplitFrom(s, sep, k) == ts
    decreases |ts|, 1
  {
    if |ts| == 1 {
      NoSeparatorAfter(s, sep, k, ts[0]);
    } else {
      var t, tail := ts[0], ts[1..];
      assert ts == [t] + tail;
      SplitJoinStep(s, sep, k, t, tail);
    }
  }

  /** One step of the round trip: the first token, then the rest of the join. */
  lemma {:induction false} SplitJoinStep(s: string, sep: string, k: nat, t: string, tail: seq<string>)
    requires tail != [] && sep != [] && !HasSpace(sep) && Splittable(t, sep) && AllSplittable(tail, sep)
    requires k <= |s| && s[k..] == t + sep + Join(tail, sep)
    ensures SplitFrom(s, sep, k) == [t] + tail
    decreases |tail| + 1, 0
  {
    var rest := Join(tail, sep);
    var e := k + |t| + |sep|;
    JoinStartsClean(tail, sep);
    SeparatorBetween(s, sep, k, t, rest, e);
    SplitJoinFrom(s, sep, e, tail);
  }

  /** A separator between a splittable token and a clean rest is cut out on its own, leaving the token. */
  lemma SeparatorBetween(s: string, sep: string, k: nat, t: string, rest: string, e: nat)
    requires sep != [] && Splittable(t, sep)
    requires rest == [] || !IsSpace(rest[0])
    requires k <= |s| && s[k..] == t + sep + rest && e == k + |t| + |sep|
    ensures e <= |s| && s[e..] == rest
    ensures SplitFrom(s, sep, k) == [t] + SplitFrom(s, sep, e)
  {
    var q := k + |t|;
    NextSeparatorAfter(s, sep, k, t, rest, q);
    NoSpacesAround(s, sep, k, t, rest, q, e);
    SplitStepClean(s, sep, k, q, e);
  }

  /** A split step at a separator with no whitespace around it cuts out just the separator. */
  lemma SplitStepClean(s: string, sep: string, k: nat, q: nat, e: nat)
    requires sep != [] && k <= |s| && FindFrom(s, sep, k) == Some(q) && e == q + |sep|
    requires SpaceRunStart(s, k, q) == q && SpaceRunEnd(s, e) == e
    ensures SplitFrom(s, sep, k) == [s[k..q]] + SplitFrom(s, sep, e)
  {
    SplitStep(s, sep, k, q, q, e);
  }

  /**
   * Round trip: for a separator without whitespace, splitting the join of a
   * non-empty list of splittable tokens gives the tokens back.
   */
  lemma SplitJoin(ts: seq<string>, sep: string)
    requires ts != [] && sep != [] && !HasSpace(sep)
    requires forall i :: 0 <= i < |ts| ==> Splittable(ts[i], sep)
    ensures SplitFrom(Join(ts, sep), sep, 0) == ts
  {
    var s := Join(ts, sep);
    assert s[0..] == s;
    AllSplittableIntro(ts, sep);
    SplitJoinFrom(s, sep, 0, ts);
  }
}
