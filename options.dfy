/**
 * The option string of `{{#simplesort:}}` (src/SimpleSortHooks.php): the
 * quoted `insep="…"` and `outsep="…"` settings are cut out first, the rest is
 * split on whitespace into at most six pieces, and each piece must be one of
 * six keywords.
 */
module SortOptions {
  import opened Wrappers
  import opened Text

  /** Which comparison the sort uses: SORT_NATURAL, SORT_STRING or SORT_NUMERIC. */
  datatype OrderMode = Natural | Alphabetic | Numeric

  datatype Options = Options(
    ascending: bool,
    mode: OrderMode,
    caseSensitive: bool,
    keyed: bool,
    stopOnBlank: bool,
    inSep: string,
    outSep: string)

  /** The settings before any option is read: natural, case-insensitive, ascending, "," both ways. */
  const Defaults := Options(true, Natural, false, false, false, ",", ",")

  const InSepKey := "insep=\""
  const OutSepKey := "outsep=\""

  /** What `preg_match('/key([^"]*)"/', …)` captures: the whole match and the quoted value. */
  datatype QuotedMatch = QuotedMatch(whole: string, value: string)

  /**
   * The leftmost match of `key`, then any run of non-quote characters, then
   * a quote. Since `key` ends with a quote, a later occurrence of `key`
   * would supply a closing quote for the first one, so the leftmost
   * occurrence of `key` either matches or nothing does.
   */
  function MatchQuoted(s: string, key: string): (r: Option<QuotedMatch>)
    requires key != [] && key[|key| - 1] == '"'
    ensures r.Some? ==> r.value.whole == key + r.value.value + "\""
    ensures r.Some? ==> '"' !in r.value.value
    ensures r.Some? ==> Find(s, key).Some? && IsAt(s, r.value.whole, Find(s, key).value)
    ensures r.None? <==> forall p :: IsAt(s, key, p) ==> QuoteFree(s, p + |key|)
  {
    match Find(s, key)
    case None => None
    case Some(p) =>
      match FindFrom(s, "\"", p + |key|)
      case None => NoClosingQuote(s, key, p); None
      case Some(c) => ClosingQuote(s, key, p, c); Some(QuotedMatch(s[p..c + 1], s[p + |key|..c]))
  }

  lemma ClosingQuote(s: string, key: string, p: nat, c: nat)
    requires IsAt(s, key, p) && FindFrom(s, "\"", p + |key|) == Some(c)
    ensures s[p..c + 1] == key + s[p + |key|..c] + "\""
    ensures '"' !in s[p + |key|..c]
    ensures IsAt(s, s[p..c + 1], p)
    ensures !QuoteFree(s, p + |key|)
  {
    FoundQuote(s, p + |key|, c);
    assert s[p..p + |key|] == key;
    assert s[p..c + 1] == s[p..p + |key|] + s[p + |key|..c] + s[c..c + 1];
  }

  /** The quote a search finds, with none before it. */
  lemma FoundQuote(s: string, from: nat, c: nat)
    requires from <= |s| && FindFrom(s, "\"", from) == Some(c)
    ensures c < |s| && s[c..c + 1] == "\"" && s[c] == '"'
    ensures forall i :: from <= i < c ==> s[i] != '"'
  {
    FindFromSpec(s, "\"", from);
    forall i | from <= i < c ensures s[i] != '"' {
      assert !IsAt(s, "\"", i);
      assert s[i..i + 1] == [s[i]];
    }
    assert s[c..c + 1] == "\"";
    assert s[c] == s[c..c + 1][0];
  }

  /** No quote character at or after position `from`. */
  predicate QuoteFree(s: string, from: nat) {
    forall i :: from <= i < |s| ==> s[i] != '"'
  }

  lemma NoClosingQuote(s: string, key: string, p: nat)
    requires key != [] && key[|key| - 1] == '"'
    requires Find(s, key) == Some(p) && FindFrom(s, "\"", p + |key|).None?
    ensures forall p' :: IsAt(s, key, p') ==> QuoteFree(s, p' + |key|)
  {
    NoQuoteFrom(s, p + |key|);
    forall p' | IsAt(s, key, p') ensures QuoteFree(s, p' + |key|) {
      assert p <= p';
    }
  }

  lemma NoQuoteFrom(s: string, from: nat)
    requires from <= |s| && FindFrom(s, "\"", from).None?
    ensures QuoteFree(s, from)
  {
    FindFromSpec(s, "\"", from);
    forall i | from <= i < |s| ensures s[i] != '"' {
      assert !IsAt(s, "\"", i);
      assert s[i..i + 1] == [s[i]];
    }
  }

  /** `str_replace(pat, "", s[from..])`: every occurrence found left to right is deleted. */
  function RemoveFrom(s: string, pat: string, from: nat): (r: string)
    requires pat != [] && from <= |s|
    ensures |r| <= |s| - from
    decreases |s| - from
  {
    match FindFrom(s, pat, from)
    case None => s[from..]
    case Some(q) => s[from..q] + RemoveFrom(s, pat, q + |pat|)
  }

  /**
   * The stretches of `s[from..]` that `str_replace` keeps: the text before
   * each occurrence it deletes, and the text after the last one.
   */
  function Gaps(s: string, pat: string, from: nat): (r: seq<string>)
    requires pat != [] && from <= |s|
    ensures |r| == OccurrencesFrom(s, pat, from) + 1
    decreases |s| - from
  {
    match FindFrom(s, pat, from)
    case None => [s[from..]]
    case Some(q) => [s[from..q]] + Gaps(s, pat, q + |pat|)
  }

  /**
   * What `str_replace(pat, "", …)` keeps: the input is its gaps joined by
   * `pat`, the result is the same gaps joined by nothing, each deleted copy
   * of `pat` is the first occurrence after the gap before it, and no
   * occurrence is left in the last gap.
   */
  lemma RemoveFromGaps(s: string, pat: string, from: nat)
    requires pat != [] && from <= |s|
    ensures var g := Gaps(s, pat, from);
      && Join(g, pat) == s[from..]
      && RemoveFrom(s, pat, from) == Join(g, "")
      && (forall i :: 0 <= i < |g| - 1 ==> Find(g[i] + pat, pat) == Some(|g[i]|))
      && Find(g[|g| - 1], pat).None?
  {
    GapsJoin(s, pat, from);
    GapsRemoved(s, pat, from);
    GapsLeftmost(s, pat, from);
  }

  /** The result is shorter by the length of `pat` once per occurrence deleted. */
  lemma RemoveFromLength(s: string, pat: string, from: nat)
    requires pat != [] && from <= |s|
    ensures |RemoveFrom(s, pat, from)| + |pat| * OccurrencesFrom(s, pat, from) == |s| - from
  {
    var g := Gaps(s, pat, from);
    var n := OccurrencesFrom(s, pat, from);
    GapsJoin(s, pat, from);
    GapsRemoved(s, pat, from);
    JoinLength(g, pat);
    JoinLength(g, "");
    assert (|g| - 1) * |""| == 0;
    assert (|g| - 1) * |pat| == |pat| * n;
  }

  lemma {:induction false} GapsJoin(s: string, pat: string, from: nat)
    requires pat != [] && from <= |s|
    ensures Join(Gaps(s, pat, from), pat) == s[from..]
    decreases |s| - from
  {
    match FindFrom(s, pat, from)
    case None =>
    case Some(q) =>
      FindFromSpec(s, pat, from);
      var next := q + |pat|;
      GapsJoin(s, pat, next);
      JoinCons(s[from..q], Gaps(s, pat, next), pat);
      assert s[q..next] == pat;
      assert s[from..] == s[from..q] + s[q..next] + s[next..];
  }

  lemma {:induction false} GapsRemoved(s: string, pat: string, from: nat)
    requires pat != [] && from <= |s|
    ensures RemoveFrom(s, pat, from) == Join(Gaps(s, pat, from), "")
    decreases |s| - from
  {
    match FindFrom(s, pat, from)
    case None =>
      assert RemoveFrom(s, pat, from) == s[from..];
      assert Gaps(s, pat, from) == [s[from..]];
    case Some(q) =>
      var next := q + |pat|;
      GapsRemoved(s, pat, next);
      JoinCons(s[from..q], Gaps(s, pat, next), "");
      assert s[from..q] + "" == s[from..q];
  }

  lemma {:induction false} GapsLeftmost(s: string, pat: string, from: nat)
    requires pat != [] && from <= |s|
    ensures var g := Gaps(s, pat, from);
      && (forall i :: 0 <= i < |g| - 1 ==> Find(g[i] + pat, pat) == Some(|g[i]|))
      && Find(g[|g| - 1], pat).None?
    decreases |s| - from
  {
    match FindFrom(s, pat, from)
    case None =>
      NoOccurrenceAfter(s, pat, from);
    case Some(q) =>
      var next := q + |pat|;
      assert Gaps(s, pat, from) == [s[from..q]] + Gaps(s, pat, next);
      GapsLeftmost(s, pat, next);
      GapBeforeOccurrence(s, pat, from, q);
      LeftmostCons(s[from..q], Gaps(s, pat, next), pat);
  }

  /** A search that finds nothing from `from` on finds nothing in `s[from..]`. */
  lemma NoOccurrenceAfter(s: string, pat: string, from: nat)
    requires from <= |s| && FindFrom(s, pat, from).None?
    ensures Find(s[from..], pat).None?
  {
    FindFromSpec(s, pat, from);
    forall p | IsAt(s[from..], pat, p) ensures false {
      assert s[from..] == s[from..|s|];
      IsAtSlice(s, from, |s|, pat, p);
    }
  }

  /** Putting a gap whose occurrence comes right after it in front of a list of gaps. */
  lemma LeftmostCons(h: string, tail: seq<string>, pat: string)
    requires tail != [] && Find(h + pat, pat) == Some(|h|)
    requires forall i :: 0 <= i < |tail| - 1 ==> Find(tail[i] + pat, pat) == Some(|tail[i]|)
    requires Find(tail[|tail| - 1], pat).None?
    ensures var g := [h] + tail;
      && (forall i :: 0 <= i < |g| - 1 ==> Find(g[i] + pat, pat) == Some(|g[i]|))
      && Find(g[|g| - 1], pat).None?
  {
    var g := [h] + tail;
    forall i | 0 <= i < |g| - 1 ensures Find(g[i] + pat, pat) == Some(|g[i]|) {
      if i > 0 {
        assert g[i] == tail[i - 1];
      }
    }
    assert g[|g| - 1] == tail[|tail| - 1];
  }

  /**
   * One quoted setting: its value (or `default` when it is absent) and the
   * option string with every copy of the matched text removed, which leaves
   * the gaps between those copies.
   */
  function CutSetting(s: string, key: string, default: string): (r: (string, string))
    requires key != [] && key[|key| - 1] == '"'
    ensures MatchQuoted(s, key).None? ==> r == (default, s)
    ensures MatchQuoted(s, key).Some? ==>
      var whole := MatchQuoted(s, key).value.whole;
      && r.0 == MatchQuoted(s, key).value.value
      && r.1 == Join(Gaps(s, whole, 0), "")
      && |r.1| + |whole| * OccurrencesFrom(s, whole, 0) == |s|
  {
    match MatchQuoted(s, key)
    case Some(m) =>
      GapsRemoved(s, m.whole, 0);
      RemoveFromLength(s, m.whole, 0);
      (m.value, RemoveFrom(s, m.whole, 0))
    case None => (default, s)
  }

  /** The separators the option string sets, and what is left of it once they are cut out. */
  datatype Extracted = Extracted(inSep: string, outSep: string, rest: string)

  /**
   * `insep` is cut out first and defaults to ","; `outsep` is looked for in
   * what remains and defaults to `insep`, whatever that is.
   */
  function ExtractSeparators(options: string): (r: Extracted)
    ensures (forall p :: IsAt(options, InSepKey, p) ==> QuoteFree(options, p + |InSepKey|)) ==> r.inSep == ","
    ensures MatchQuoted(options, InSepKey).Some? ==> r.inSep == MatchQuoted(options, InSepKey).value.value
    ensures var afterIn := CutSetting(options, InSepKey, ",").1;
      && ((forall p :: IsAt(afterIn, OutSepKey, p) ==> QuoteFree(afterIn, p + |OutSepKey|)) ==> r.outSep == r.inSep)
      && (MatchQuoted(afterIn, OutSepKey).Some? ==> r.outSep == MatchQuoted(afterIn, OutSepKey).value.value)
  {
    var (inSep, afterIn) := CutSetting(options, InSepKey, ",");
    var (outSep, rest) := CutSetting(afterIn, OutSepKey, inSep);
    Extracted(inSep, outSep, rest)
  }

  /**
   * `preg_split("/[\s]+/", s[from..], limit)`: split on runs of whitespace
   * into at most `limit` pieces, the last one holding the unsplit remainder.
   */
  function SplitSpaces(s: string, from: nat, limit: nat): (r: seq<string>)
    requires from <= |s| && limit >= 1
    ensures 1 <= |r| <= limit
    decreases limit
  {
    if limit == 1 then [s[from..]]
    else match FirstSpace(s, from)
      case None => [s[from..]]
      case Some(q) => [s[from..q]] + SplitSpaces(s, SpaceRunEnd(s, q), limit - 1)
  }

  /** The whitespace-separated words of `s[from..]`: its maximal non-empty runs without whitespace. */
  function Words(s: string, from: nat): seq<string>
    requires from <= |s|
    decreases |s| - from
  {
    match FirstSpace(s, from)
    case None => if from == |s| then [] else [s[from..]]
    case Some(q) => (if q == from then [] else [s[from..q]]) + Words(s, SpaceRunEnd(s, q))
  }

  /** Text that starts with a non-whitespace character has a first word. */
  lemma WordsNonEmpty(s: string, from: nat)
    requires from < |s| && !IsSpace(s[from])
    ensures Words(s, from) != []
  {
  }

  /**
   * Splitting text that neither starts nor ends with whitespace, into no
   * fewer pieces than it has words, gives exactly its words (one empty piece
   * for empty text).
   */
  lemma {:induction false} SplitSpacesWords(s: string, from: nat, limit: nat)
    requires from <= |s| && limit >= 1 && |Words(s, from)| <= limit
    requires from == |s| || (!IsSpace(s[from]) && !IsSpace(s[|s| - 1]))
    ensures SplitSpaces(s, from, limit) == if from == |s| then [""] else Words(s, from)
    decreases limit
  {
    if from == |s| {
      assert s[from..] == "";
    } else {
      match FirstSpace(s, from)
      case None =>
        assert Words(s, from) == [s[from..]];
      case Some(q) =>
        var e := SpaceRunEnd(s, q);
        SpaceRunEndSpec(s, q);
        assert q < e < |s| && !IsSpace(s[e]);
        assert Words(s, from) == [s[from..q]] + Words(s, e);
        WordsNonEmpty(s, e);
        SplitSpacesWords(s, e, limit - 1);
    }
  }

  /** The option pieces the loop of renderSort inspects. */
  function Pieces(rest: string): (r: seq<string>)
    ensures 1 <= |r| <= 6
  {
    SplitSpaces(Trim(rest), 0, 6)
  }

  /** The ways renderSort's loop can read one option piece. */
  datatype Word = Desc | Alpha | Num | Case | Keyed | StopOnBlank | Blank | Unknown

  /** The six option keywords. */
  const Keywords: set<string> := {"desc", "alpha", "num", "case", "keyed", "stoponblank"}

  /** A piece is blank when empty and unknown when neither empty nor a keyword; no keyword holds whitespace. */
  function Classify(w: string): (r: Word)
    ensures r == Blank <==> w == []
    ensures r == Unknown <==> w != [] && w !in Keywords
    ensures HasSpace(w) ==> r == Unknown
  {
    if w == "desc" then Desc
    else if w == "alpha" then Alpha
    else if w == "num" then Num
    else if w == "case" then Case
    else if w == "keyed" then Keyed
    else if w == "stoponblank" then StopOnBlank
    else if w == "" then Blank
    else Unknown
  }

  /** A piece that stops the render with an error: neither empty nor a keyword. */
  predicate IsBad(w: string) {
    Classify(w) == Unknown
  }

  /** The effect of one option piece: a bad piece is the error. */
  function ApplyWord(o: Options, w: string): (r: Result<Options>)
    ensures r.Err? <==> IsBad(w)
    ensures r.Err? ==> r.error == w
  {
    match Classify(w)
    case Desc => Ok(o.(ascending := false))
    case Alpha => Ok(o.(mode := Alphabetic))
    case Num => Ok(o.(mode := Numeric))
    case Case => Ok(o.(caseSensitive := true))
    case Keyed => Ok(o.(keyed := true))
    case StopOnBlank => Ok(o.(stopOnBlank := true))
    case Blank => Ok(o)
    case Unknown => Err(w)
  }

  /** The option pieces applied left to right, stopping at the first bad one. */
  function ApplyWords(o: Options, ws: seq<string>): (r: Result<Options>)
    ensures r.Err? ==> r.error in ws && IsBad(r.error)
    decreases |ws|
  {
    if ws == [] then Ok(o)
    else match ApplyWord(o, ws[0])
      case Err(w) => Err(w)
      case Ok(o') => ApplyWords(o', ws[1..])
  }

  /**
   * The meaning of the option string, as a function: it is rejected exactly
   * when one of its pieces is bad, the error is the first bad piece, and accepted
   * options keep the extracted separators.
   */
  function Parse(options: string): (r: Result<Options>)
    ensures var ps := Pieces(ExtractSeparators(options).rest);
      r.Err? <==> exists i :: 0 <= i < |ps| && IsBad(ps[i])
    ensures var ps := Pieces(ExtractSeparators(options).rest);
      r.Err? ==> exists i :: && 0 <= i < |ps| && ps[i] == r.error && IsBad(ps[i])
                             && (forall j :: 0 <= j < i ==> !IsBad(ps[j]))
    ensures r.Err? ==> IsBad(r.error)
    ensures r.Ok? ==>
      r.value.inSep == ExtractSeparators(options).inSep && r.value.outSep == ExtractSeparators(options).outSep
  {
    var e := ExtractSeparators(options);
    var start, ps := Defaults.(inSep := e.inSep, outSep := e.outSep), Pieces(e.rest);
    var r := ApplyWords(start, ps);
    ApplyWordsError(start, ps);
    if r.Ok? then ApplyWordsSettings(start, ps); r else r
  }

  /** The settings held by renderSort's flag variables. */
  function FromFlags(asc: bool, natural: bool, alpha: bool, cs: bool, keyed: bool, stopOnBlank: bool,
                     inSep: string, outSep: string): Options
  {
    Options(asc, if natural then Natural else if alpha then Alphabetic else Numeric,
            cs, keyed, stopOnBlank, inSep, outSep)
  }

  /**
   * The option-reading part of renderSort: the separators are extracted, then
   * the flag variables are overwritten piece by piece, and an unknown piece
   * ends the call with an error naming it.
   */
  method ParseOptions(options: string) returns (r: Result<Options>)
    ensures r == Parse(options)
  {
    var asc, natural, alpha, cs, keyed, stopOnBlank := true, true, true, false, false, false;
    var e := ExtractSeparators(options);
    var insep, outsep := e.inSep, e.outSep;
    var pieces := Pieces(e.rest);
    ghost var start := Defaults.(inSep := insep, outSep := outsep);
    assert Parse(options) == ApplyWords(start, pieces);
    for i := 0 to |pieces|
      invariant ApplyWords(start, pieces)
        == ApplyWords(FromFlags(asc, natural, alpha, cs, keyed, stopOnBlank, insep, outsep), pieces[i..])
    {
      var piece := pieces[i];
      ghost var before := FromFlags(asc, natural, alpha, cs, keyed, stopOnBlank, insep, outsep);
      assert pieces[i..][0] == piece && pieces[i..][1..] == pieces[i + 1..];
      match Classify(piece) {
        case Desc =>
          asc := false;
        case Alpha =>
          alpha := true;
          natural := false;
        case Num =>
          alpha := false;
          natural := false;
        case Case =>
          cs := true;
        case Keyed =>
          keyed := true;
        case StopOnBlank =>
          stopOnBlank := true;
        case Blank =>
        case Unknown =>
          return Err(piece);
      }
      ghost var after := FromFlags(asc, natural, alpha, cs, keyed, stopOnBlank, insep, outsep);
      assert ApplyWord(before, piece) == Ok(after);
      assert ApplyWords(before, pieces[i..]) == ApplyWords(after, pieces[i + 1..]);
    }
    assert pieces[|pieces|..] == [];
    r := Ok(FromFlags(asc, natural, alpha, cs, keyed, stopOnBlank, insep, outsep));
  }

  /** An option string is rejected exactly when one of its pieces is bad, and the error names the first bad piece. */
  lemma {:induction false} ApplyWordsError(o: Options, ws: seq<string>)
    ensures ApplyWords(o, ws).Err? <==> exists i :: 0 <= i < |ws| && IsBad(ws[i])
    ensures ApplyWords(o, ws).Err? ==>
      exists i :: 0 <= i < |ws| && ws[i] == ApplyWords(o, ws).error && IsBad(ws[i])
        && forall j :: 0 <= j < i ==> !IsBad(ws[j])
    decreases |ws|
  {
    if ws != [] {
      if IsBad(ws[0]) {
        assert ApplyWord(o, ws[0]) == Err(ws[0]);
      } else {
        var o' := ApplyWord(o, ws[0]).value;
        ApplyWordsError(o', ws[1..]);
        forall i | 1 <= i < |ws| ensures ws[i] == ws[1..][i - 1] {
        }
        if ApplyWords(o', ws[1..]).Err? {
          var k :| 0 <= k < |ws[1..]| && ws[1..][k] == ApplyWords(o', ws[1..]).error && IsBad(ws[1..][k])
            && forall j :: 0 <= j < k ==> !IsBad(ws[1..][j]);
          assert ws[k + 1] == ws[1..][k];
        }
      }
    }
  }

  /** Some piece of `ws` reads as `k`. */
  predicate Mentions(ws: seq<string>, k: Word) {
    exists i :: 0 <= i < |ws| && Classify(ws[i]) == k
  }

  /**
   * What a successful option list sets: `desc`, `case`, `keyed` and
   * `stoponblank` each switch their setting on, of `alpha` and `num` the last
   * one wins, and the separators are left alone.
   */
  lemma {:induction false} ApplyWordsSettings(o: Options, ws: seq<string>)
    requires ApplyWords(o, ws).Ok?
    ensures ApplyWords(o, ws).value.ascending == (o.ascending && !Mentions(ws, Desc))
    ensures ApplyWords(o, ws).value.caseSensitive == (o.caseSensitive || Mentions(ws, Case))
    ensures ApplyWords(o, ws).value.keyed == (o.keyed || Mentions(ws, Keyed))
    ensures ApplyWords(o, ws).value.stopOnBlank == (o.stopOnBlank || Mentions(ws, StopOnBlank))
    ensures ApplyWords(o, ws).value.inSep == o.inSep && ApplyWords(o, ws).value.outSep == o.outSep
    ensures !Mentions(ws, Alpha) && !Mentions(ws, Num) ==> ApplyWords(o, ws).value.mode == o.mode
    ensures forall i :: 0 <= i < |ws| && Classify(ws[i]) == Alpha && !Mentions(ws[i + 1..], Num) ==>
      ApplyWords(o, ws).value.mode == Alphabetic
    ensures forall i :: 0 <= i < |ws| && Classify(ws[i]) == Num && !Mentions(ws[i + 1..], Alpha) ==>
      ApplyWords(o, ws).value.mode == Numeric
    decreases |ws|
  {
    if ws != [] {
      var w, tail := ws[0], ws[1..];
      var o' := ApplyWord(o, w).value;
      ApplyWordSettings(o, w);
      ApplyWordsSettings(o', tail);
      MentionsCons(ws);
      var r := ApplyWords(o, ws).value;
      assert r == ApplyWords(o', tail).value;
      forall i | 0 <= i < |ws| && Classify(ws[i]) == Alpha && !Mentions(ws[i + 1..], Num)
        ensures r.mode == Alphabetic
      {
        ModeWitness(ws, i, Num);
      }
      forall i | 0 <= i < |ws| && Classify(ws[i]) == Num && !Mentions(ws[i + 1..], Alpha)
        ensures r.mode == Numeric
      {
        ModeWitness(ws, i, Alpha);
      }
    }
  }

  lemma ApplyWordSettings(o: Options, w: string)
    requires ApplyWord(o, w).Ok?
    ensures ApplyWord(o, w).value.ascending == (o.ascending && Classify(w) != Desc)
    ensures ApplyWord(o, w).value.caseSensitive == (o.caseSensitive || Classify(w) == Case)
    ensures ApplyWord(o, w).value.keyed == (o.keyed || Classify(w) == Keyed)
    ensures ApplyWord(o, w).value.stopOnBlank == (o.stopOnBlank || Classify(w) == StopOnBlank)
    ensures ApplyWord(o, w).value.inSep == o.inSep && ApplyWord(o, w).value.outSep == o.outSep
    ensures ApplyWord(o, w).value.mode
      == match Classify(w) case Alpha => Alphabetic case Num => Numeric case _ => o.mode
  {
  }

  lemma MentionsCons(ws: seq<string>)
    requires ws != []
    ensures forall k :: Mentions(ws, k) <==> Classify(ws[0]) == k || Mentions(ws[1..], k)
  {
    forall k | Mentions(ws, k) && Classify(ws[0]) != k ensures Mentions(ws[1..], k) {
      var i :| 0 <= i < |ws| && Classify(ws[i]) == k;
      assert ws[1..][i - 1] == ws[i];
    }
    forall k | Mentions(ws[1..], k) ensures Mentions(ws, k) {
      var i :| 0 <= i < |ws[1..]| && Classify(ws[1..][i]) == k;
      assert ws[i + 1] == ws[1..][i];
    }
  }

  /** A mode piece at position `i` with no rival after it is the first piece, or such a piece of the tail. */
  lemma ModeWitness(ws: seq<string>, i: nat, rival: Word)
    requires i < |ws| && !Mentions(ws[i + 1..], rival)
    ensures i == 0 ==> !Mentions(ws[1..], rival)
    ensures i > 0 ==> ws[1..][i - 1] == ws[i] && !Mentions(ws[1..][i..], rival)
  {
    if i > 0 {
      assert ws[1..][i..] == ws[i + 1..];
    }
  }

  /** Words beyond the sixth stay glued to the sixth piece, whitespace and all. */
  lemma {:induction false} ManyWordsLastPieceSpaced(s: string, from: nat, k: nat)
    requires from <= |s| && k >= 1 && |Words(s, from)| > k
    ensures HasSpace(SplitSpaces(s, from, k)[|SplitSpaces(s, from, k)| - 1])
    decreases k
  {
    match FirstSpace(s, from)
    case None =>
      assert false;
    case Some(q) =>
      if k == 1 {
        assert s[from..][q - from] == s[q];
      } else {
        var e := SpaceRunEnd(s, q);
        ManyWordsLastPieceSpaced(s, e, k - 1);
      }
  }

  /** With more than six words, the last of the (at most six) pieces is bad. */
  lemma ManyWordsBadPiece(rest: string)
    requires |Words(Trim(rest), 0)| > 6
    ensures IsBad(Pieces(rest)[|Pieces(rest)| - 1])
  {
    var ps := Pieces(rest);
    ManyWordsLastPieceSpaced(Trim(rest), 0, 6);
  }

  /** An option string with more than six words is always rejected. */
  lemma TooManyWordsRejected(options: string)
    requires |Words(Trim(ExtractSeparators(options).rest), 0)| > 6
    ensures Parse(options).Err?
  {
    var e := ExtractSeparators(options);
    var ps := Pieces(e.rest);
    ManyWordsBadPiece(e.rest);
    ApplyWordsError(Defaults.(inSep := e.inSep, outSep := e.outSep), ps);
  }

  /**
   * When the option words fit in six pieces, the options are read word by
   * word. (A form feed is the one `\s` character `trim` keeps; at either end
   * of the trimmed options it would add an empty piece.)
   */
  lemma ParseReadsWords(options: string)
    requires var t := Trim(ExtractSeparators(options).rest);
      && |Words(t, 0)| <= 6
      && (t == [] || (t[0] != '\U{000C}' && t[|t| - 1] != '\U{000C}'))
    ensures var e := ExtractSeparators(options);
      Parse(options) == ApplyWords(Defaults.(inSep := e.inSep, outSep := e.outSep), Words(Trim(e.rest), 0))
  {
    var e := ExtractSeparators(options);
    ApplyPiecesAsWords(Defaults.(inSep := e.inSep, outSep := e.outSep), e.rest);
  }

  /** Applying the pieces of such text is applying its words. */
  lemma ApplyPiecesAsWords(o: Options, rest: string)
    requires var t := Trim(rest);
      && |Words(t, 0)| <= 6
      && (t == [] || (t[0] != '\U{000C}' && t[|t| - 1] != '\U{000C}'))
    ensures ApplyWords(o, Pieces(rest)) == ApplyWords(o, Words(Trim(rest), 0))
  {
    PiecesAreWords(rest);
    assert ApplyWords(o, [""]) == ApplyWords(o, [""][1..]);
  }

  /** The pieces of text with at most six words, and no form feed at its ends, are its words. */
  lemma PiecesAreWords(rest: string)
    requires var t := Trim(rest);
      && |Words(t, 0)| <= 6
      && (t == [] || (t[0] != '\U{000C}' && t[|t| - 1] != '\U{000C}'))
    ensures Pieces(rest) == if Trim(rest) == [] then [""] else Words(Trim(rest), 0)
  {
    SplitSpacesWords(Trim(rest), 0, 6);
  }

  /**
   * The settings of an accepted option string: `desc`, `case`, `keyed` and
   * `stoponblank` are off unless given; with neither `alpha` nor `num` the
   * order is natural; `case` changes nothing but case sensitivity.
   */
  lemma ParseSettings(options: string)
    requires Parse(options).Ok?
    ensures var o, ps := Parse(options).value, Pieces(ExtractSeparators(options).rest);
      && o.ascending == !Mentions(ps, Desc)
      && o.caseSensitive == Mentions(ps, Case)
      && o.keyed == Mentions(ps, Keyed)
      && o.stopOnBlank == Mentions(ps, StopOnBlank)
      && (!Mentions(ps, Alpha) && !Mentions(ps, Num) ==> o.mode == Natural)
      && o.inSep == ExtractSeparators(options).inSep
      && o.outSep == ExtractSeparators(options).outSep
  {
    var e := ExtractSeparators(options);
    ApplyWordsSettings(Defaults.(inSep := e.inSep, outSep := e.outSep), Pieces(e.rest));
  }
}
