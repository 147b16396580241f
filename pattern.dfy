/**
 * The regular expression `stringToArray` hands to `preg_split`
 * (src/SimpleSortHooks.php:179) and PHP's check of its delimiters:
 * `preg_quote` of the separator, the search for the closing `/`, and the
 * modifiers that may follow it.
 */
module Pattern {
  import opened Wrappers

  /** The characters `preg_quote` escapes with a backslash (PHP 7.3 and later); `/` is not one of them. */
  const RegexSpecials: set<char> :=
    {'.', '\\', '+', '*', '?', '[', '^', ']', '$', '(', ')', '{', '}', '=', '!', '<', '>', '|', ':', '-', '#'}

  /**
   * How PCRE reads a quoted literal back: a backslash followed by `000` is
   * NUL, a backslash before any other character stands for that character,
   * and every other character stands for itself.
   */
  function Unquote(q: string): string
    decreases |q|
  {
    if q == [] then []
    else if q[0] == '\\' && |q| >= 4 && q[1..4] == "000" then ['\0'] + Unquote(q[4..])
    else if q[0] == '\\' && |q| >= 2 then [q[1]] + Unquote(q[2..])
    else [q[0]] + Unquote(q[1..])
  }

  /**
   * `preg_quote` of one character; with `slash` it is `preg_quote(c, "/")`,
   * which escapes the delimiter `/` as well. NUL becomes `\000`.
   */
  function QuoteChar(c: char, slash: bool): string {
    if c in RegexSpecials || (slash && c == '/') then ['\\', c]
    else if c == '\0' then "\\000"
    else [c]
  }

  lemma UnquoteEscaped(c: char, rest: string)
    requires c != '0'
    ensures Unquote(['\\', c] + rest) == [c] + Unquote(rest)
  {
    var q := ['\\', c] + rest;
    assert q[1] == c && q[2..] == rest;
  }

  lemma UnquoteNul(rest: string)
    ensures Unquote("\\000" + rest) == ['\0'] + Unquote(rest)
  {
    var q := "\\000" + rest;
    assert q[1..4] == "000" && q[4..] == rest;
  }

  lemma UnquotePlain(c: char, rest: string)
    requires c != '\\'
    ensures Unquote([c] + rest) == [c] + Unquote(rest)
  {
    var q := [c] + rest;
    assert q[0] == c && q[1..] == rest;
  }

  /** Whatever follows a quoted character, PCRE reads the character back first. */
  lemma QuoteCharReadsBack(c: char, slash: bool, rest: string)
    ensures Unquote(QuoteChar(c, slash) + rest) == [c] + Unquote(rest)
  {
    if c in RegexSpecials || (slash && c == '/') {
      UnquoteEscaped(c, rest);
    } else if c == '\0' {
      UnquoteNul(rest);
    } else {
      UnquotePlain(c, rest);
    }
  }

  function Quote(s: string, slash: bool): string
    decreases |s|
  {
    if s == [] then [] else QuoteChar(s[0], slash) + Quote(s[1..], slash)
  }

  /** PCRE reads text quoted by `preg_quote` back as the text itself. */
  lemma {:induction false} QuoteReadsBack(s: string, slash: bool)
    ensures Unquote(Quote(s, slash)) == s
    decreases |s|
  {
    if s != [] {
      QuoteReadsBack(s[1..], slash);
      QuoteCharReadsBack(s[0], slash, Quote(s[1..], slash));
    }
  }

  /** The PCRE text `[\s]*`: a run of whitespace. */
  const SpaceClass := "[\\s]*"

  /**
   * The pattern passed to `preg_split`: the quoted separator between two
   * whitespace runs, delimited by `/`. As written, `slash` is false.
   */
  function SplitPattern(sep: string, slash: bool): string {
    "/" + SpaceClass + Quote(sep, slash) + SpaceClass + "/"
  }

  /**
   * The pattern is delimited by `/` at both ends, and the text between its two
   * whitespace runs is read by PCRE as exactly the separator.
   */
  lemma SplitPatternReadsBack(sep: string, slash: bool)
    ensures var p := SplitPattern(sep, slash);
      && |p| >= 2 + 2 * |SpaceClass| && p[0] == '/' && p[|p| - 1] == '/'
      && Unquote(p[1 + |SpaceClass|..|p| - 1 - |SpaceClass|]) == sep
  {
    var q := Quote(sep, slash);
    var p := SplitPattern(sep, slash);
    assert p[1 + |SpaceClass|..|p| - 1 - |SpaceClass|] == q;
    QuoteReadsBack(sep, slash);
  }

  /** A position found in a suffix, as a position in the text `n` characters longer. */
  function Shift(o: Option<nat>, n: nat): Option<nat> {
    match o
    case None => None
    case Some(k) => Some(k + n)
  }

  /**
   * PHP's search for the closing delimiter in the text after the opening
   * `/`: a backslash takes the next character with it, and the first other
   * `/` closes the pattern.
   */
  function ClosingDelimiter(p: string): (r: Option<nat>)
    ensures r.Some? ==> r.value < |p| && p[r.value] == '/'
    decreases |p|
  {
    if p == [] then None
    else if p[0] == '\\' && |p| > 1 then
      var r := ClosingDelimiter(p[2..]);
      assert r.Some? ==> p[r.value + 2] == p[2..][r.value];
      Shift(r, 2)
    else if p[0] == '/' then Some(0)
    else
      var r := ClosingDelimiter(p[1..]);
      assert r.Some? ==> p[r.value + 1] == p[1..][r.value];
      Shift(r, 1)
  }

  /** The characters PHP accepts after the closing delimiter: modifier letters and ignored whitespace. */
  const Modifiers: set<char> := {'i', 'm', 's', 'x', 'u', 'A', 'D', 'S', 'U', 'X', 'J', 'n', ' ', '\n', '\r'}

  /**
   * The `preg_*` functions accept the pattern: it opens with `/`, a closing
   * `/` is found, and every character after it is a modifier. Otherwise they
   * warn and return false.
   */
  predicate Compiles(p: string) {
    |p| > 0 && p[0] == '/' &&
    match ClosingDelimiter(p[1..])
    case None => false
    case Some(k) => forall j :: k + 2 <= j < |p| ==> p[j] in Modifiers
  }

  /** Text the search passes over completely: no bare `/`, and no backslash left at its end. */
  predicate Clean(x: string)
    decreases |x|
  {
    if x == [] then true
    else if x[0] == '\\' then |x| > 1 && Clean(x[2..])
    else x[0] != '/' && Clean(x[1..])
  }

  /** The search passes over clean text and goes on in what follows it. */
  lemma {:induction false} ScanClean(x: string, y: string)
    requires Clean(x)
    ensures ClosingDelimiter(x + y) == Shift(ClosingDelimiter(y), |x|)
    decreases |x|
  {
    var xy := x + y;
    if x == [] {
      assert xy == y;
    } else if x[0] == '\\' {
      assert xy[0] == '\\' && xy[2..] == x[2..] + y;
      ScanClean(x[2..], y);
    } else {
      assert xy[0] == x[0] && xy[1..] == x[1..] + y;
      ScanClean(x[1..], y);
    }
  }

  /** The search stops at a bare `/` at the front. */
  lemma ScanSlash(y: string)
    ensures ClosingDelimiter("/" + y) == Some(0)
  {
    assert ("/" + y)[0] == '/';
  }

  lemma {:induction false} CleanAppend(x: string, y: string)
    requires Clean(x) && Clean(y)
    ensures Clean(x + y)
    decreases |x|
  {
    var xy := x + y;
    if x == [] {
      assert xy == y;
    } else if x[0] == '\\' {
      assert xy[0] == '\\' && xy[2..] == x[2..] + y;
      CleanAppend(x[2..], y);
    } else {
      assert xy[0] == x[0] && xy[1..] == x[1..] + y;
      CleanAppend(x[1..], y);
    }
  }

  lemma QuoteCharClean(c: char, slash: bool)
    requires slash || c != '/'
    ensures Clean(QuoteChar(c, slash))
  {
    var q := QuoteChar(c, slash);
    if c in RegexSpecials || (slash && c == '/') {
      assert q[2..] == [];
    } else if c == '\0' {
      assert Clean("0") && Clean("00");
      assert q == "\\000" && q[2..] == "00";
    } else {
      assert q[1..] == [];
    }
  }

  /** Quoted with the delimiter named, or holding no `/`, a separator is clean text. */
  lemma {:induction false} QuoteClean(sep: string, slash: bool)
    requires slash || '/' !in sep
    ensures Clean(Quote(sep, slash))
    decreases |sep|
  {
    if sep != [] {
      assert sep == [sep[0]] + sep[1..];
      QuoteCharClean(sep[0], slash);
      QuoteClean(sep[1..], slash);
      CleanAppend(QuoteChar(sep[0], slash), Quote(sep[1..], slash));
    }
  }

  lemma SpaceClassClean()
    ensures Clean(SpaceClass)
  {
    var x := SpaceClass;
    assert x[1..] == "\\s]*" && x[1..][2..] == "]*" && x[1..][2..][1..] == "*" && x[1..][2..][1..][1..] == [];
  }

  /** Quoting works character by character, so it distributes over concatenation. */
  lemma {:induction false} QuoteAppend(x: string, y: string, slash: bool)
    ensures Quote(x + y, slash) == Quote(x, slash) + Quote(y, slash)
    decreases |x|
  {
    if x == [] {
      assert x + y == y;
    } else {
      assert (x + y)[0] == x[0] && (x + y)[1..] == x[1..] + y;
      QuoteAppend(x[1..], y, slash);
    }
  }

  /** The position of the first `/` in `s`. */
  function FirstSlash(s: string): (m: nat)
    requires '/' in s
    ensures m < |s| && s[m] == '/' && '/' !in s[..m]
  {
    if s[0] == '/' then 0
    else
      assert s == [s[0]] + s[1..];
      var m := FirstSlash(s[1..]) + 1;
      assert s[..m] == [s[0]] + s[1..][..m - 1];
      m
  }

  /** The search passes over clean text and stops at the `/` after it. */
  lemma CleanThenSlash(x: string, y: string)
    requires Clean(x)
    ensures ClosingDelimiter(x + "/" + y) == Some(|x|)
  {
    assert x + "/" + y == x + ("/" + y);
    ScanClean(x, "/" + y);
    ScanSlash(y);
  }

  /** Quoted as written, `/` stays as it is. */
  lemma QuoteSlashFront(post: string)
    ensures Quote("/" + post, false) == "/" + Quote(post, false)
  {
    var s := "/" + post;
    assert s[0] == '/' && s[1..] == post;
    assert QuoteChar('/', false) == "/";
  }

  /** Quoted as written, a separator keeps its first `/` bare. */
  lemma QuoteAtSlash(sep: string, m: nat)
    requires m < |sep| && sep[m] == '/'
    ensures Quote(sep, false) == Quote(sep[..m], false) + "/" + Quote(sep[m + 1..], false)
  {
    var pre, post := sep[..m], sep[m + 1..];
    assert sep == pre + ("/" + post);
    QuoteAppend(pre, "/" + post, false);
    QuoteSlashFront(post);
  }

  /** The text after the opening `/`, and the `[` that opens the trailing whitespace run. */
  lemma PatternShape(sep: string, slash: bool)
    ensures SplitPattern(sep, slash)[1..] == SpaceClass + Quote(sep, slash) + SpaceClass + "/"
    ensures SplitPattern(sep, slash)[1 + |SpaceClass| + |Quote(sep, slash)|] == '['
  {
    Delimited(SpaceClass, Quote(sep, slash));
  }

  lemma Delimited(a: string, q: string)
    requires a != []
    ensures ("/" + a + q + a + "/")[1..] == a + q + a + "/"
    ensures ("/" + a + q + a + "/")[1 + |a| + |q|] == a[0]
  {
    assert "/" + a + q + a + "/" == "/" + (a + q + a + "/");
  }

  /** The pattern body regrouped around the bare `/` (kept apart: stated inline it is too costly). */
  lemma RegroupAtSlash(a: string, b: string, c: string)
    ensures a + (b + "/" + c) + a + "/" == (a + b) + "/" + (c + a + "/")
  {
  }

  /** A closing delimiter followed by something other than a modifier makes the pattern fail. */
  lemma ClosedEarly(p: string, k: nat, j: nat)
    requires |p| > 0 && p[0] == '/' && ClosingDelimiter(p[1..]) == Some(k)
    requires k + 2 <= j < |p| && p[j] !in Modifiers
    ensures !Compiles(p)
  {
  }

  /**
   * As written, the separator is quoted without naming the delimiter: a
   * separator holding `/` closes the pattern early, and the `[` of the
   * trailing `[\s]*` is read as an unknown modifier.
   */
  lemma UndelimitedPatternFails(sep: string)
    requires '/' in sep
    ensures !Compiles(SplitPattern(sep, false))
  {
    var m := FirstSlash(sep);
    var qpre, qpost := Quote(sep[..m], false), Quote(sep[m + 1..], false);
    QuoteAtSlash(sep, m);
    PatternShape(sep, false);
    RegroupAtSlash(SpaceClass, qpre, qpost);
    var x := SpaceClass + qpre;
    SpaceClassClean();
    QuoteClean(sep[..m], false);
    CleanAppend(SpaceClass, qpre);
    CleanThenSlash(x, qpost + SpaceClass + "/");
    ClosedEarly(SplitPattern(sep, false), |x|, 1 + |SpaceClass| + |Quote(sep, false)|);
  }

  /**
   * Quoted for the delimiter `/`, every separator gives a pattern that
   * compiles: its closing delimiter is its last character.
   */
  lemma DelimitedPatternCompiles(sep: string)
    ensures ClosingDelimiter(SplitPattern(sep, true)[1..]) == Some(|SplitPattern(sep, true)| - 2)
    ensures Compiles(SplitPattern(sep, true))
  {
    var q := Quote(sep, true);
    var p := SplitPattern(sep, true);
    assert p[1..] == SpaceClass + (q + (SpaceClass + "/"));
    SpaceClassClean();
    QuoteClean(sep, true);
    ScanClean(SpaceClass, q + (SpaceClass + "/"));
    ScanClean(q, SpaceClass + "/");
    ScanClean(SpaceClass, "/");
    ScanSlash([]);
    assert "/" + [] == "/";
  }

  /** Quoting a separator without `/` does not depend on naming the delimiter. */
  lemma {:induction false} QuoteWithoutSlash(sep: string)
    requires '/' !in sep
    ensures Quote(sep, false) == Quote(sep, true)
    decreases |sep|
  {
    if sep != [] {
      assert sep == [sep[0]] + sep[1..];
      QuoteWithoutSlash(sep[1..]);
    }
  }

  /** The as-written pattern compiles exactly when the separator has no `/`. */
  lemma SplitPatternCompiles(sep: string)
    ensures Compiles(SplitPattern(sep, false)) <==> '/' !in sep
  {
    if '/' in sep {
      UndelimitedPatternFails(sep);
    } else {
      QuoteWithoutSlash(sep);
      DelimitedPatternCompiles(sep);
    }
  }
}
