/**
 * The parser function behind `{{#simplesort:}}` (SimpleSortHooks::renderSort
 * in src/SimpleSortHooks.php): read the options, split the list, optionally
 * cut it at the first blank entry, sort it stably (or sort a second list by
 * it), and join the result.
 */
module SimpleSort {
  import opened Wrappers
  import opened Text
  import opened Tokenizer
  import opened SortOptions
  import opened Ordering

  /**
   * What the parser function returns: the sorted text, the error for an
   * unknown option, the failure when the input separator holds a `/` (the
   * split pattern does not compile, `preg_split` returns false and sorting
   * false is a TypeError), or, in keyed mode, an error for a second list
   * that is missing or shorter than the first.
   */
  datatype Outcome =
    | Rendered(text: string)
    | UnknownOption(token: string)
    | InvalidSeparator
    | MissingSecondList
    | SecondListTooShort

  /**
   * The comparisons behind PHP's SORT_NATURAL (`strnatcmp`), SORT_NATURAL
   * with SORT_FLAG_CASE (`strnatcasecmp`) and SORT_NUMERIC, which this model
   * takes as given rather than defining.
   */
  datatype Collations = Collations(
    natural: (string, string) -> bool,
    naturalCaseless: (string, string) -> bool,
    numeric: (string, string) -> bool)

  ghost predicate ValidCollations(c: Collations) {
    TotalPreorder(c.natural) && TotalPreorder(c.naturalCaseless) && TotalPreorder(c.numeric)
  }

  /**
   * The comparison the sort flags select: natural, string or numeric order,
   * caseless unless `case` was given (the case flag has no effect on numeric
   * order), reversed for `desc`.
   */
  function Collation(o: Options, c: Collations): (string, string) -> bool {
    var base: (string, string) -> bool :=
      match o.mode
      case Natural => if o.caseSensitive then c.natural else c.naturalCaseless
      case Alphabetic => if o.caseSensitive then (a, b) => LexLe(a, b) else (a, b) => FoldLe(a, b)
      case Numeric => c.numeric;
    if o.ascending then base else Flip(base)
  }

  lemma CollationIsTotalPreorder(o: Options, c: Collations)
    requires ValidCollations(c)
    ensures TotalPreorder(Collation(o, c))
  {
    forall a, b ensures LexLe(a, b) || LexLe(b, a) {
      LexLeTotal(a, b);
    }
    forall a, b, d | LexLe(a, b) && LexLe(b, d) ensures LexLe(a, d) {
      LexLeTransitive(a, b, d);
    }
    if o.mode == Alphabetic && !o.caseSensitive {
      var fold := (a, b) => FoldLe(a, b);
      assert TotalPreorder(fold);
    }
  }

  /** `desc` gives the reverse of the comparison the other flags select. */
  lemma DescendingIsFlip(o: Options, c: Collations)
    ensures Collation(o.(ascending := false), c) == Flip(Collation(o.(ascending := true), c))
  {
  }

  /** The case flag has no effect on numeric order. */
  lemma NumericIgnoresCase(o: Options, c: Collations)
    requires o.mode == Numeric
    ensures Collation(o.(caseSensitive := true), c) == Collation(o.(caseSensitive := false), c)
  {
  }

  /** `$olist[$k] = $ilist2[$k]`: a missing entry reads as null, which `implode` writes as "". */
  function At(values: seq<string>, k: nat): string {
    if k < |values| then values[k] else ""
  }

  /** The entries of `values` visited in the given order of positions. */
  function Gathered(values: seq<string>, order: seq<nat>): (r: seq<string>)
    ensures |r| == |order|
    ensures forall j :: 0 <= j < |order| ==> r[j] == At(values, order[j])
  {
    if order == [] then [] else Gathered(values, order[..|order| - 1]) + [At(values, order[|order| - 1])]
  }

  /** The loop that builds the output list from the visiting order. */
  method Reorder(values: seq<string>, order: seq<nat>) returns (out: seq<string>)
    ensures out == Gathered(values, order)
  {
    out := [];
    for i := 0 to |order|
      invariant out == Gathered(values, order[..i])
    {
      assert order[..i + 1][..i] == order[..i];
      out := out + [At(values, order[i])];
    }
    assert order[..|order|] == order;
  }

  /**
   * The list up to, and without, its first blank entry: the longest prefix
   * of the list without a blank entry.
   */
  function CutAtBlank(l: seq<string>): (r: seq<string>)
    ensures |r| <= |l| && r == l[..|r|]
    ensures forall k :: 0 <= k < |r| ==> r[k] != ""
    ensures |r| < |l| ==> l[|r|] == ""
  {
    if l == [] || l[0] == "" then [] else [l[0]] + CutAtBlank(l[1..])
  }

  /** Cutting at the first blank keeps exactly the entries before it. */
  lemma {:induction false} CutAtFirstBlank(l: seq<string>, i: nat)
    requires i <= |l| && (i == |l| || l[i] == "")
    requires forall k :: 0 <= k < i ==> l[k] != ""
    ensures CutAtBlank(l) == l[..i]
  {
    if i > 0 {
      forall k | 0 <= k < i - 1 ensures l[1..][k] != "" {
        assert l[1..][k] == l[k + 1];
      }
      CutAtFirstBlank(l[1..], i - 1);
      assert l[..i] == [l[0]] + l[1..][..i - 1];
    }
  }

  /** The `stoponblank` loop: splice the list off at the first blank entry. */
  method StopOnBlank(l: seq<string>) returns (r: seq<string>)
    ensures r == CutAtBlank(l)
  {
    r := l;
    var max := |l|;
    for i := 0 to max
      invariant r == l
      invariant forall k :: 0 <= k < i ==> l[k] != ""
    {
      if r[i] == "" {
        r := r[..i];
        CutAtFirstBlank(l, i);
        return;
      }
    }
    CutAtFirstBlank(l, |l|);
    assert l[..|l|] == l;
  }

  /** The options in force: those given in the first argument when there are at least two. */
  function OptionsOf(args: seq<string>): Result<Options> {
    if |args| >= 2 then Parse(args[0]) else Ok(Defaults)
  }

  /** The list to sort: the second argument when options are given, else the only one. */
  function InputOf(args: seq<string>): string {
    if |args| >= 2 then args[1] else if |args| == 1 then args[0] else ""
  }

  /** The primary list after splitting and, with `stoponblank`, cutting. */
  function PrimaryList(input: string, o: Options): (r: seq<string>)
    requires '/' !in o.inSep
    ensures var l := StringToArray(input, o.inSep).value;
      && |r| <= |l| && r == l[..|r|]
      && (!o.stopOnBlank ==> r == l)
      && (o.stopOnBlank ==> (forall k :: 0 <= k < |r| ==> r[k] != "") && (|r| < |l| ==> l[|r|] == ""))
  {
    var l := StringToArray(input, o.inSep).value;
    if o.stopOnBlank then CutAtBlank(l) else l
  }

  /**
   * renderSort, with `args` the arguments after the parser. The text
   * returned is the primary list (or in keyed mode the third argument's list)
   * visited in a sorted order of the primary list, joined with the output
   * separator.
   */
  method Render(args: seq<string>, c: Collations) returns (r: Outcome)
    requires ValidCollations(c)
    ensures OptionsOf(args).Err? ==> r == UnknownOption(OptionsOf(args).error)
    ensures OptionsOf(args).Ok? && InputOf(args) == "" ==> r == Rendered("")
    ensures OptionsOf(args).Ok? && InputOf(args) != "" && '/' in OptionsOf(args).value.inSep ==>
      r == InvalidSeparator
    ensures OptionsOf(args).Ok? && InputOf(args) != "" && '/' !in OptionsOf(args).value.inSep ==>
      var o := OptionsOf(args).value;
      var keys := PrimaryList(InputOf(args), o);
      if !o.keyed then
        exists order :: IsSortedOrder(keys, Collation(o, c), order)
          && r == Rendered(Join(Gathered(keys, order), o.outSep))
      else if |args| < 3 then r == MissingSecondList
      else
        var values := StringToArray(args[2], o.inSep).value;
        if |values| < |keys| then r == SecondListTooShort
        else exists order ::
          && IsSortedOrder(keys, Collation(o, c), order)
          && r == Rendered(Join(Gathered(values, order), o.outSep))
  {
    var o := Defaults;
    var input := "";
    if |args| >= 2 {
      var parsed := ParseOptions(args[0]);
      match parsed {
        case Err(token) =>
          return UnknownOption(token);
        case Ok(p) =>
          o := p;
      }
      input := args[1];
    } else if |args| == 1 {
      input := args[0];
    }
    if input == "" {
      return Rendered("");
    }
    var le := Collation(o, c);
    CollationIsTotalPreorder(o, c);
    var split := StringToArray(input, o.inSep);
    if split.None? {
      return InvalidSeparator;
    }
    var list := split.value;
    if o.stopOnBlank {
      list := StopOnBlank(list);
    }
    assert o == OptionsOf(args).value && input == InputOf(args);
    assert list == PrimaryList(input, o);
    var out;
    if o.keyed {
      if |args| < 3 {
        return MissingSecondList;
      }
      var second := StringToArray(args[2], o.inSep).value;
      if |second| < |list| {
        return SecondListTooShort;
      }
      var order := SortPositions(list, le);
      StableIsSorted(list, le, order);
      out := Reorder(second, order);
    } else {
      var order := SortPositions(list, le);
      StableIsSorted(list, le, order);
      out := Reorder(list, order);
    }
    r := Rendered(Join(out, o.outSep));
  }

  lemma GatherAppend(values: seq<string>, a: seq<nat>, b: seq<nat>)
    ensures Gathered(values, a + b) == Gathered(values, a) + Gathered(values, b)
  {
    var l, r := Gathered(values, a + b), Gathered(values, a) + Gathered(values, b);
    forall j | 0 <= j < |l| ensures l[j] == r[j] {
      if j >= |a| {
        assert (a + b)[j] == b[j - |a|];
      }
    }
  }

  /** Visiting the first `n` positions in any order yields a permutation of the first `n` entries. */
  lemma {:induction false} GatherPermutation(values: seq<string>, order: seq<nat>, n: nat)
    requires n <= |values| && multiset(order) == multiset(Iota(n))
    ensures multiset(Gathered(values, order)) == multiset(values[..n])
    decreases n
  {
    if n == 0 {
      assert |order| == |multiset(order)| == 0;
    } else {
      var last: nat := n - 1;
      assert Iota(n) == Iota(last) + [last];
      assert last in multiset(order);
      var m :| 0 <= m < |order| && order[m] == last;
      var rest := order[..m] + order[m + 1..];
      GatherRemove(values, order, m);
      CancelOne(multiset(rest), multiset(Iota(last)), last);
      GatherPermutation(values, rest, last);
      PrefixStep(values, n);
    }
  }

  lemma PrefixStep(values: seq<string>, n: nat)
    requires 0 < n <= |values|
    ensures multiset(values[..n]) == multiset(values[..n - 1]) + multiset{At(values, n - 1)}
  {
    assert values[..n] == values[..n - 1] + [values[n - 1]];
  }

  /** Taking position `m` out of the visiting order takes its entry out of the output. */
  lemma GatherRemove(values: seq<string>, order: seq<nat>, m: nat)
    requires m < |order|
    ensures multiset(order) == multiset(order[..m] + order[m + 1..]) + multiset{order[m]}
    ensures multiset(Gathered(values, order))
      == multiset(Gathered(values, order[..m] + order[m + 1..])) + multiset{At(values, order[m])}
  {
    var before, after := order[..m], order[m + 1..];
    assert order == before + [order[m]] + after;
    GatherAppend(values, before + [order[m]], after);
    GatherAppend(values, before, [order[m]]);
    GatherAppend(values, before, after);
  }

  lemma CancelOne(a: multiset<nat>, b: multiset<nat>, x: nat)
    requires a + multiset{x} == b + multiset{x}
    ensures a == b
  {
    assert a == a + multiset{x} - multiset{x};
    assert b == b + multiset{x} - multiset{x};
  }

  /**
   * Unkeyed output: visiting the list in its stable order gives a sorted
   * permutation of it.
   */
  lemma SortedOrderSorts(keys: seq<string>, le: (string, string) -> bool, order: seq<nat>)
    requires IsSortedOrder(keys, le, order)
    ensures Sorted(Gathered(keys, order), le)
    ensures multiset(Gathered(keys, order)) == multiset(keys)
  {
    GatherPermutation(keys, order, |keys|);
    assert keys[..|keys|] == keys;
    var g := Gathered(keys, order);
    forall i, j | 0 <= i < j < |g| ensures le(g[i], g[j]) {
      assert g[i] == keys[order[i]] && g[j] == keys[order[j]];
    }
  }

  /**
   * Descending against ascending: reading an ascending order of the list
   * backwards gives an order that `rsort` may produce, and its output is
   * the ascending output reversed.
   */
  lemma DescendingReversesAscending(keys: seq<string>, le: (string, string) -> bool, order: seq<nat>)
    requires IsSortedOrder(keys, le, order)
    ensures IsSortedOrder(keys, Flip(le), Reversed(order))
    ensures Gathered(keys, Reversed(order)) == Reversed(Gathered(keys, order))
  {
    ReversedSortedOrder(keys, le, order);
  }

  /**
   * Keyed output: entry `j` of the output is the secondary entry paired with
   * the primary entry that sorts into place `j`, and with a secondary list
   * at least as long as the primary one the output is a permutation of its
   * first entries.
   */
  lemma KeyedPairing(keys: seq<string>, values: seq<string>, le: (string, string) -> bool, order: seq<nat>)
    requires IsSortedOrder(keys, le, order)
    ensures |Gathered(values, order)| == |keys|
    ensures forall j :: 0 <= j < |keys| ==>
      exists k :: 0 <= k < |keys| && Gathered(keys, order)[j] == keys[k] && Gathered(values, order)[j] == At(values, k)
    ensures |values| >= |keys| ==> multiset(Gathered(values, order)) == multiset(values[..|keys|])
  {
    SortedOrderPositions(keys, le, order);
    forall j | 0 <= j < |keys|
      ensures exists k :: 0 <= k < |keys| && Gathered(keys, order)[j] == keys[k] && Gathered(values, order)[j] == At(values, k)
    {
      var k := order[j];
      assert Gathered(keys, order)[j] == keys[k] && Gathered(values, order)[j] == At(values, k);
    }
    if |values| >= |keys| {
      GatherPermutation(values, order, |keys|);
    }
  }

  /** A sorted order lists as many positions as there are keys, each of them a valid position. */
  lemma SortedOrderPositions<T>(keys: seq<T>, le: (T, T) -> bool, order: seq<nat>)
    requires IsSortedOrder(keys, le, order)
    ensures |order| == |keys| && InRange(order, |keys|)
  {
    assert |order| == |multiset(order)| == |Iota(|keys|)|;
  }
}
