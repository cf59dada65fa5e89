/**
  Model of search.go: the substring ranking that `MakeSearchFunc` builds for
  the list's filter, and `AltFilter`, which completes the ranks found by the
  fuzzy matcher into a ranking of every target.

  Strings are sequences of characters standing for Go's bytes; the standard
  library routines the code calls (`strings.Index`, `strings.Split` on " ",
  `strings.ToLower`, `slices.SortStableFunc`) are given as functions whose
  properties are proved here.
 */
module Search {

  /** The switches of `SearchOption`. */
  datatype SearchOption = SearchOption(
    caseSensitive: bool,
    matchesOnly: bool,       // only targets with matches are returned
    sortByMatchCount: bool,  // ranks are stable-sorted by match count
    reverseSort: bool)       // ... in descending order

  /** A `list.Rank`: the position of a target and the offsets it matched. */
  datatype Rank = Rank(index: int, matchedIndexes: seq<int>)

  /** One result of `fuzzy.Find`, which `AltFilter` receives. */
  datatype FuzzyMatch = FuzzyMatch(str: string, index: int, matchedIndexes: seq<int>, score: int)

  // ---------------------------------------------------------------------------
  // strings.Index, strings.ToLower, strings.Split

  /** `t` occurs in `s` starting at offset `k`. */
  predicate OccursAt(s: string, t: string, k: int) {
    0 <= k && k + |t| <= |s| && s[k..k + |t|] == t
  }

  /** The first occurrence of `t` in `s` at or after `k`, or -1. */
  function IndexFrom(s: string, t: string, k: nat): (r: int)
    ensures r == -1 || (k <= r && OccursAt(s, t, r))
    ensures forall j :: k <= j && (r == -1 || j < r) ==> !OccursAt(s, t, j)
    decreases |s| + 1 - k
  {
    if k + |t| > |s| then -1
    else if s[k..k + |t|] == t then k
    else IndexFrom(s, t, k + 1)
  }

  /** `strings.Index(s, t)`: the least offset where `t` occurs in `s`, or -1. */
  function IndexOf(s: string, t: string): (r: int)
    ensures r == -1 <==> forall k :: !OccursAt(s, t, k)
    ensures r != -1 ==> OccursAt(s, t, r) && forall k :: 0 <= k < r ==> !OccursAt(s, t, k)
  {
    var r := IndexFrom(s, t, 0);
    assert r == -1 ==> forall k :: !OccursAt(s, t, k) by {
      forall k | r == -1 && OccursAt(s, t, k) ensures false { }
    }
    r
  }

  /** `strings.ToLower` on one byte; bytes outside 'A'..'Z' are unchanged. */
  function LowerByte(c: char): char {
    if 'A' <= c <= 'Z' then (c as int + 32) as char else c
  }

  /**
    `strings.ToLower`, restricted to ASCII: no upper-case letter is left,
    every other byte is kept, and each upper-case letter becomes its
    lower-case partner.
   */
  function ToLower(s: string): (r: string)
    ensures |r| == |s|
    ensures forall i :: 0 <= i < |r| ==> !('A' <= r[i] <= 'Z')
    ensures forall i :: 0 <= i < |s| && !('A' <= s[i] <= 'Z') ==> r[i] == s[i]
    ensures forall i :: 0 <= i < |s| && 'A' <= s[i] <= 'Z' ==> 'a' <= r[i] <= 'z' && r[i] as int - s[i] as int == 32
  {
    seq(|s|, i requires 0 <= i < |s| => LowerByte(s[i]))
  }

  /** Lower-casing twice is lower-casing once. */
  lemma ToLowerIdempotent(s: string)
    ensures ToLower(ToLower(s)) == ToLower(s)
  {
  }

  /** The inverse of `Split`: the pieces joined with single spaces. */
  function Join(parts: seq<string>): string
    requires |parts| >= 1
  {
    if |parts| == 1 then parts[0] else parts[0] + " " + Join(parts[1..])
  }

  /**
    `strings.Split(s, " ")`: the pieces between single spaces. Consecutive
    spaces give empty pieces, and the empty string gives one empty piece.
   */
  function Split(s: string): (parts: seq<string>)
    ensures |parts| >= 1
    ensures forall p :: p in parts ==> ' ' !in p
    ensures Join(parts) == s
  {
    if s == [] then [[]]
    else
      var rest := Split(s[1..]);
      if s[0] == ' ' then
        assert Join([[]] + rest) == " " + Join(rest) by {
          assert ([[]] + rest)[1..] == rest;
        }
        [[]] + rest
      else
        var parts := [[s[0]] + rest[0]] + rest[1..];
        assert Join(parts) == [s[0]] + Join(rest) by {
          if |rest| > 1 {
            assert parts[1..] == rest[1..];
            assert ([s[0]] + rest[0]) + " " + Join(rest[1..]) == [s[0]] + (rest[0] + " " + Join(rest[1..]));
          }
        }
        assert s == [s[0]] + s[1..];
        parts
  }

  /** A term without spaces is a single sub-term. */
  lemma SplitWithoutSpace(s: string)
    requires ' ' !in s
    ensures Split(s) == [s]
  {
  }

  // ---------------------------------------------------------------------------
  // The offsets one target collects (search.go:56-69)

  /** The run `start, start+1, ..., start+len-1` (`newMatchIndixes`). */
  function Run(start: int, len: nat): seq<int> {
    seq(len, i => start + i)
  }

  /**
    The offsets sub-term `t` contributes to target `s`: the run covered by its
    first occurrence, or nothing when it does not occur.
   */
  function TermOffsets(s: string, t: string): (o: seq<int>)
    ensures forall i :: 0 <= i < |o| ==> 0 <= o[i] < |s|
    ensures IndexOf(s, t) == -1 ==> o == []
    ensures IndexOf(s, t) != -1 ==>
      |o| == |t| && forall i :: 0 <= i < |o| ==> o[i] == IndexOf(s, t) + i && s[o[i]] == t[i]
  {
    var m := IndexOf(s, t);
    if m == -1 then []
    else
      assert forall i :: 0 <= i < |t| ==> t[i] == s[m + i];
      Run(m, |t|)
  }

  /** The offsets of target `s` for the sub-terms `terms`, concatenated in sub-term order. */
  function Offsets(s: string, terms: seq<string>): seq<int> {
    if terms == [] then []
    else Offsets(s, terms[..|terms| - 1]) + TermOffsets(s, terms[|terms| - 1])
  }

  /** `t` occurs somewhere in `s`. */
  predicate Contains(s: string, t: string) {
    IndexOf(s, t) != -1
  }

  /** The total length of the sub-terms that occur in `s`. */
  function MatchedLength(s: string, terms: seq<string>): nat {
    if terms == [] then 0
    else
      var t := terms[|terms| - 1];
      MatchedLength(s, terms[..|terms| - 1]) + (if Contains(s, t) then |t| else 0)
  }

  /** Every offset recorded for `s` lies inside `s`. */
  lemma {:induction false} OffsetsInBounds(s: string, terms: seq<string>)
    ensures forall i :: 0 <= i < |Offsets(s, terms)| ==> 0 <= Offsets(s, terms)[i] < |s|
    decreases |terms|
  {
    if terms != [] {
      OffsetsInBounds(s, terms[..|terms| - 1]);
    }
  }

  /**
    The number of offsets is the total length of the sub-terms that occur;
    empty sub-terms always occur and add nothing.
   */
  lemma {:induction false} OffsetsLength(s: string, terms: seq<string>)
    ensures |Offsets(s, terms)| == MatchedLength(s, terms)
    decreases |terms|
  {
    if terms != [] {
      OffsetsLength(s, terms[..|terms| - 1]);
    }
  }

  /** A target has offsets exactly when some non-empty sub-term occurs in it. */
  lemma {:induction false} OffsetsNonEmpty(s: string, terms: seq<string>)
    ensures |Offsets(s, terms)| > 0 <==> exists t :: t in terms && |t| > 0 && Contains(s, t)
    decreases |terms|
  {
    if terms != [] {
      var init, last := terms[..|terms| - 1], terms[|terms| - 1];
      OffsetsNonEmpty(s, init);
      assert terms == init + [last];
      if exists t :: t in terms && |t| > 0 && Contains(s, t) {
        var t :| t in terms && |t| > 0 && Contains(s, t);
        if t != last {
          assert t in init;
        }
      }
    }
  }

  // ---------------------------------------------------------------------------
  // The ranks before sorting (search.go:53-73)

  /** Whether a target with offsets `matched` is returned (search.go:70). */
  predicate Kept(matchesOnly: bool, matched: seq<int>) {
    |matched| > 0 || !matchesOnly
  }

  /** The sub-terms the filter uses: the term, lower-cased unless case-sensitive, split on " ". */
  function SubTerms(caseSensitive: bool, term: string): seq<string> {
    Split(if caseSensitive then term else ToLower(term))
  }

  /** The offsets of every target, by position. */
  function TargetOffsets(targets: seq<string>, terms: seq<string>): (offs: seq<seq<int>>)
    ensures |offs| == |targets|
  {
    seq(|targets|, i requires 0 <= i < |targets| => Offsets(targets[i], terms))
  }

  /** The ranks collected from the first `n` targets, whose offsets are `offs`, in target order. */
  function Collect(matchesOnly: bool, offs: seq<seq<int>>, n: nat): seq<Rank>
    requires n <= |offs|
  {
    if n == 0 then []
    else
      Collect(matchesOnly, offs, n - 1)
        + (if Kept(matchesOnly, offs[n - 1]) then [Rank(n - 1, offs[n - 1])] else [])
  }

  lemma CollectStep(matchesOnly: bool, offs: seq<seq<int>>, n: nat)
    requires n < |offs|
    ensures Collect(matchesOnly, offs, n + 1)
         == Collect(matchesOnly, offs, n) + if Kept(matchesOnly, offs[n]) then [Rank(n, offs[n])] else []
  {
  }

  /** `i` is the `Index` of some rank in `ranks`. */
  predicate Ranked(ranks: seq<Rank>, i: int) {
    exists p :: 0 <= p < |ranks| && ranks[p].index == i
  }

  /** `Index` values strictly increase along `ranks`. */
  predicate IndexIncreasing(ranks: seq<Rank>) {
    forall p, q :: 0 <= p < q < |ranks| ==> ranks[p].index < ranks[q].index
  }

  /** `r` is the rank of its own target: a valid position and that target's offsets. */
  predicate OwnRank(offs: seq<seq<int>>, r: Rank) {
    0 <= r.index < |offs| && r.matchedIndexes == offs[r.index]
  }

  /**
    Every collected rank is the kept rank of one of the first `n` targets,
    and indices strictly increase: original order is kept and non-matching
    targets stay in place.
   */
  lemma {:induction false} CollectElements(matchesOnly: bool, offs: seq<seq<int>>, n: nat)
    requires n <= |offs|
    ensures var c := Collect(matchesOnly, offs, n);
      && IndexIncreasing(c)
      && (forall p :: 0 <= p < |c| ==> c[p].index < n && OwnRank(offs, c[p]))
      && (forall p :: 0 <= p < |c| ==> Kept(matchesOnly, c[p].matchedIndexes))
    decreases n
  {
    if n > 0 {
      CollectElements(matchesOnly, offs, n - 1);
      var prev := Collect(matchesOnly, offs, n - 1);
      if Kept(matchesOnly, offs[n - 1]) {
        var c := prev + [Rank(n - 1, offs[n - 1])];
        assert Collect(matchesOnly, offs, n) == c;
        assert forall p :: 0 <= p < |prev| ==> c[p] == prev[p];
      } else {
        assert Collect(matchesOnly, offs, n) == prev;
      }
    }
  }

  /** Target `i` is collected exactly when it is kept. */
  lemma {:induction false} CollectMembership(matchesOnly: bool, offs: seq<seq<int>>, n: nat)
    requires n <= |offs|
    ensures forall i :: 0 <= i < n ==> (Ranked(Collect(matchesOnly, offs, n), i) <==> Kept(matchesOnly, offs[i]))
    decreases n
  {
    if n > 0 {
      CollectMembership(matchesOnly, offs, n - 1);
      CollectElements(matchesOnly, offs, n);
      var prev := Collect(matchesOnly, offs, n - 1);
      var c := Collect(matchesOnly, offs, n);
      var tail := if Kept(matchesOnly, offs[n - 1]) then [Rank(n - 1, offs[n - 1])] else [];
      assert c == prev + tail;
      forall i | 0 <= i < n
        ensures Ranked(c, i) <==> Kept(matchesOnly, offs[i])
      {
        if Ranked(c, i) {
          var p :| 0 <= p < |c| && c[p].index == i;
          if p < |prev| {
            assert prev[p] == c[p];
          }
        }
        if Kept(matchesOnly, offs[i]) {
          if i < n - 1 {
            var p :| 0 <= p < |prev| && prev[p].index == i;
            assert c[p] == prev[p];
          } else {
            assert c[|prev|].index == i;
          }
        }
      }
    }
  }

  /** With `MatchesOnly` off, every target is collected, at its own position. */
  lemma {:induction false} CollectAll(offs: seq<seq<int>>, n: nat)
    requires n <= |offs|
    ensures |Collect(false, offs, n)| == n
    ensures forall i :: 0 <= i < n ==> Collect(false, offs, n)[i] == Rank(i, offs[i])
    decreases n
  {
    if n > 0 {
      CollectAll(offs, n - 1);
    }
  }

  // ---------------------------------------------------------------------------
  // slices.SortStableFunc by match count (search.go:75-82)

  /**
    The sort key: the match count, negated for `ReverseSort` so that the
    comparator `len(j) - len(i)` orders by ascending key as well.
   */
  function Key(r: Rank, reverse: bool): int {
    if reverse then -|r.matchedIndexes| else |r.matchedIndexes|
  }

  /** `x` placed before the first element whose key is not smaller. */
  function Insert(x: Rank, s: seq<Rank>, reverse: bool): seq<Rank> {
    if s == [] || Key(x, reverse) <= Key(s[0], reverse) then [x] + s
    else [s[0]] + Insert(x, s[1..], reverse)
  }

  /** A stable sort by key: each element inserted before the sorted rest. */
  function SortByCount(s: seq<Rank>, reverse: bool): seq<Rank> {
    if s == [] then [] else Insert(s[0], SortByCount(s[1..], reverse), reverse)
  }

  /** The order the stable sort produces: by key, and by `Index` among equal keys. */
  predicate Before(a: Rank, b: Rank, reverse: bool) {
    Key(a, reverse) < Key(b, reverse) || (Key(a, reverse) == Key(b, reverse) && a.index < b.index)
  }

  /** Along `s`, keys never decrease and equal keys have increasing `Index`. */
  predicate SortedStable(s: seq<Rank>, reverse: bool) {
    forall p, q :: 0 <= p < q < |s| ==> Before(s[p], s[q], reverse)
  }

  lemma {:induction false} InsertPermutes(x: Rank, s: seq<Rank>, reverse: bool)
    ensures multiset(Insert(x, s, reverse)) == multiset(s) + multiset{x}
    decreases |s|
  {
    if s != [] && Key(x, reverse) > Key(s[0], reverse) {
      InsertPermutes(x, s[1..], reverse);
      assert s == [s[0]] + s[1..];
    }
  }

  /** `SortedStable` of a sequence with a head: the head comes before all the rest. */
  lemma ConsSortedStable(y: Rank, s: seq<Rank>, reverse: bool)
    requires SortedStable(s, reverse)
    requires forall q :: 0 <= q < |s| ==> Before(y, s[q], reverse)
    ensures SortedStable([y] + s, reverse)
  {
    var r := [y] + s;
    forall p, q | 0 <= p < q < |r| ensures Before(r[p], r[q], reverse) {
      assert r[q] == s[q - 1];
      if p > 0 {
        assert r[p] == s[p - 1];
      }
    }
  }

  lemma {:induction false} InsertSortedStable(x: Rank, s: seq<Rank>, reverse: bool)
    requires SortedStable(s, reverse)
    requires forall p :: 0 <= p < |s| ==> x.index < s[p].index
    ensures SortedStable(Insert(x, s, reverse), reverse)
    decreases |s|
  {
    if s == [] || Key(x, reverse) <= Key(s[0], reverse) {
      forall q | 0 <= q < |s| ensures Before(x, s[q], reverse) {
        if q > 0 {
          assert Before(s[0], s[q], reverse);
        }
      }
      ConsSortedStable(x, s, reverse);
    } else {
      var rest := Insert(x, s[1..], reverse);
      InsertSortedStable(x, s[1..], reverse);
      InsertPermutes(x, s[1..], reverse);
      forall q | 0 <= q < |rest| ensures Before(s[0], rest[q], reverse) {
        assert rest[q] in multiset(s[1..]) + multiset{x};
        if rest[q] != x {
          var k :| 0 <= k < |s[1..]| && s[1..][k] == rest[q];
          assert Before(s[0], s[k + 1], reverse);
        }
      }
      ConsSortedStable(s[0], rest, reverse);
    }
  }

  /** A lower bound on the indices of `a` holds for any permutation `b` of it. */
  lemma IndexesAbove(bound: int, a: seq<Rank>, b: seq<Rank>)
    requires multiset(a) == multiset(b)
    requires forall p :: 0 <= p < |a| ==> bound < a[p].index
    ensures forall p :: 0 <= p < |b| ==> bound < b[p].index
  {
    forall p | 0 <= p < |b| ensures bound < b[p].index {
      assert b[p] in multiset(a);
    }
  }

  /**
    `SortByCount` is a stable sort of ranks with increasing indices: a
    permutation of its input, ordered by key and, among equal keys, by
    increasing `Index`.
   */
  lemma {:induction false} SortByCountPermutes(s: seq<Rank>, reverse: bool)
    ensures multiset(SortByCount(s, reverse)) == multiset(s)
    decreases |s|
  {
    if s != [] {
      var rest := SortByCount(s[1..], reverse);
      SortByCountPermutes(s[1..], reverse);
      InsertPermutes(s[0], rest, reverse);
      calc {
        multiset(SortByCount(s, reverse));
        multiset(Insert(s[0], rest, reverse));
        multiset(rest) + multiset{s[0]};
        multiset(s[1..]) + multiset{s[0]};
        { assert s == [s[0]] + s[1..]; }
        multiset(s);
      }
    }
  }

  /** The tail of a sequence with increasing indices: increasing, and above the head. */
  lemma IncreasingTail(s: seq<Rank>)
    requires IndexIncreasing(s) && s != []
    ensures IndexIncreasing(s[1..])
    ensures forall p :: 0 <= p < |s[1..]| ==> s[0].index < s[1..][p].index
  {
    var tail := s[1..];
    forall p, q | 0 <= p < q < |tail| ensures tail[p].index < tail[q].index {
      assert tail[p] == s[p + 1] && tail[q] == s[q + 1];
    }
    forall p | 0 <= p < |tail| ensures s[0].index < tail[p].index {
      assert tail[p] == s[p + 1];
    }
  }

  lemma {:induction false} SortByCountCorrect(s: seq<Rank>, reverse: bool)
    requires IndexIncreasing(s)
    ensures multiset(SortByCount(s, reverse)) == multiset(s)
    ensures SortedStable(SortByCount(s, reverse), reverse)
    decreases |s|
  {
    SortByCountPermutes(s, reverse);
    if s != [] {
      var tail := s[1..];
      IncreasingTail(s);
      var rest := SortByCount(tail, reverse);
      SortByCountCorrect(tail, reverse);
      IndexesAbove(s[0].index, tail, rest);
      InsertSortedStable(s[0], rest, reverse);
    }
  }

  // ---------------------------------------------------------------------------
  // The filter function as a whole

  /** The ranks in target order, before the optional sort. */
  function Unsorted(option: SearchOption, term: string, targets: seq<string>): seq<Rank> {
    var offs := TargetOffsets(targets, SubTerms(option.caseSensitive, term));
    Collect(option.matchesOnly, offs, |offs|)
  }

  lemma UnsortedUnfold(option: SearchOption, term: string, targets: seq<string>)
    ensures Unsorted(option, term, targets)
         == Collect(option.matchesOnly, TargetOffsets(targets, SubTerms(option.caseSensitive, term)), |targets|)
  {
  }

  /** The ranking the filter returns for `term` and `targets`. */
  function SearchResult(option: SearchOption, term: string, targets: seq<string>): seq<Rank> {
    var ranks := Unsorted(option, term, targets);
    if option.sortByMatchCount then SortByCount(ranks, option.reverseSort) else ranks
  }

  /**
    The offsets one target collects (search.go:57-69): for each sub-term in
    order, the run covered by its first occurrence, appended to the rank.
   */
  method TargetMatches(r: string, terms: seq<string>) returns (matched: seq<int>)
    ensures matched == Offsets(r, terms)
  {
    matched := [];
    var j := 0;
    while j < |terms|
      invariant 0 <= j <= |terms|
      invariant matched == Offsets(r, terms[..j])
    {
      var t := terms[j];
      var at := IndexOf(r, t);
      ghost var before := matched;
      if at != -1 {
        var newMatchIndexes := new int[|t|];
        for i := 0 to |t|
          invariant forall k :: 0 <= k < i ==> newMatchIndexes[k] == at + k
        {
          newMatchIndexes[i] := at + i;
        }
        assert newMatchIndexes[..] == TermOffsets(r, t);
        matched := matched + newMatchIndexes[..];
      }
      assert matched == before + TermOffsets(r, t);
      assert terms[..j + 1][..j] == terms[..j] && terms[..j + 1][j] == t;
      j := j + 1;
    }
    assert terms[..j] == terms;
  }

  /**
    The closure `MakeSearchFunc(option)` returns, applied to `term` and
    `targets`: for each target, each sub-term's first occurrence contributes
    its run of offsets; a target is kept when it has offsets or `MatchesOnly`
    is off; the ranks are stable-sorted by match count when asked.
   */
  method MakeSearchFunc(option: SearchOption, term: string, targets: seq<string>) returns (ranks: seq<Rank>)
    ensures ranks == SearchResult(option, term, targets)
  {
    var lowered := term;
    if !option.caseSensitive {
      lowered := ToLower(term);
    }
    var terms := Split(lowered);
    assert terms == SubTerms(option.caseSensitive, term);
    ghost var offs := TargetOffsets(targets, terms);
    ranks := [];
    var idx := 0;
    while idx < |targets|
      invariant 0 <= idx <= |targets|
      invariant ranks == Collect(option.matchesOnly, offs, idx)
    {
      var matched := TargetMatches(targets[idx], terms);
      assert matched == offs[idx];
      CollectStep(option.matchesOnly, offs, idx);
      if |matched| > 0 || !option.matchesOnly {
        ranks := ranks + [Rank(idx, matched)];
      }
      idx := idx + 1;
    }
    UnsortedUnfold(option, term, targets);
    if option.sortByMatchCount {
      ranks := SortByCount(ranks, option.reverseSort);
    }
  }

  /** The result is a permutation of the unsorted ranks. */
  lemma ResultPermutesUnsorted(option: SearchOption, term: string, targets: seq<string>)
    ensures multiset(SearchResult(option, term, targets)) == multiset(Unsorted(option, term, targets))
  {
    var offs := TargetOffsets(targets, SubTerms(option.caseSensitive, term));
    CollectElements(option.matchesOnly, offs, |offs|);
    if option.sortByMatchCount {
      SortByCountCorrect(Unsorted(option, term, targets), option.reverseSort);
    }
  }

  /** A sequence whose indices strictly increase has no rank twice. */
  lemma IncreasingOccursOnce(c: seq<Rank>, x: Rank)
    requires IndexIncreasing(c) && x in c
    ensures multiset(c)[x] == 1
  {
    var k :| 0 <= k < |c| && c[k] == x;
    assert c == c[..k] + [x] + c[k + 1..];
    assert x !in c[..k] && x !in c[k + 1..];
  }

  /**
    A permutation `r` of ranks `c` with increasing indices, all of them own
    ranks, consists of own ranks with pairwise distinct indices.
   */
  lemma PermutationOfOwnRanks(c: seq<Rank>, r: seq<Rank>, offs: seq<seq<int>>)
    requires IndexIncreasing(c) && multiset(r) == multiset(c)
    requires forall p :: 0 <= p < |c| ==> OwnRank(offs, c[p])
    ensures forall p :: 0 <= p < |r| ==> OwnRank(offs, r[p])
    ensures forall p, q :: 0 <= p < q < |r| ==> r[p].index != r[q].index
  {
    forall p | 0 <= p < |r|
      ensures OwnRank(offs, r[p])
    {
      assert r[p] in multiset(c);
    }
    forall p, q | 0 <= p < q < |r| ensures r[p].index != r[q].index {
      if r[p].index == r[q].index {
        // two equal ranks would occur twice in r but once in c
        assert r[p] == r[q];
        assert r == r[..p] + [r[p]] + r[p + 1..q] + [r[q]] + r[q + 1..];
        assert multiset(r)[r[p]] >= 2;
        assert r[p] in multiset(c);
        IncreasingOccursOnce(c, r[p]);
      }
    }
  }

  /**
    Every returned index is a distinct target position, and every offset lies
    inside that target.
   */
  lemma SearchResultWellFormed(option: SearchOption, term: string, targets: seq<string>)
    ensures var r := SearchResult(option, term, targets);
      && (forall p :: 0 <= p < |r| ==> 0 <= r[p].index < |targets|)
      && (forall p, q :: 0 <= p < q < |r| ==> r[p].index != r[q].index)
      && (forall p, i :: 0 <= p < |r| && 0 <= i < |r[p].matchedIndexes| ==>
            0 <= r[p].matchedIndexes[i] < |targets[r[p].index]|)
  {
    var terms := SubTerms(option.caseSensitive, term);
    var offs := TargetOffsets(targets, terms);
    var c := Unsorted(option, term, targets);
    var r := SearchResult(option, term, targets);
    UnsortedUnfold(option, term, targets);
    CollectElements(option.matchesOnly, offs, |offs|);
    ResultPermutesUnsorted(option, term, targets);
    PermutationOfOwnRanks(c, r, offs);
    forall p | 0 <= p < |r|
      ensures 0 <= r[p].index < |targets| && r[p].matchedIndexes == Offsets(targets[r[p].index], terms)
    {
      assert OwnRank(offs, r[p]);
    }
    OwnRanksInBounds(targets, terms, r);
  }

  /** The offsets of own ranks lie inside their targets. */
  lemma OwnRanksInBounds(targets: seq<string>, terms: seq<string>, r: seq<Rank>)
    requires forall p :: 0 <= p < |r| ==>
      0 <= r[p].index < |targets| && r[p].matchedIndexes == Offsets(targets[r[p].index], terms)
    ensures forall p, i :: 0 <= p < |r| && 0 <= i < |r[p].matchedIndexes| ==>
      0 <= r[p].matchedIndexes[i] < |targets[r[p].index]|
  {
    forall p, i | 0 <= p < |r| && 0 <= i < |r[p].matchedIndexes|
      ensures 0 <= r[p].matchedIndexes[i] < |targets[r[p].index]|
    {
      OffsetsInBounds(targets[r[p].index], terms);
    }
  }


  /**
    With `MatchesOnly` off, there is exactly one rank per target; without
    sorting, rank `i` is target `i`.
   */
  lemma SearchResultAllTargets(option: SearchOption, term: string, targets: seq<string>)
    requires !option.matchesOnly
    ensures |SearchResult(option, term, targets)| == |targets|
    ensures !option.sortByMatchCount ==>
      forall i :: 0 <= i < |targets| ==> SearchResult(option, term, targets)[i].index == i
  {
    var offs := TargetOffsets(targets, SubTerms(option.caseSensitive, term));
    CollectAll(offs, |offs|);
    ResultPermutesUnsorted(option, term, targets);
    assert |multiset(SearchResult(option, term, targets))| == |multiset(Unsorted(option, term, targets))|;
  }

  /**
    Without sorting, returned indices strictly increase: original order is
    kept and non-matching targets are not moved.
   */
  lemma SearchResultUnsortedOrder(option: SearchOption, term: string, targets: seq<string>)
    requires !option.sortByMatchCount
    ensures IndexIncreasing(SearchResult(option, term, targets))
  {
    var offs := TargetOffsets(targets, SubTerms(option.caseSensitive, term));
    CollectElements(option.matchesOnly, offs, |offs|);
  }

  /**
    A target is returned exactly when `MatchesOnly` is off or some non-empty
    sub-term occurs in it; with `MatchesOnly` on, every rank has offsets.
   */
  lemma SearchResultMembership(option: SearchOption, term: string, targets: seq<string>)
    ensures forall i :: 0 <= i < |targets| ==>
      (Ranked(SearchResult(option, term, targets), i) <==>
        (!option.matchesOnly ||
         exists t :: t in SubTerms(option.caseSensitive, term) && |t| > 0 && Contains(targets[i], t)))
    ensures option.matchesOnly ==>
      forall p :: 0 <= p < |SearchResult(option, term, targets)| ==>
        |SearchResult(option, term, targets)[p].matchedIndexes| > 0
  {
    var terms := SubTerms(option.caseSensitive, term);
    var offs := TargetOffsets(targets, terms);
    var c := Unsorted(option, term, targets);
    var r := SearchResult(option, term, targets);
    CollectElements(option.matchesOnly, offs, |offs|);
    CollectMembership(option.matchesOnly, offs, |offs|);
    ResultPermutesUnsorted(option, term, targets);
    PermutationKeepsMembers(c, r, option.matchesOnly);
    forall i | 0 <= i < |targets|
      ensures Ranked(r, i) <==>
        (!option.matchesOnly || exists t :: t in terms && |t| > 0 && Contains(targets[i], t))
    {
      assert Ranked(r, i) <==> Ranked(c, i);
      assert Ranked(c, i) <==> Kept(option.matchesOnly, offs[i]);
      assert offs[i] == Offsets(targets[i], terms);
      OffsetsNonEmpty(targets[i], terms);
    }
  }

  /** A permutation has the same indices, and keeps what is kept. */
  lemma PermutationKeepsMembers(c: seq<Rank>, r: seq<Rank>, matchesOnly: bool)
    requires multiset(r) == multiset(c)
    requires forall p :: 0 <= p < |c| ==> Kept(matchesOnly, c[p].matchedIndexes)
    ensures forall i :: Ranked(r, i) <==> Ranked(c, i)
    ensures forall p :: 0 <= p < |r| ==> Kept(matchesOnly, r[p].matchedIndexes)
  {
    forall i ensures Ranked(r, i) <==> Ranked(c, i) {
      if Ranked(r, i) {
        var p :| 0 <= p < |r| && r[p].index == i;
        assert r[p] in multiset(c);
        var k :| 0 <= k < |c| && c[k] == r[p];
      }
      if Ranked(c, i) {
        var k :| 0 <= k < |c| && c[k].index == i;
        assert c[k] in multiset(r);
        var p :| 0 <= p < |r| && r[p] == c[k];
      }
    }
    forall p | 0 <= p < |r|
      ensures Kept(matchesOnly, r[p].matchedIndexes)
    {
      assert r[p] in multiset(c);
    }
  }

  /**
    With sorting, the result is a permutation of the unsorted ranks, ordered
    by match count (ascending, or descending with `ReverseSort`), and ranks of
    equal count keep increasing `Index` order.
   */
  lemma SearchResultSorted(option: SearchOption, term: string, targets: seq<string>)
    requires option.sortByMatchCount
    ensures var r := SearchResult(option, term, targets);
      && multiset(r) == multiset(SearchResult(option.(sortByMatchCount := false), term, targets))
      && (forall p, q :: 0 <= p < q < |r| ==>
            if option.reverseSort then |r[p].matchedIndexes| >= |r[q].matchedIndexes|
            else |r[p].matchedIndexes| <= |r[q].matchedIndexes|)
      && (forall p, q :: 0 <= p < q < |r| && |r[p].matchedIndexes| == |r[q].matchedIndexes| ==>
            r[p].index < r[q].index)
  {
    var c := Unsorted(option, term, targets);
    var offs := TargetOffsets(targets, SubTerms(option.caseSensitive, term));
    CollectElements(option.matchesOnly, offs, |offs|);
    SortByCountCorrect(c, option.reverseSort);
    var r := SearchResult(option, term, targets);
    assert forall p, q :: 0 <= p < q < |r| ==> Before(r[p], r[q], option.reverseSort);
  }

  /**
    Only the term is lower-cased: with `CaseSensitive` off, the term "Alpha"
    still finds nothing in the target "Alpha".
   */
  lemma CaseFoldKeepsTargetCase()
    ensures SearchResult(SearchOption(false, true, false, false), "Alpha", ["Alpha"]) == []
  {
    var lowered := ToLower("Alpha");
    assert lowered == "alpha";
    SplitWithoutSpace(lowered);
    forall k ensures !OccursAt("Alpha", "alpha", k) {
      if k == 0 {
        assert "Alpha"[0..5][0] != "alpha"[0];
      }
    }
    assert Offsets("Alpha", ["alpha"]) == TermOffsets("Alpha", "alpha");
    assert TargetOffsets(["Alpha"], ["alpha"]) == [[]];
  }

  /**
    When `CaseSensitive` is off only the term is lower-cased: the result is
    the case-sensitive result for the lower-cased term, over the same,
    unchanged targets.
   */
  lemma SearchResultCaseFold(option: SearchOption, term: string, targets: seq<string>)
    requires !option.caseSensitive
    ensures SearchResult(option, term, targets)
         == SearchResult(option.(caseSensitive := true), ToLower(term), targets)
  {
  }
  // ---------------------------------------------------------------------------
  // AltFilter (search.go:21-46)

  /** The indices `fuzzy.Find` may return: in range and pairwise distinct. */
  predicate DistinctInRange(found: seq<FuzzyMatch>, n: int) {
    && (forall p :: 0 <= p < |found| ==> 0 <= found[p].index < n)
    && (forall p, q :: 0 <= p < q < |found| ==> found[p].index != found[q].index)
  }

  /** The target positions the fuzzy matcher ranked. */
  function FoundIndexes(found: seq<FuzzyMatch>): set<int> {
    set p | 0 <= p < |found| :: found[p].index
  }

  lemma FoundIndexesStep(found: seq<FuzzyMatch>, i: nat)
    requires i < |found|
    ensures FoundIndexes(found[..i + 1]) == FoundIndexes(found[..i]) + {found[i].index}
  {
    assert forall p :: 0 <= p < i ==> found[..i + 1][p] == found[..i][p];
  }

  /** The positions below `n` that are not in `seen`, in increasing order. */
  function Missing(seen: set<int>, n: nat): seq<int> {
    if n == 0 then []
    else Missing(seen, n - 1) + (if n - 1 in seen then [] else [n - 1])
  }

  /** The fuzzy ranks with their offsets unchanged (the loop at search.go:26-36). */
  function FuzzyRanks(found: seq<FuzzyMatch>): seq<Rank> {
    seq(|found|, p requires 0 <= p < |found| => Rank(found[p].index, found[p].matchedIndexes))
  }

  /** Ranks with no offsets for the given positions (the loop at search.go:39-44). */
  function EmptyRanks(indexes: seq<int>): seq<Rank> {
    seq(|indexes|, p requires 0 <= p < |indexes| => Rank(indexes[p], []))
  }

  /** The ranking `AltFilter` returns: fuzzy ranks first, then the missing positions. */
  function Completed(found: seq<FuzzyMatch>, n: nat): seq<Rank> {
    FuzzyRanks(found) + EmptyRanks(Missing(FoundIndexes(found), n))
  }

  lemma {:induction false} MissingMembers(seen: set<int>, n: nat)
    ensures forall x :: x in Missing(seen, n) <==> 0 <= x < n && x !in seen
    ensures forall p, q :: 0 <= p < q < |Missing(seen, n)| ==> Missing(seen, n)[p] < Missing(seen, n)[q]
    decreases n
  {
    if n > 0 {
      MissingMembers(seen, n - 1);
      var prev := Missing(seen, n - 1);
      if n - 1 !in seen {
        var m := prev + [n - 1];
        assert Missing(seen, n) == m;
        forall p, q | 0 <= p < q < |m| ensures m[p] < m[q] {
          if q == |prev| {
            assert m[p] in prev;
          }
        }
      }
    }
  }

  lemma {:induction false} MissingPrefix(seen: set<int>, i: nat, n: nat)
    requires i <= n
    ensures Missing(seen, i) <= Missing(seen, n)
    decreases n - i
  {
    if i < n {
      MissingPrefix(seen, i, n - 1);
    }
  }

  /** Below `n`, the missing positions and the seen ones together count `n`. */
  lemma {:induction false} MissingCount(seen: set<int>, n: nat)
    ensures |Missing(seen, n)| + |set x | x in seen && 0 <= x < n| == n
    decreases n
  {
    if n > 0 {
      MissingCount(seen, n - 1);
      var below := set x | x in seen && 0 <= x < n - 1;
      var upto := set x | x in seen && 0 <= x < n;
      if n - 1 in seen {
        assert upto == below + {n - 1};
      } else {
        assert upto == below;
      }
    }
  }

  /** Distinct indices: the fuzzy matcher ranked as many positions as it returned matches. */
  lemma {:induction false} FoundIndexesCount(found: seq<FuzzyMatch>)
    requires forall p, q :: 0 <= p < q < |found| ==> found[p].index != found[q].index
    ensures |FoundIndexes(found)| == |found|
    decreases |found|
  {
    if found != [] {
      var init := found[..|found| - 1];
      FoundIndexesCount(init);
      assert FoundIndexes(found) == FoundIndexes(init) + {found[|found| - 1].index};
      assert found[|found| - 1].index !in FoundIndexes(init);
    }
  }

  /** With distinct in-range indices, `fuzzy.Find` leaves exactly `n - |found|` positions missing. */
  lemma MissingLength(found: seq<FuzzyMatch>, n: nat)
    requires DistinctInRange(found, n)
    ensures |Missing(FoundIndexes(found), n)| == n - |found|
  {
    var seen := FoundIndexes(found);
    MissingCount(seen, n);
    assert (set x | x in seen && 0 <= x < n) == seen;
    FoundIndexesCount(found);
  }

  /** An array laid out as the fuzzy ranks followed by the missing positions holds `Completed`. */
  lemma CompletedFromParts(res: array<Rank>, found: seq<FuzzyMatch>, n: nat)
    requires res.Length == n == |found| + |Missing(FoundIndexes(found), n)|
    requires forall p :: 0 <= p < |found| ==> res[p] == Rank(found[p].index, found[p].matchedIndexes)
    requires forall p :: 0 <= p < n - |found| ==>
      res[|found| + p] == Rank(Missing(FoundIndexes(found), n)[p], [])
    ensures res[..] == Completed(found, n)
  {
    var c := Completed(found, n);
    forall p | 0 <= p < n ensures res[p] == c[p] {
      if p >= |found| {
        assert res[p] == res[|found| + (p - |found|)];
      }
    }
  }

  /**
    `AltFilter` with the ranks `found` that `fuzzy.Find(term, targets)`
    returned: the result has one rank per target; the fuzzy ranks come first,
    in fuzzy order with their offsets unchanged, followed by every position
    they miss, in increasing order and with no offsets.
   */
  method AltFilter(targets: seq<string>, found: seq<FuzzyMatch>) returns (result: seq<Rank>)
    requires DistinctInRange(found, |targets|)
    ensures result == Completed(found, |targets|)
    ensures |result| == |targets|
  {
    var n := |targets|;
    MissingLength(found, n);
    var itemMap: map<int, bool> := map[];
    var res := new Rank[n](_ => Rank(0, []));
    for i := 0 to |found|
      invariant forall p :: 0 <= p < i ==> res[p] == Rank(found[p].index, found[p].matchedIndexes)
      invariant itemMap.Keys == FoundIndexes(found[..i])
    {
      var k := found[i].matchedIndexes;
      for j := 0 to |k|
        invariant k == found[i].matchedIndexes
      {
        k := k[j := k[j]];
      }
      res[i] := Rank(found[i].index, k);
      itemMap := itemMap[found[i].index := true];
      FoundIndexesStep(found, i);
    }
    assert found[..|found|] == found;
    ghost var seen := itemMap.Keys;
    var j := 0;
    for i := 0 to n
      invariant j == |Missing(seen, i)| && |found| + j <= n
      invariant forall p :: 0 <= p < |found| ==> res[p] == Rank(found[p].index, found[p].matchedIndexes)
      invariant forall p :: 0 <= p < j ==> res[|found| + p] == Rank(Missing(seen, i)[p], [])
    {
      if i !in itemMap {
        assert Missing(seen, i + 1) == Missing(seen, i) + [i];
        MissingPrefix(seen, i + 1, n);
        res[j + |found|] := Rank(i, []);
        j := j + 1;
      } else {
        assert Missing(seen, i + 1) == Missing(seen, i);
      }
    }
    CompletedFromParts(res, found, n);
    result := res[..];
  }

  /**
    The completed ranking is a permutation of the target positions: every
    position in range appears exactly once.
   */
  lemma CompletedIsPermutation(found: seq<FuzzyMatch>, n: nat)
    requires DistinctInRange(found, n)
    ensures var r := Completed(found, n);
      && |r| == n
      && (forall p :: 0 <= p < n ==> 0 <= r[p].index < n)
      && (forall p, q :: 0 <= p < q < n ==> r[p].index != r[q].index)
      && (forall i :: 0 <= i < n ==> Ranked(r, i))
  {
    MissingLength(found, n);
    CompletedAt(found, n);
    MissingMembers(FoundIndexes(found), n);
    CompletedInRange(found, n);
    CompletedDistinct(found, n);
    CompletedCovers(found, n);
  }

  /**
    The layout of the completed ranking: the fuzzy ranks first, in fuzzy
    order with their offsets unchanged, then every unranked position in
    increasing order with no offsets.
   */
  lemma CompletedLayout(found: seq<FuzzyMatch>, n: nat)
    requires DistinctInRange(found, n)
    ensures var r := Completed(found, n); var m := |found|;
      && |r| == n && m <= n
      && (forall p :: 0 <= p < m ==> r[p] == Rank(found[p].index, found[p].matchedIndexes))
      && (forall p :: m <= p < n ==> r[p].matchedIndexes == [] && r[p].index !in FoundIndexes(found))
      && (forall p, q :: m <= p < q < n ==> r[p].index < r[q].index)
  {
    var r := Completed(found, n);
    var m := |found|;
    var miss := Missing(FoundIndexes(found), n);
    MissingLength(found, n);
    MissingUnseen(FoundIndexes(found), n);
    forall p | m <= p < n ensures r[p] == Rank(miss[p - m], []) {
    }
  }

  lemma CompletedInRange(found: seq<FuzzyMatch>, n: nat)
    requires DistinctInRange(found, n)
    requires |Completed(found, n)| == n
    ensures forall p :: 0 <= p < n ==> 0 <= Completed(found, n)[p].index < n
  {
    var miss := Missing(FoundIndexes(found), n);
    var r := Completed(found, n);
    var m := |found|;
    MissingMembers(FoundIndexes(found), n);
    CompletedAt(found, n);
    forall p | 0 <= p < n ensures 0 <= r[p].index < n {
      if p >= m {
        assert r[p].index == miss[p - m] && miss[p - m] in miss;
      }
    }
  }

  lemma CompletedDistinct(found: seq<FuzzyMatch>, n: nat)
    requires DistinctInRange(found, n)
    requires |Completed(found, n)| == n
    ensures forall p, q :: 0 <= p < q < n ==> Completed(found, n)[p].index != Completed(found, n)[q].index
  {
    var seen := FoundIndexes(found);
    var miss := Missing(seen, n);
    var r := Completed(found, n);
    var m := |found|;
    MissingUnseen(seen, n);
    CompletedAt(found, n);
    forall p, q | 0 <= p < q < n ensures r[p].index != r[q].index {
      if q < m {
      } else if p >= m {
        assert r[p].index == miss[p - m] && r[q].index == miss[q - m];
      } else {
        assert r[q].index == miss[q - m] && miss[q - m] !in seen;
        assert found[p].index in seen;
      }
    }
  }

  /** Pointwise: no missing position was seen, and the missing positions increase. */
  lemma MissingUnseen(seen: set<int>, n: nat)
    ensures forall k :: 0 <= k < |Missing(seen, n)| ==> Missing(seen, n)[k] !in seen
    ensures forall p, q :: 0 <= p < q < |Missing(seen, n)| ==> Missing(seen, n)[p] < Missing(seen, n)[q]
  {
    var miss := Missing(seen, n);
    MissingMembers(seen, n);
    forall k | 0 <= k < |miss| ensures miss[k] !in seen {
      assert miss[k] in miss;
    }
  }

  lemma CompletedCovers(found: seq<FuzzyMatch>, n: nat)
    ensures forall i :: 0 <= i < n ==> Ranked(Completed(found, n), i)
  {
    var seen := FoundIndexes(found);
    var miss := Missing(seen, n);
    var r := Completed(found, n);
    var m := |found|;
    MissingMembers(seen, n);
    CompletedAt(found, n);
    forall i | 0 <= i < n ensures Ranked(r, i) {
      if i in seen {
        var p :| 0 <= p < m && found[p].index == i;
        assert r[p].index == i;
      } else {
        assert i in miss;
        var k :| 0 <= k < |miss| && miss[k] == i;
        assert r[m + k].index == i;
      }
    }
  }

  /** Where each index of the completed ranking comes from. */
  lemma CompletedAt(found: seq<FuzzyMatch>, n: nat)
    ensures var r := Completed(found, n); var miss := Missing(FoundIndexes(found), n);
      && |r| == |found| + |miss|
      && (forall p :: 0 <= p < |found| ==> r[p].index == found[p].index)
      && (forall k :: 0 <= k < |miss| ==> r[|found| + k].index == miss[k])
  {
  }

}
