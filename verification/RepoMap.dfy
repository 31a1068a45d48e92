/** The repository map's ranking and token budget (src/context/repo-map.ts): the binary search over prefixes, and where
    symbols that match a seed stand. */
module RepoMap {

  datatype Symbol = Symbol(path: string, name: string, firstLine: int, matchedSeed: bool, score: real)

  datatype Definition = Definition(path: string, name: string, startLine: int)

  const SEED_BONUS := 1.0

  function ToSymbol(def: Definition, matchedSeed: bool, pageRankScore: real): Symbol
  {
    Symbol(def.path, def.name, def.startLine, matchedSeed, pageRankScore + if matchedSeed then SEED_BONUS else 0.0)
  }

  /** How ties between scores are broken. */
  function CompareNames(locale: (string, string) -> int, a: Symbol, b: Symbol): int
  {
    if locale(a.path, b.path) != 0 then locale(a.path, b.path)
    else if locale(a.name, b.name) != 0 then locale(a.name, b.name)
    else a.firstLine - b.firstLine
  }

  /** `localeCompare` is a parameter. The result's sign is what counts. */
  function CompareSymbols(locale: (string, string) -> int, a: Symbol, b: Symbol): int
  {
    if a.score > b.score then -1
    else if a.score < b.score then 1
    else CompareNames(locale, a, b)
  }

  ghost predicate Ranked(locale: (string, string) -> int, ranked: seq<Symbol>)
  {
    forall i, j :: 0 <= i < j < |ranked| ==> CompareSymbols(locale, ranked[i], ranked[j]) <= 0
  }

  /** The estimate of the context that shows the first `n` symbols fits. */
  predicate Fits(ranked: seq<Symbol>, budget: int, estimate: seq<Symbol> -> int, n: nat)
    requires n <= |ranked|
  {
    estimate(ranked[..n]) <= budget
  }

  /** What the search finds for any estimate at all: a prefix that fits unless it is empty, and whose extension by
      one symbol does not fit. */
  method SelectWithinBudget(ranked: seq<Symbol>, budget: int, estimate: seq<Symbol> -> int) returns (selected: seq<Symbol>)
    ensures selected <= ranked
    ensures selected != [] ==> Fits(ranked, budget, estimate, |selected|)
    ensures |selected| < |ranked| ==> !Fits(ranked, budget, estimate, |selected| + 1) || !Fits(ranked, budget, estimate, 0)
    ensures Monotone(ranked, estimate) ==> Longest(ranked, budget, estimate, |selected|)
  {
    var low, high, best := 0, |ranked|, 0;
    while low <= high
      invariant 0 <= low <= high + 1 <= |ranked| + 1
      invariant best == (if low == 0 then 0 else low - 1)
      invariant low > 0 ==> Fits(ranked, budget, estimate, best)
      invariant high < |ranked| ==> !Fits(ranked, budget, estimate, high + 1)
    {
      var mid := (low + high) / 2;
      if estimate(ranked[..mid]) <= budget {
        best := mid;
        low := mid + 1;
      } else {
        high := mid - 1;
      }
    }
    selected := ranked[..best];
    if Monotone(ranked, estimate) {
      FoundLongest(ranked, budget, estimate, best, high);
    }
  }

  /** Longer contexts never have smaller estimates. */
  ghost predicate Monotone(ranked: seq<Symbol>, estimate: seq<Symbol> -> int)
  {
    forall m, n :: 0 <= m <= n <= |ranked| ==> estimate(ranked[..m]) <= estimate(ranked[..n])
  }

  /** `n` is the longest prefix that fits, and zero when none does. */
  ghost predicate Longest(ranked: seq<Symbol>, budget: int, estimate: seq<Symbol> -> int, n: nat)
  {
    && n <= |ranked|
    && (n > 0 ==> Fits(ranked, budget, estimate, n))
    && (forall m :: n < m <= |ranked| ==> !Fits(ranked, budget, estimate, m))
  }

  lemma FoundLongest(ranked: seq<Symbol>, budget: int, estimate: seq<Symbol> -> int, best: nat, high: int)
    requires Monotone(ranked, estimate)
    requires -1 <= high <= |ranked| && best == (if high < 0 then 0 else high)
    requires high >= 0 ==> Fits(ranked, budget, estimate, best)
    requires high < |ranked| ==> !Fits(ranked, budget, estimate, high + 1)
    ensures Longest(ranked, budget, estimate, best)
  {
    forall m | best < m <= |ranked| ensures !Fits(ranked, budget, estimate, m) {
      assert estimate(ranked[..high + 1]) <= estimate(ranked[..m]);
    }
  }

  /** The symbols are the definitions with their ranks; every rank is below one. */
  ghost predicate Scored(ranked: seq<Symbol>)
  {
    forall s | s in ranked ::
      exists def: Definition, rank: real :: 0.0 <= rank < 1.0 && s == ToSymbol(def, s.matchedSeed, rank)
  }

  lemma ScoresDescend(locale: (string, string) -> int, ranked: seq<Symbol>)
    requires Ranked(locale, ranked)
    ensures forall i, j :: 0 <= i < j < |ranked| ==> ranked[i].score >= ranked[j].score
  {
    forall i, j | 0 <= i < j < |ranked| ensures ranked[i].score >= ranked[j].score {
      assert CompareSymbols(locale, ranked[i], ranked[j]) <= 0;
    }
  }

  /** A selected symbol that matches no seed implies that every symbol matching a seed is selected. */
  lemma SeedsFirst(locale: (string, string) -> int, ranked: seq<Symbol>, selected: seq<Symbol>, s: Symbol, seed: Symbol)
    requires Ranked(locale, ranked) && Scored(ranked) && selected <= ranked
    requires s in selected && !s.matchedSeed && seed in ranked && seed.matchedSeed
    ensures seed in selected
  {
    var i :| 0 <= i < |selected| && selected[i] == s;
    var j :| 0 <= j < |ranked| && ranked[j] == seed;
    assert ranked[i] == s && s in ranked;
    assert s.score < 1.0 && seed.score >= 1.0;
    ScoresDescend(locale, ranked);
    assert j < i;
    assert selected[j] == ranked[j];
  }

  /** The order of two symbols of equal score: by path, then by name, then by line. */
  ghost predicate NotAfter(locale: (string, string) -> int, a: Definition, b: Definition)
  {
    && locale(a.path, b.path) <= 0
    && (locale(a.path, b.path) == 0 ==> locale(a.name, b.name) <= 0)
    && (locale(a.path, b.path) == 0 && locale(a.name, b.name) == 0 ==> a.startLine <= b.startLine)
  }

  /** The comparator puts the higher score first, and otherwise goes by path, name and line. */
  lemma ComparesExactly(locale: (string, string) -> int, a: Definition, b: Definition, aSeeded: bool, bSeeded: bool,
      aRank: real, bRank: real)
    ensures var x, y := aRank + (if aSeeded then 1.0 else 0.0), bRank + (if bSeeded then 1.0 else 0.0);
            CompareSymbols(locale, ToSymbol(a, aSeeded, aRank), ToSymbol(b, bSeeded, bRank)) <= 0 <==>
            x > y || (x == y && NotAfter(locale, a, b))
  {
  }

  /** Of two symbols with the same claim to a seed, the higher rank comes first; at equal ranks paths, names and lines
      decide. */
  lemma RankPlacement(locale: (string, string) -> int, ranked: seq<Symbol>, seeded: bool, first: Definition,
      firstRank: real, second: Definition, secondRank: real, i: nat, j: nat)
    requires Ranked(locale, ranked) && i < j < |ranked|
    requires ranked[i] == ToSymbol(first, seeded, firstRank) && ranked[j] == ToSymbol(second, seeded, secondRank)
    ensures firstRank >= secondRank && (firstRank == secondRank ==> NotAfter(locale, first, second))
  {
    assert CompareSymbols(locale, ranked[i], ranked[j]) <= 0;
  }

  /** Where a seed and another symbol stand, for any ranks: the seed comes first exactly when the other symbol's rank does
      not exceed its own by one; at a difference of just one, paths, names and lines decide. */
  lemma SeedPlacement(locale: (string, string) -> int, ranked: seq<Symbol>, plain: Definition, rank: real,
      seed: Definition, seedRank: real, i: nat, j: nat)
    requires Ranked(locale, ranked) && i < |ranked| && j < |ranked|
    requires ranked[i] == ToSymbol(plain, false, rank) && ranked[j] == ToSymbol(seed, true, seedRank)
    ensures rank < seedRank + 1.0 ==> j < i
    ensures rank > seedRank + 1.0 ==> i < j
    ensures rank == seedRank + 1.0 ==> if j < i then NotAfter(locale, seed, plain) else NotAfter(locale, plain, seed)
  {
    ScoresDescend(locale, ranked);
    if j < i {
      assert CompareSymbols(locale, ranked[j], ranked[i]) <= 0;
    } else {
      assert i < j && CompareSymbols(locale, ranked[i], ranked[j]) <= 0;
    }
  }
}
