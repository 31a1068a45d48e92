/** Generated ids (src/strings.ts): slugs of a fixed shape, and fresh ones found by numbering candidates until one is not
    used. */
module GeneratedIds {
  import opened Digraph

  predicate IsAlpha(c: char)
  {
    'a' <= c <= 'z'
  }

  predicate IsIdChar(c: char)
  {
    IsAlpha(c) || '0' <= c <= '9'
  }

  function DropInvalid(s: string): (r: string)
    ensures |r| <= |s|
    ensures s != [] && !IsIdChar(s[0]) ==> |r| < |s|
  {
    if s == [] || IsIdChar(s[0]) then s else DropInvalid(s[1..])
  }

  /** Every run of other characters becomes one hyphen. */
  function Collapse(s: string): (r: string)
    ensures forall c | c in r :: IsIdChar(c) || c == '-'
    decreases |s|
  {
    if s == [] then []
    else if IsIdChar(s[0]) then [s[0]] + Collapse(s[1..])
    else "-" + Collapse(DropInvalid(s))
  }

  function TrimLeft(s: string): (r: string)
    ensures r != [] ==> r[0] != '-'
    ensures forall c | c in r :: c in s
  {
    if s != [] && s[0] == '-' then TrimLeft(s[1..]) else s
  }

  function TrimRight(s: string): (r: string)
    ensures r != [] ==> r[|r| - 1] != '-'
    ensures r <= s
  {
    if s != [] && s[|s| - 1] == '-' then TrimRight(s[..|s| - 1]) else s
  }

  /** The slug of a text that is already trimmed and in lower case. */
  function Slug(lowered: string): string
  {
    TrimRight(TrimLeft(Collapse(lowered)))
  }

  /** Starts with a letter, holds only lower-case letters, digits and hyphens, does not end in a hyphen. */
  predicate WellShaped(id: string)
  {
    && id != []
    && IsAlpha(id[0])
    && (forall c | c in id :: IsIdChar(c) || c == '-')
    && id[|id| - 1] != '-'
  }

  function GeneratedId(lowered: string, fallbackPrefix: string): string
  {
    var slug := Slug(lowered);
    if slug != [] && IsAlpha(slug[0]) then slug
    else if slug != [] then fallbackPrefix + "-" + slug
    else fallbackPrefix
  }

  lemma SlugShape(lowered: string)
    ensures var slug := Slug(lowered);
            (forall c | c in slug :: IsIdChar(c) || c == '-') &&
            (slug != [] ==> slug[|slug| - 1] != '-')
  {
    var left := TrimLeft(Collapse(lowered));
    forall c | c in Slug(lowered) ensures IsIdChar(c) || c == '-' {
      assert c in left;
    }
  }

  /** A generated id is well shaped whenever the fallback prefix is. */
  lemma GeneratedWellShaped(lowered: string, fallbackPrefix: string)
    requires WellShaped(fallbackPrefix)
    ensures WellShaped(GeneratedId(lowered, fallbackPrefix))
  {
    SlugShape(lowered);
    var slug, id := Slug(lowered), GeneratedId(lowered, fallbackPrefix);
    if slug != [] && !IsAlpha(slug[0]) {
      assert id[|id| - 1] == slug[|slug| - 1];
    }
  }

  // ---------------------------------------------------------------- the words of a text

  /** The length of the run of letters and digits that a text starts with. */
  function WordEnd(s: string): (n: nat)
    ensures n <= |s| && (forall i | 0 <= i < n :: IsIdChar(s[i])) && (n < |s| ==> !IsIdChar(s[n]))
  {
    if s == [] || !IsIdChar(s[0]) then 0 else 1 + WordEnd(s[1..])
  }

  predicate IsWord(w: string)
  {
    w != [] && forall i | 0 <= i < |w| :: IsIdChar(w[i])
  }

  /** The maximal runs of letters and digits, in order. */
  function Words(s: string): (words: seq<string>)
    ensures forall i | 0 <= i < |words| :: IsWord(words[i])
    decreases |s|
  {
    if s == [] then []
    else if !IsIdChar(s[0]) then Words(s[1..])
    else [s[..WordEnd(s)]] + Words(s[WordEnd(s)..])
  }

  function Hyphenated(words: seq<string>): string
  {
    if words == [] then "" else if |words| == 1 then words[0] else words[0] + "-" + Hyphenated(words[1..])
  }

  lemma {:induction false} CollapseWord(s: string)
    ensures Collapse(s) == s[..WordEnd(s)] + Collapse(s[WordEnd(s)..])
    decreases |s|
  {
    if s != [] && IsIdChar(s[0]) {
      CollapseWord(s[1..]);
      assert s[1..][WordEnd(s[1..])..] == s[WordEnd(s)..];
      assert s[..WordEnd(s)] == [s[0]] + s[1..][..WordEnd(s[1..])];
    }
  }

  lemma {:induction false} DropInvalidWords(s: string)
    ensures Words(DropInvalid(s)) == Words(s)
    ensures DropInvalid(s) != [] ==> IsIdChar(DropInvalid(s)[0])
    decreases |s|
  {
    if s != [] && !IsIdChar(s[0]) {
      DropInvalidWords(s[1..]);
    }
  }

  /** Collapsing a text that starts with a word joins its words, with a hyphen left over if it does not end in one. */
  lemma {:induction false} CollapseWords(s: string)
    requires s == [] || IsIdChar(s[0])
    ensures Collapse(s) == Hyphenated(Words(s)) || Collapse(s) == Hyphenated(Words(s)) + "-"
    decreases |s|
  {
    NoWords();
    if s != [] {
      var word, rest := s[..WordEnd(s)], s[WordEnd(s)..];
      CollapseWord(s);
      FirstWord(s);
      HyphenatedNext(word, Words(rest));
      if rest != [] {
        AfterWord(rest);
        var next := DropInvalid(rest);
        hide *;
        CollapseWords(next);
        WordThen(word, Collapse(next), Hyphenated(Words(rest)), Words(rest) == []);
      } else {
        assert word + "" == word;
      }
    }
  }

  lemma WordThen(word: string, collapsed: string, joined: string, none: bool)
    requires none ==> collapsed == ""
    requires collapsed == joined || collapsed == joined + "-"
    ensures var all := if none then word else word + "-" + joined;
            word + ("-" + collapsed) == all || word + ("-" + collapsed) == all + "-"
  {
    assert word + ("-" + (joined + "-")) == (word + "-" + joined) + "-";
  }

  lemma NoWords()
    ensures Words("") == [] && Collapse("") == "" && Hyphenated([]) == ""
  {
  }

  /** Behind a word there is nothing, or a hyphen and the next words. */
  lemma AfterWord(rest: string)
    requires rest != [] && !IsIdChar(rest[0])
    ensures |DropInvalid(rest)| < |rest| && Collapse(rest) == "-" + Collapse(DropInvalid(rest))
    ensures Words(DropInvalid(rest)) == Words(rest)
    ensures DropInvalid(rest) == [] || IsIdChar(DropInvalid(rest)[0])
    ensures Words(rest) == [] <==> DropInvalid(rest) == []
  {
    DropInvalidWords(rest);
    if DropInvalid(rest) != [] {
      FirstWord(DropInvalid(rest));
    }
  }

  lemma FirstWord(s: string)
    requires s != [] && IsIdChar(s[0])
    ensures Words(s) == [s[..WordEnd(s)]] + Words(s[WordEnd(s)..])
    ensures s[WordEnd(s)..] != [] ==> !IsIdChar(s[WordEnd(s)..][0])
  {
  }

  lemma HyphenatedNext(word: string, words: seq<string>)
    ensures Hyphenated([word] + words) == if words == [] then word else word + "-" + Hyphenated(words)
  {
    assert ([word] + words)[1..] == words;
  }

  lemma {:induction false} HyphenatedEnds(words: seq<string>)
    requires words != [] && forall i | 0 <= i < |words| :: IsWord(words[i])
    ensures var r := Hyphenated(words);
            r != [] && words[0] != [] && r[0] == words[0][0] && r[0] != '-' && r[|r| - 1] != '-'
    decreases |words|
  {
    if |words| > 1 {
      HyphenatedEnds(words[1..]);
    }
  }

  lemma TrimEnds(s: string)
    requires s != [] ==> s[0] != '-' && s[|s| - 1] != '-'
    ensures TrimLeft(s) == TrimLeft("-" + s) == s && TrimRight(s) == TrimRight(s + "-") == s
  {
    LeftEnd(s);
    RightEnd(s);
    hide *;
  }

  lemma LeftEnd(s: string)
    requires s != [] ==> s[0] != '-'
    ensures TrimLeft(s) == TrimLeft("-" + s) == s
  {
    hide TrimRight;
    assert ("-" + s)[1..] == s;
  }

  lemma RightEnd(s: string)
    requires s != [] ==> s[|s| - 1] != '-'
    ensures TrimRight(s) == TrimRight(s + "-") == s
  {
    hide TrimLeft;
    assert (s + "-")[..|s|] == s;
  }

  /** The slug of a text is its words joined by single hyphens. */
  lemma SlugIsWords(lowered: string)
    ensures Slug(lowered) == Hyphenated(Words(lowered))
  {
    var start := DropInvalid(lowered);
    DropInvalidWords(lowered);
    CollapseWords(start);
    var slug := Hyphenated(Words(lowered));
    if Words(lowered) != [] {
      HyphenatedEnds(Words(lowered));
    }
    assert Collapse(lowered) == Collapse(start) || Collapse(lowered) == "-" + Collapse(start);
    TrimEnds(slug);
    assert TrimLeft(Collapse(lowered)) == slug || TrimLeft(Collapse(lowered)) == slug + "-" by {
      LeftOfHyphen(slug);
    }
  }

  lemma LeftOfHyphen(s: string)
    requires s != [] ==> s[0] != '-'
    ensures TrimLeft(s + "-") == if s == [] then "" else s + "-"
    ensures TrimLeft("-" + s + "-") == if s == [] then "" else s + "-"
  {
    assert ("-" + s + "-")[1..] == s + "-";
    assert (s + "-")[1..] == s[..0] || s != [];
  }

  /** Which id a text yields: its words joined by hyphens if the first starts with a letter, the same behind the fallback
      prefix if it starts with a digit, and the prefix alone if there is no word. */
  lemma GeneratedExactly(lowered: string, fallbackPrefix: string)
    ensures var words, id := Words(lowered), GeneratedId(lowered, fallbackPrefix);
            && (words == [] ==> id == fallbackPrefix)
            && (words != [] ==> id == (if IsAlpha(words[0][0]) then "" else fallbackPrefix + "-") + Hyphenated(words))
  {
    hide Slug, Words;
    SlugIsWords(lowered);
    if Words(lowered) != [] {
      HyphenatedEnds(Words(lowered));
    }
  }

  /** Letters and digits, with single hyphens between them. */
  ghost predicate SingleHyphens(s: string)
  {
    forall i | 0 <= i < |s| ::
      IsIdChar(s[i]) || (s[i] == '-' && 0 < i < |s| - 1 && IsIdChar(s[i - 1]) && IsIdChar(s[i + 1]))
  }

  lemma AfterHyphen(s: string, n: nat)
    requires SingleHyphens(s) && n < |s| && !IsIdChar(s[n])
    ensures var rest := s[n + 1..];
            SingleHyphens(rest) && rest != [] && IsIdChar(rest[0]) && s == s[..n] + "-" + rest && Words(s[n..]) == Words(rest)
  {
    var rest := s[n + 1..];
    assert s[n..][1..] == rest && rest[0] == s[n + 1];
    forall i | 0 <= i < |rest|
      ensures IsIdChar(rest[i]) ||
              (rest[i] == '-' && 0 < i < |rest| - 1 && IsIdChar(rest[i - 1]) && IsIdChar(rest[i + 1]))
    {
      assert rest[i] == s[n + 1 + i];
    }
  }

  lemma {:induction false} HyphenatedWords(s: string)
    requires SingleHyphens(s) && s != [] && IsIdChar(s[0])
    ensures Hyphenated(Words(s)) == s && Words(s) != []
    decreases |s|
  {
    var n := WordEnd(s);
    FirstWord(s);
    HyphenatedNext(s[..n], Words(s[n..]));
    if n == |s| {
      assert s[n..] == [] && s[..n] == s;
    } else {
      AfterHyphen(s, n);
      hide SingleHyphens, WordEnd, Words, Hyphenated;
      HyphenatedWords(s[n + 1..]);
    }
  }

  /** A well-shaped text whose hyphens stand singly keeps its text. */
  lemma ShapedKept(id: string, fallbackPrefix: string)
    requires WellShaped(id) && SingleHyphens(id)
    ensures GeneratedId(id, fallbackPrefix) == id
  {
    hide GeneratedId, SingleHyphens;
    GeneratedExactly(id, fallbackPrefix);
    HyphenatedWords(id);
    HyphenatedEnds(Words(id));
  }

  // ---------------------------------------------------------------- numbering

  function Digit(n: nat): char
    requires n < 10
  {
    '0' + n as char
  }

  function Digits(n: nat): (r: string)
    ensures r != [] && forall c | c in r :: '0' <= c <= '9'
  {
    if n < 10 then [Digit(n)] else Digits(n / 10) + [Digit(n % 10)]
  }

  function ValueOf(s: string): int
  {
    if s == [] then 0 else 10 * ValueOf(s[..|s| - 1]) + (s[|s| - 1] as int - '0' as int)
  }

  lemma {:induction false} DigitsValue(n: nat)
    ensures ValueOf(Digits(n)) == n
    decreases n
  {
    if n < 10 {
      assert [Digit(n)][..0] == [];
    } else {
      DigitsValue(n / 10);
      assert Digits(n)[..|Digits(n)| - 1] == Digits(n / 10);
    }
  }

  /** The k-th id tried: the base itself, then `base-2`, `base-3`, and so on. */
  function Candidate(base: string, k: nat): string
  {
    if k == 0 then base else base + "-" + Digits(k + 1)
  }

  lemma {:induction false} DigitsLead(n: nat)
    requires n > 0
    ensures Digits(n)[0] != '0'
    decreases n
  {
    if n >= 10 {
      DigitsLead(n / 10);
    }
  }

  /** A later candidate ends in a decimal number without leading zeros, which counts from two. */
  lemma CandidateMeans(base: string, k: nat)
    ensures Candidate(base, 0) == base
    ensures base + "-" < Candidate(base, k + 1)
    ensures var number := Candidate(base, k + 1)[|base| + 1..];
            ValueOf(number) == k + 2 && number[0] != '0' && forall c | c in number :: '0' <= c <= '9'
  {
    assert Candidate(base, k + 1)[|base| + 1..] == Digits(k + 2);
    DigitsValue(k + 2);
    DigitsLead(k + 2);
  }

  lemma CandidatesDiffer(base: string, i: nat, k: nat)
    requires Candidate(base, i) == Candidate(base, k)
    ensures i == k
  {
    if i > 0 && k > 0 {
      assert Digits(i + 1) == Candidate(base, i)[|base| + 1..];
      assert Digits(k + 1) == Candidate(base, k)[|base| + 1..];
      DigitsValue(i + 1);
      DigitsValue(k + 1);
    }
  }

  lemma CandidateWellShaped(base: string, k: nat)
    requires WellShaped(base)
    ensures WellShaped(Candidate(base, k))
  {
    if k > 0 {
      var id, digits := Candidate(base, k), Digits(k + 1);
      assert id[|id| - 1] == digits[|digits| - 1];
      assert forall c | c in id :: c in base || c == '-' || c in digits;
    }
  }

  ghost function Tried(base: string, k: nat): set<string>
  {
    set i | 0 <= i < k :: Candidate(base, i)
  }

  lemma {:induction false} TriedSize(base: string, k: nat)
    ensures |Tried(base, k)| == k
    decreases k
  {
    if k > 0 {
      TriedSize(base, k - 1);
      forall i | 0 <= i < k - 1 ensures Candidate(base, i) != Candidate(base, k - 1) {
        if Candidate(base, i) == Candidate(base, k - 1) {
          CandidatesDiffer(base, i, k - 1);
        }
      }
      assert Tried(base, k) == Tried(base, k - 1) + {Candidate(base, k - 1)};
      assert Candidate(base, k - 1) !in Tried(base, k - 1);
    }
  }

  /** As many distinct candidates as there are used ids cannot all be used, and one more. */
  lemma TriedBound(base: string, k: nat, used: set<string>)
    requires Tried(base, k) <= used
    ensures k <= |used|
  {
    TriedSize(base, k);
    SubsetSizeLe(Tried(base, k), used);
  }

  /** The first candidate not in use, found within one try more than there are used ids; it is reserved. */
  method UniqueGeneratedId(lowered: string, usedIds: set<string>, fallbackPrefix: string)
    returns (candidate: string, reserved: set<string>, ghost tries: nat)
    ensures candidate !in usedIds && reserved == usedIds + {candidate}
    ensures candidate == Candidate(GeneratedId(lowered, fallbackPrefix), tries) && tries <= |usedIds|
    ensures forall i | 0 <= i < tries :: Candidate(GeneratedId(lowered, fallbackPrefix), i) in usedIds
  {
    hide GeneratedId, Digits;
    var base := GeneratedId(lowered, fallbackPrefix);
    candidate := base;
    var suffix := 2;
    tries := 0;
    TriedBound(base, 0, usedIds);
    while candidate in usedIds
      invariant suffix == tries + 2
      invariant candidate == Candidate(base, tries)
      invariant Tried(base, tries) <= usedIds && tries <= |usedIds|
      decreases |usedIds| - tries
    {
      assert Tried(base, tries + 1) == Tried(base, tries) + {candidate};
      candidate := base + "-" + Digits(suffix);
      suffix := suffix + 1;
      tries := tries + 1;
      TriedBound(base, tries, usedIds);
    }
    forall i | 0 <= i < tries ensures Candidate(base, i) in usedIds {
      assert Candidate(base, i) in Tried(base, tries);
    }
    reserved := usedIds + {candidate};
  }
}
