/** Text as lines: splitting and joining at line feeds, and white space trimming as ECMA-262 defines it. Splitting and
    joining are inverse to each other, and trimming the end of a text is dropping its blank last lines and trimming the
    end of the line before them. */
module TextLines {

  /** The characters that `trim` and `\s` treat as white space (ECMA-262, WhiteSpace and LineTerminator). */
  predicate Space(c: char)
  {
    || c == '\t' || c == '\n' || c == '\U{0B}' || c == '\U{0C}' || c == '\r' || c == ' '
    || c == '\U{A0}' || c == '\U{1680}' || '\U{2000}' <= c <= '\U{200A}' || c == '\U{2028}' || c == '\U{2029}'
    || c == '\U{202F}' || c == '\U{205F}' || c == '\U{3000}' || c == '\U{FEFF}'
  }

  function TrimEnd(s: string): (r: string)
    ensures r <= s && (r != "" ==> !Space(r[|r| - 1]))
    ensures forall i | |r| <= i < |s| :: Space(s[i])
  {
    if s == "" || !Space(s[|s| - 1]) then s else TrimEnd(s[..|s| - 1])
  }

  function TrimStart(s: string): (r: string)
    ensures |r| <= |s| && (r != "" ==> !Space(r[0]))
  {
    if s == "" || !Space(s[0]) then s else TrimStart(s[1..])
  }

  function Trim(s: string): string
  {
    TrimEnd(TrimStart(s))
  }

  lemma TrimEndUnique(s: string, r: string)
    requires r <= s && (r != "" ==> !Space(r[|r| - 1])) && forall i | |r| <= i < |s| :: Space(s[i])
    ensures TrimEnd(s) == r
  {
    hide Space;
    var t := TrimEnd(s);
    assert r != "" ==> r[|r| - 1] == s[|r| - 1];
    assert t != "" ==> t[|t| - 1] == s[|t| - 1];
  }

  lemma TrimEndTwice(s: string)
    ensures TrimEnd(TrimEnd(s)) == TrimEnd(s)
  {
  }

  /** What `trim` leaves is the same when the end was trimmed before. */
  lemma {:induction false} TrimOfTrimEnd(s: string)
    ensures Trim(TrimEnd(s)) == Trim(s)
    decreases |s|
  {
    hide Space;
    if s != "" && Space(s[0]) {
      TrimOfTrimEnd(s[1..]);
      TrimEndTail(s);
    } else {
      TrimEndTwice(s);
    }
  }

  lemma TrimEndTail(s: string)
    requires s != ""
    ensures TrimEnd(s) != "" ==> TrimEnd(s)[0] == s[0] && TrimEnd(s)[1..] == TrimEnd(s[1..])
    ensures TrimEnd(s) == "" ==> TrimEnd(s[1..]) == ""
  {
    hide Space;
    var r := TrimEnd(s);
    if r != "" {
      assert r[1..] <= s[1..];
      TrimEndUnique(s[1..], r[1..]);
    } else {
      TrimEndUnique(s[1..], "");
    }
  }

  lemma TrimSolid(s: string)
    requires s != "" && !Space(s[0]) && !Space(s[|s| - 1])
    ensures Trim(s) == s
  {
  }

  /** Outside `a..b` there is only white space. */
  ghost predicate Holds(s: string, a: int, b: int)
  {
    0 <= a <= b <= |s| && (forall i | 0 <= i < a :: Space(s[i])) && (forall i | b <= i < |s| :: Space(s[i]))
  }

  lemma {:induction false} TrimStartDrops(s: string)
    ensures TrimStart(s) == s[|s| - |TrimStart(s)|..] && forall i | 0 <= i < |s| - |TrimStart(s)| :: Space(s[i])
    decreases |s|
  {
    if s != "" && Space(s[0]) {
      TrimStartDrops(s[1..]);
    }
  }

  /** What `trim` leaves: the text from its first to its last character that is no white space. */
  lemma TrimMeans(s: string) returns (a: int, b: int)
    ensures Holds(s, a, b) && Trim(s) == s[a..b] && (a < b ==> !Space(s[a]) && !Space(s[b - 1]))
  {
    hide Space;
    TrimStartDrops(s);
    var t := TrimStart(s);
    var r := TrimEnd(t);
    a, b := |s| - |t|, |s| - |t| + |r|;
    TrimmedSlice(s, t, r, a, b);
  }

  lemma TrimmedSlice(s: string, t: string, r: string, a: int, b: int)
    requires 0 <= a <= b <= |s| && t == s[a..] && r <= t && |r| == b - a
    ensures r == s[a..b] && (forall i | b <= i < |s| :: s[i] == t[i - a])
    ensures a < b ==> s[a] == r[0] && s[b - 1] == r[|r| - 1]
  {
    assert r == t[..|r|];
  }

  lemma TrimUnique(s: string, a: int, b: int)
    requires Holds(s, a, b) && a < b && !Space(s[a]) && !Space(s[b - 1])
    ensures Trim(s) == s[a..b]
  {
    hide Space, Trim;
    var x, y := TrimMeans(s);
    assert x == a && y == b;
  }

  /** A text trims to a given one, without white space at its ends, exactly when it is that one between white space. */
  lemma TrimsTo(s: string, t: string)
    requires t != "" && !Space(t[0]) && !Space(t[|t| - 1])
    ensures Trim(s) == t <==> exists a, b :: Holds(s, a, b) && s[a..b] == t
  {
    hide Space, Trim;
    var x, y := TrimMeans(s);
    if a, b :| Holds(s, a, b) && s[a..b] == t {
      assert s[a] == t[0] && s[b - 1] == t[|t| - 1];
      TrimUnique(s, a, b);
    }
  }

  lemma TrimEndAppend(a: string, b: string)
    ensures TrimEnd(a + b) == if TrimEnd(b) == "" then TrimEnd(a) else a + TrimEnd(b)
  {
    var r := if TrimEnd(b) == "" then TrimEnd(a) else a + TrimEnd(b);
    assert r <= a + b;
    TrimEndUnique(a + b, r);
  }

  // ---------------------------------------------------------------- lines

  /** `text.split("\n")` */
  function Split(text: string): (lines: seq<string>)
    ensures lines != []
  {
    if text == "" then [""]
    else
      var init, last := Split(text[..|text| - 1]), text[|text| - 1];
      if last == '\n' then init + [""]
      else init[..|init| - 1] + [init[|init| - 1] + [last]]
  }

  /** `lines.join("\n")` */
  function Join(lines: seq<string>): string
  {
    if lines == [] then ""
    else if |lines| == 1 then lines[0]
    else Join(lines[..|lines| - 1]) + "\n" + lines[|lines| - 1]
  }

  predicate Plain(line: string)
  {
    '\n' !in line
  }

  predicate AllPlain(lines: seq<string>)
  {
    forall l | l in lines :: Plain(l)
  }

  lemma {:induction false} SplitPlain(text: string)
    ensures AllPlain(Split(text))
    decreases |text|
  {
    if text != "" {
      SplitPlain(text[..|text| - 1]);
      var init, last := Split(text[..|text| - 1]), text[|text| - 1];
      assert init[|init| - 1] in init;
      forall l | l in Split(text) ensures Plain(l) {
        assert last == '\n' || l in init || l == init[|init| - 1] + [last];
      }
    }
  }

  lemma {:induction false} JoinSplit(text: string)
    ensures Join(Split(text)) == text
    decreases |text|
  {
    if text != "" {
      var init, last := Split(text[..|text| - 1]), text[|text| - 1];
      JoinSplit(text[..|text| - 1]);
      if last == '\n' {
        assert (init + [""])[..|init|] == init;
      } else {
        LastLine(init, [last]);
      }
    }
  }

  lemma LastLine(lines: seq<string>, more: string)
    requires lines != []
    ensures Join(lines[..|lines| - 1] + [lines[|lines| - 1] + more]) == Join(lines) + more
  {
    hide Join;
    var init, last := lines[..|lines| - 1], lines[|lines| - 1];
    assert lines == init + [last];
    JoinSnoc(init, last);
    JoinSnoc(init, last + more);
    if init != [] {
      Associate(Join(init) + "\n", last, more);
    }
  }

  lemma Associate(a: string, b: string, c: string)
    ensures a + (b + c) == a + b + c
  {
  }

  lemma JoinSnoc(init: seq<string>, last: string)
    ensures Join(init + [last]) == if init == [] then last else Join(init) + "\n" + last
  {
    assert (init + [last])[..|init|] == init;
  }

  lemma SplitChar(text: string, c: char)
    requires c != '\n'
    ensures var lines := Split(text); Split(text + [c]) == lines[..|lines| - 1] + [lines[|lines| - 1] + [c]]
  {
    assert (text + [c])[..|text|] == text;
  }

  lemma {:induction false} SplitMore(text: string, more: string)
    requires Plain(more)
    ensures var lines := Split(text);
            Split(text + more) == lines[..|lines| - 1] + [lines[|lines| - 1] + more]
    decreases |more|
  {
    hide Split;
    if more == "" {
      assert text + more == text && Split(text)[|Split(text)| - 1] + "" == Split(text)[|Split(text)| - 1];
    } else {
      var init, c := more[..|more| - 1], more[|more| - 1];
      assert c in more;
      SplitMore(text, init);
      SplitChar(text + init, c);
      var lines, shorter := Split(text), Split(text + init);
      assert text + init + [c] == text + more;
      assert shorter[..|shorter| - 1] == lines[..|lines| - 1];
      assert shorter[|shorter| - 1] + [c] == lines[|lines| - 1] + more;
    }
  }

  lemma SplitBreak(text: string)
    ensures Split(text + "\n") == Split(text) + [""]
  {
    assert (text + "\n")[..|text|] == text;
  }

  /** Splitting a join gives the lines back. */
  lemma {:induction false} SplitJoin(lines: seq<string>)
    requires lines != [] && AllPlain(lines)
    ensures Split(Join(lines)) == lines
    decreases |lines|
  {
    var init, last := lines[..|lines| - 1], lines[|lines| - 1];
    assert last in lines && "" + last == last;
    if init == [] {
      assert Split("") == [""];
      SplitMore("", last);
    } else {
      hide Split, Plain;
      SplitJoin(init);
      SplitBreak(Join(init));
      SplitMore(Join(init) + "\n", last);
      assert (init + [""])[..|init|] == init;
    }
  }

  lemma {:induction false} JoinAppend(a: seq<string>, b: seq<string>)
    requires a != [] && b != []
    ensures Join(a + b) == Join(a) + "\n" + Join(b)
    decreases |b|
  {
    var init := b[..|b| - 1];
    assert (a + b)[..|a + b| - 1] == a + init;
    if init == [] {
      assert a + init == a;
    } else {
      JoinAppend(a, init);
    }
  }

  // ---------------------------------------------------------------- trimming a text's end, line by line

  /** The lines of a text whose end was trimmed. */
  function TrimLines(lines: seq<string>): (r: seq<string>)
    requires lines != []
    ensures r != [] && |r| <= |lines|
    ensures r[..|r| - 1] == lines[..|r| - 1] && r[|r| - 1] == TrimEnd(lines[|r| - 1])
    ensures forall i | |r| <= i < |lines| :: TrimEnd(lines[i]) == ""
    ensures |r| > 1 ==> r[|r| - 1] != ""
  {
    var init, last := lines[..|lines| - 1], TrimEnd(lines[|lines| - 1]);
    if last == "" && init != [] then TrimLines(init) else init + [last]
  }

  lemma {:induction false} TrimEndLines(lines: seq<string>)
    requires lines != []
    ensures TrimEnd(Join(lines)) == Join(TrimLines(lines))
    decreases |lines|
  {
    var init, last := lines[..|lines| - 1], lines[|lines| - 1];
    if init != [] {
      TrimEndLines(init);
      TrimEndAppend(Join(init) + "\n", last);
      TrimEndAppend(Join(init), "\n");
      assert (init + [TrimEnd(last)])[..|init|] == init;
    }
  }

  lemma TrimLinesPlain(lines: seq<string>)
    requires lines != [] && AllPlain(lines)
    ensures AllPlain(TrimLines(lines))
  {
    var r := TrimLines(lines);
    forall i | 0 <= i < |r| ensures Plain(r[i]) {
      assert lines[i] in lines;
    }
  }

  lemma TrimLinesTwice(lines: seq<string>)
    requires lines != []
    ensures TrimLines(TrimLines(lines)) == TrimLines(lines)
  {
    TrimEndTwice(lines[|TrimLines(lines)| - 1]);
  }
}
