/** The fixed lines of a Codex configuration, and the removal of a section (src/codex-config.ts). A removal is compared
    with any reading that says of each line whether it opens the section, opens another table, or belongs to the table
    before it, and with the reading that goes by the line alone and ignores a comment behind a header. */
module CodexSections {
  import opened TextLines

  function Prefix(): string { "[mcp_servers." }
  function ServerId(): string { "pipeline-gateway" }
  function Suffix(): string { ".env_http_headers]" }
  function Gateway(): string { Prefix() + ServerId() + "]" }
  function GatewayHeaders(): string { Prefix() + ServerId() + Suffix() }
  function Features(): string { "[features]" }
  function Hooks(): string { "hooks" }
  function HooksTrue(): string { "hooks = true" }

  /** All that is needed of a fixed line: its ends, its length, and that it is one line. */
  predicate Token(s: string, first: char, last: char, length: nat)
  {
    |s| == length > 0 && s[0] == first && s[length - 1] == last && Plain(s)
  }

  lemma PrefixToken()
    ensures Token(Prefix(), '[', '.', 13) && Prefix()[1] == 'm'
  {
  }

  lemma ServerIdToken()
    ensures Token(ServerId(), 'p', 'y', 16)
  {
  }

  lemma SuffixToken()
    ensures Token(Suffix(), '.', ']', 18)
  {
  }

  lemma PlainAppend(a: string, b: string)
    requires Plain(a) && Plain(b)
    ensures Plain(a + b)
  {
  }

  lemma GatewayToken()
    ensures Token(Gateway(), '[', ']', 30) && Gateway()[1] == 'm'
  {
    hide Prefix, ServerId, Suffix;
    PrefixToken();
    ServerIdToken();
    assert Plain("]");
    PlainAppend(Prefix(), ServerId());
    PlainAppend(Prefix() + ServerId(), "]");
  }

  lemma GatewayHeadersToken()
    ensures Token(GatewayHeaders(), '[', ']', 47) && GatewayHeaders()[1] == 'm'
  {
    hide Prefix, ServerId, Suffix;
    PrefixToken();
    ServerIdToken();
    SuffixToken();
    PlainAppend(Prefix(), ServerId());
    PlainAppend(Prefix() + ServerId(), Suffix());
  }

  lemma FeaturesToken()
    ensures Token(Features(), '[', ']', 10)
  {
  }

  lemma HooksToken()
    ensures Token(HooksTrue(), 'h', 'e', 12) && Token(Hooks(), 'h', 's', 5)
    ensures HooksTrue()[6] == '=' && HooksTrue()[..6] == Hooks() + " "
  {
  }

  lemma TokenTrims(s: string, first: char, last: char, length: nat)
    requires Token(s, first, last, length) && !Space(first) && !Space(last)
    ensures Trim(s) == s && TrimEnd(s) == s
  {
    hide Trim, TrimEnd, Plain, Space;
    TrimSolid(s);
    TrimEndUnique(s, s);
  }

  lemma Printable()
    ensures !Space('[') && !Space(']') && !Space('h') && !Space('e') && !Space('s') && !Space('=') && !Space('#')
    ensures !Space('x') && Space(' ')
  {
  }

  lemma TrimNothing()
    ensures Trim("") == "" && TrimEnd("") == ""
  {
  }

  // ---------------------------------------------------------------- removing a section

  /** The test that ends a removal: it looks at the untrimmed start of the line. */
  predicate Closes(line: string)
  {
    line != "" && line[0] == '[' && TrimEnd(line) != "" && TrimEnd(line)[|TrimEnd(line)| - 1] == ']'
  }

  /** A closing line starts with a bracket and, white space aside, ends in one. */
  lemma ClosesExactly(line: string)
    ensures Closes(line) <==> exists b :: Holds(line, 0, b) && b > 0 && line[0] == '[' && line[b - 1] == ']'
  {
    hide Space;
    var r := TrimEnd(line);
    Printable();
    if Closes(line) {
      assert Holds(line, 0, |r|);
    }
    if b :| Holds(line, 0, b) && b > 0 && line[0] == '[' && line[b - 1] == ']' {
      TrimEndUnique(line, line[..b]);
    }
  }

  /** The last line was removed, so the next one is too unless it closes the section. */
  predicate Removing(lines: seq<string>, headers: set<string>)
  {
    lines != [] &&
    var init, last := lines[..|lines| - 1], lines[|lines| - 1];
    Trim(last) in headers || (Removing(init, headers) && !Closes(last))
  }

  /** The lines that survive the removal of the sections with one of the headers. */
  function Survivors(lines: seq<string>, headers: set<string>): seq<string>
  {
    if lines == [] then []
    else
      var init, last := lines[..|lines| - 1], lines[|lines| - 1];
      Survivors(init, headers) + (if Removing(lines, headers) then [] else [last])
  }

  /** A header at `h` with no closing line after it. */
  predicate OpenSince(lines: seq<string>, headers: set<string>, h: int)
  {
    0 <= h < |lines| && Trim(lines[h]) in headers && forall k | h < k < |lines| ::
          Trim(lines[k]) in headers || !Closes(lines[k])
  }

  /** Lines are lost from each header up to the next line that closes its section. */
  lemma RemovingMeans(lines: seq<string>, headers: set<string>)
    ensures Removing(lines, headers) <==> exists h :: OpenSince(lines, headers, h)
  {
    if Removing(lines, headers) {
      var h := RemovingSince(lines, headers);
    }
    forall h | OpenSince(lines, headers, h) ensures Removing(lines, headers) {
      OpenRemoves(lines, headers, h);
    }
  }

  lemma {:induction false} RemovingSince(lines: seq<string>, headers: set<string>) returns (h: int)
    requires Removing(lines, headers)
    ensures OpenSince(lines, headers, h)
    decreases |lines|
  {
    hide Trim, Closes;
    var init, last := lines[..|lines| - 1], lines[|lines| - 1];
    if Trim(last) in headers {
      h := |init|;
    } else {
      h := RemovingSince(init, headers);
      assert forall k | 0 <= k < |init| :: lines[k] == init[k];
    }
  }

  lemma {:induction false} OpenRemoves(lines: seq<string>, headers: set<string>, h: int)
    requires OpenSince(lines, headers, h)
    ensures Removing(lines, headers)
    decreases |lines|
  {
    hide Trim, Closes;
    if h < |lines| - 1 {
      OpenRemoves(lines[..|lines| - 1], headers, h);
    }
  }

  lemma SurvivorsSnoc(lines: seq<string>, l: string, headers: set<string>)
    ensures Removing(lines + [l], headers) <==> Trim(l) in headers || (Removing(lines, headers) && !Closes(l))
    ensures Survivors(lines + [l], headers) ==
            Survivors(lines, headers) + (if Removing(lines + [l], headers) then [] else [l])
  {
    assert (lines + [l])[..|lines|] == lines;
  }

  method RemoveTomlSection(content: string, header: string) returns (text: string)
    ensures text == Join(Survivors(Split(content), {header}))
  {
    var lines := Split(content);
    var kept: seq<string> := [];
    var removing := false;
    for i := 0 to |lines|
      invariant kept == Survivors(lines[..i], {header})
      invariant removing == Removing(lines[..i], {header})
    {
      assert lines[..i + 1][..i] == lines[..i];
      var line := lines[i];
      if Trim(line) == header {
        removing := true;
        continue;
      }
      if removing && Closes(line) {
        removing := false;
      }
      if !removing {
        kept := kept + [line];
      }
    }
    assert lines[..|lines|] == lines;
    text := Join(kept);
  }

  /** Removing one kind of section from what the removal of another leaves is removing both at once. */
  lemma {:induction false} TwoRemovals(lines: seq<string>, first: set<string>, second: set<string>)
    ensures Survivors(Survivors(lines, first), second) == Survivors(lines, first + second)
    ensures Removing(lines, first + second) <==>
            Removing(lines, first) || Removing(Survivors(lines, first), second)
    decreases |lines|
  {
    hide Trim, Closes;
    if lines != [] {
      var init, last := lines[..|lines| - 1], lines[|lines| - 1];
      assert init + [last] == lines;
      hide Survivors, Removing;
      TwoRemovals(init, first, second);
      SurvivorsSnoc(init, last, first);
      SurvivorsSnoc(init, last, first + second);
      if Removing(lines, first) {
        assert Survivors(init, first) + [] == Survivors(init, first);
      } else {
        SurvivorsSnoc(Survivors(init, first), last, second);
      }
    }
  }

  /** A line survives where it stands if no removal is open there. */
  lemma {:induction false} SurvivorAt(lines: seq<string>, headers: set<string>, l: string)
    ensures l in Survivors(lines, headers) <==>
            exists i | 0 <= i < |lines| :: lines[i] == l && !Removing(lines[..i + 1], headers)
    decreases |lines|
  {
    hide Trim, Closes, Removing;
    if lines != [] {
      var n := |lines| - 1;
      SurvivorAt(lines[..n], headers, l);
      assert lines[..n + 1] == lines;
      forall i | 0 <= i < n ensures lines[..n][..i + 1] == lines[..i + 1] && lines[..n][i] == lines[i] {
      }
    }
  }

  lemma {:induction false} SurvivorsHold(lines: seq<string>, headers: set<string>)
    ensures forall l | l in Survivors(lines, headers) :: l in lines && Trim(l) !in headers
    decreases |lines|
  {
    hide Trim, Closes;
    if lines != [] {
      SurvivorsHold(lines[..|lines| - 1], headers);
    }
  }

  /** Without a header nothing is removed. */
  lemma {:induction false} NothingRemoved(lines: seq<string>, headers: set<string>)
    requires forall l | l in lines :: Trim(l) !in headers
    ensures !Removing(lines, headers) && Survivors(lines, headers) == lines
    decreases |lines|
  {
    hide Trim, Closes;
    if lines != [] {
      var init, last := lines[..|lines| - 1], lines[|lines| - 1];
      assert last in lines && init + [last] == lines;
      hide Survivors, Removing;
      NothingRemoved(init, headers);
      SurvivorsSnoc(init, last, headers);
    }
  }

  // ---------------------------------------------------------------- removal and a reading of the text

  /** A line opens the section itself, opens another table, or belongs to the table opened before it. */
  datatype Kind = Own | Other | Body

  /** The last line read belongs to the section. */
  predicate InSection(reading: seq<Kind>)
  {
    reading != [] &&
    var init, last := reading[..|reading| - 1], reading[|reading| - 1];
    last.Own? || (last.Body? && InSection(init))
  }

  /** The lines outside the section. */
  function Kept(lines: seq<string>, reading: seq<Kind>): seq<string>
    requires |reading| == |lines|
  {
    if lines == [] then []
    else
      var init, last := lines[..|lines| - 1], lines[|lines| - 1];
      Kept(init, reading[..|lines| - 1]) + (if InSection(reading) then [] else [last])
  }

  /** A line whose tests disagree with its kind where it stands: the section's own header is not recognised (and would
      have mattered), another header does not close the section, or a line inside the section closes it. */
  predicate Misread(lines: seq<string>, reading: seq<Kind>, headers: set<string>, i: nat)
    requires |reading| == |lines| && i < |lines|
  {
    match reading[i]
    case Own => Trim(lines[i]) !in headers && (InSection(reading[..i]) ==> Closes(lines[i]))
    case Other => Trim(lines[i]) in headers || (InSection(reading[..i]) && !Closes(lines[i]))
    case Body =>
      if InSection(reading[..i]) then Trim(lines[i]) !in headers && Closes(lines[i]) else Trim(lines[i]) in headers
  }

  /** A removal takes out, at every place, what a reading has inside the section. */
  ghost predicate Agrees(lines: seq<string>, reading: seq<Kind>, headers: set<string>)
    requires |reading| == |lines|
  {
    forall i | 0 <= i <= |lines| :: Removing(lines[..i], headers) <==> InSection(reading[..i])
  }

  lemma ReadStep(lines: seq<string>, reading: seq<Kind>, headers: set<string>, i: nat)
    requires |reading| == |lines| && i < |lines|
    requires Removing(lines[..i], headers) <==> InSection(reading[..i])
    ensures (Removing(lines[..i + 1], headers) <==> InSection(reading[..i + 1])) <==> !Misread(lines, reading, headers, i)
  {
    hide Trim, Closes;
    assert lines[..i + 1][..i] == lines[..i] && reading[..i + 1][..i] == reading[..i];
  }

  /** For any reading: exactly the lines of the section are removed if and only if no line is misread. */
  lemma RemovalExact(lines: seq<string>, reading: seq<Kind>, headers: set<string>)
    requires |reading| == |lines|
    ensures Agrees(lines, reading, headers) <==> forall i | 0 <= i < |lines| :: !Misread(lines, reading, headers, i)
    ensures Agrees(lines, reading, headers) ==> Survivors(lines, headers) == Kept(lines, reading)
  {
    hide Trim, Closes, Removing, InSection, Misread, Survivors, Kept;
    if Agrees(lines, reading, headers) {
      AgreedSurvivors(lines, reading, headers);
    }
    if forall i | 0 <= i < |lines| :: !Misread(lines, reading, headers, i) {
      EmptyRead(headers);
      for i := 0 to |lines|
        invariant forall j | 0 <= j <= i :: Removing(lines[..j], headers) <==> InSection(reading[..j])
      {
        ReadStep(lines, reading, headers, i);
      }
    } else {
      var i :| 0 <= i < |lines| && Misread(lines, reading, headers, i);
      if Agrees(lines, reading, headers) {
        ReadStep(lines, reading, headers, i);
      }
    }
  }

  lemma EmptyRead(headers: set<string>)
    ensures !Removing([], headers) && !InSection([])
  {
  }

  lemma {:induction false} AgreedSurvivors(lines: seq<string>, reading: seq<Kind>, headers: set<string>)
    requires |reading| == |lines| && Agrees(lines, reading, headers)
    ensures Survivors(lines, headers) == Kept(lines, reading)
    decreases |lines|
  {
    hide Removing, InSection;
    if lines != [] {
      var n := |lines| - 1;
      assert lines[..|lines|] == lines && reading[..|lines|] == reading;
      forall i | 0 <= i <= n ensures lines[..n][..i] == lines[..i] && reading[..n][..i] == reading[..i] {
      }
      AgreedSurvivors(lines[..n], reading[..n], headers);
    }
  }

  // ---------------------------------------------------------------- the reading that goes by the line alone

  /** A line opens a table if its first visible character is a bracket. */
  predicate Opens(line: string)
  {
    var t := TrimStart(line); t != "" && t[0] == '['
  }

  /** The line is this header, possibly indented and possibly followed by a comment. */
  predicate Names(line: string, header: string)
  {
    var t := TrimStart(line);
    header <= t && var rest := TrimStart(t[|header|..]); rest == "" || rest[0] == '#'
  }

  /** The line is one of these headers. */
  predicate NamesAny(line: string, headers: set<string>)
  {
    exists header | header in headers :: Names(line, header)
  }

  function ReadLine(line: string, headers: set<string>): Kind
  {
    if NamesAny(line, headers) then Own else if Opens(line) then Other else Body
  }

  function Reading(lines: seq<string>, headers: set<string>): (reading: seq<Kind>)
    ensures |reading| == |lines|
    ensures forall i | 0 <= i < |lines| :: reading[i] == ReadLine(lines[i], headers)
  {
    seq(|lines|, i requires 0 <= i < |lines| => ReadLine(lines[i], headers))
  }

  /** What a line by line reading has inside the section before line `i`. */
  predicate Within(lines: seq<string>, headers: set<string>, i: nat)
    requires i <= |lines|
  {
    InSection(Reading(lines, headers)[..i])
  }

  /** Another table's headers, inside the section, is indented or carries a comment. */
  predicate Runaway(lines: seq<string>, headers: set<string>, i: nat)
    requires i < |lines|
  {
    Within(lines, headers, i) && Opens(lines[i]) && !NamesAny(lines[i], headers) && !Closes(lines[i])
  }

  /** The section's own header carries a comment where nothing is being removed, or where the comment ends in a bracket. */
  predicate Overlooked(lines: seq<string>, headers: set<string>, i: nat)
    requires i < |lines|
  {
    NamesAny(lines[i], headers) && Trim(lines[i]) !in headers && (Within(lines, headers, i) ==> Closes(lines[i]))
  }

  lemma ClosesOpens(line: string)
    ensures Closes(line) ==> Opens(line)
  {
  }

  lemma {:induction false} TrimmedIsNamed(line: string, header: string)
    requires Trim(line) == header
    ensures Names(line, header)
  {
    hide Space;
    var t := TrimStart(line);
    assert header <= t;
    AllSpace(t[|header|..]);
  }

  lemma {:induction false} AllSpace(s: string)
    requires forall i | 0 <= i < |s| :: Space(s[i])
    ensures TrimStart(s) == ""
  {
    hide Space;
    if s != "" {
      AllSpace(s[1..]);
    }
  }

  /** By the line alone, a removal is exact if and only if no header of the sections is overlooked and no other table's
      header lets the removal run on. */
  lemma LineRemovalExact(lines: seq<string>, headers: set<string>)
    ensures Agrees(lines, Reading(lines, headers), headers) <==>
            forall i | 0 <= i < |lines| :: !Runaway(lines, headers, i) && !Overlooked(lines, headers, i)
  {
    hide Trim, Closes, Opens, Names, InSection, Agrees;
    var reading := Reading(lines, headers);
    RemovalExact(lines, reading, headers);
    forall i | 0 <= i < |lines|
      ensures Misread(lines, reading, headers, i) <==> Runaway(lines, headers, i) || Overlooked(lines, headers, i)
    {
      ClosesOpens(lines[i]);
      if Trim(lines[i]) in headers {
        TrimmedIsNamed(lines[i], Trim(lines[i]));
      }
    }
  }

  // ---------------------------------------------------------------- sections that are not removed as they should be

  function Comment(): string { " # mine" }
  function Table(): string { "[other]" }
  function ArrayKey(): string { "x = [" }
  function ArrayRow(): string { "[1]" }
  function ArrayEnd(): string { "]" }
  function Commented(): string { Table() + Comment() }

  lemma CommentToken()
    ensures Token(Comment(), ' ', 'e', 7) && Comment()[1] == '#'
  {
  }

  lemma TableToken()
    ensures Token(Table(), '[', ']', 7) && Table()[1] == 'o'
  {
  }

  lemma ArrayTokens()
    ensures Token(ArrayKey(), 'x', '[', 5) && Token(ArrayRow(), '[', ']', 3) && Token(ArrayEnd(), ']', ']', 1)
  {
  }

  lemma TrimStartSolid(s: string)
    requires s != "" && !Space(s[0])
    ensures TrimStart(s) == s
  {
  }

  /** A header with a comment behind it: still the header by the line alone, but neither test of the source passes. */
  lemma CommentedHeader(header: string, length: nat)
    requires Token(header, '[', ']', length)
    ensures var line := header + Comment();
            && Names(line, header) && Opens(line) && !Closes(line) && Trim(line) == line && line != header
  {
    hide Comment, Space, Plain;
    Printable();
    CommentToken();
    var line := header + Comment();
    PlainCommented(header);
    TrimStartSolid(line);
    TrimSolid(line);
    TrimEndUnique(line, line);
    assert line[|header|..] == Comment();
    CommentStart();
    hide Trim, TrimEnd;
  }

  lemma PlainCommented(header: string)
    requires header != ""
    ensures var line := header + Comment(); line[0] == header[0] && line[|line| - 1] == 'e'
  {
    hide Comment;
    CommentToken();
  }

  lemma CommentStart()
    ensures TrimStart(Comment()) != "" && TrimStart(Comment())[0] == '#'
  {
    hide Comment, Space;
    Printable();
    CommentToken();
    TrimStartSolid(Comment()[1..]);
  }

  /** A header does not name a table whose second character differs. */
  lemma OtherName(line: string, header: string)
    requires |line| > 1 && |header| > 1 && line[0] == '[' && line[1] != header[1]
    ensures !Names(line, header)
  {
    assert !Space('[');
    TrimStartSolid(line);
  }

  /** A table whose header carries a comment is lost when it follows a gateway section. */
  lemma CommentedHeaderLost(setting: string)
    requires !Closes(setting)
    ensures Survivors([Gateway(), Commented(), setting], {Gateway()}) == []
    ensures Runaway([Gateway(), Commented(), setting], {Gateway()}, 1)
  {
    hide Gateway, Table, Comment, Trim, TrimEnd, Space, Survivors, Removing, Opens, Closes, Names;
    Printable();
    GatewayToken();
    TableToken();
    CommentedHeader(Table(), 7);
    TokenTrims(Gateway(), '[', ']', 30);
    TrimmedIsNamed(Gateway(), Gateway());
    assert Commented()[1] == 'o' && Commented()[0] == '[';
    OtherName(Commented(), Gateway());
    LostAfter(Gateway(), Commented(), setting);
  }

  lemma LostAfter(header: string, next: string, setting: string)
    requires Trim(header) == header && Names(header, header)
    requires Trim(next) != header && Opens(next) && !Closes(next) && !Closes(setting) && !Names(next, header)
    ensures Survivors([header, next, setting], {header}) == [] && Runaway([header, next, setting], {header}, 1)
  {
    hide Trim, Closes, Opens, Names;
    var one, two, three := [header], [header, next], [header, next, setting];
    SurvivorsSnoc([], header, {header});
    SurvivorsSnoc(one, next, {header});
    SurvivorsSnoc(two, setting, {header});
    assert [] + [header] == one && one + [next] == two && two + [setting] == three;
    assert Reading(three, {header})[..1] == [Own];
  }

  /** A gateway section whose own header carries a comment is not removed. */
  lemma CommentedOwnKept(setting: string)
    requires Trim(setting) != Gateway()
    ensures var lines := [Gateway() + Comment(), setting];
            Survivors(lines, {Gateway()}) == lines && Overlooked(lines, {Gateway()}, 0)
  {
    hide Gateway, Comment, Trim, Survivors, Removing, Opens, Closes, Names;
    GatewayToken();
    CommentedHeader(Gateway(), 30);
    var lines := [Gateway() + Comment(), setting];
    NothingRemoved(lines, {Gateway()});
    assert Reading(lines, {Gateway()})[..0] == [];
  }

  function NestedArray(): seq<string>
  {
    [Gateway(), ArrayKey(), ArrayRow(), ArrayEnd()]
  }

  /** A line of a nested array that looks like a header ends the removal in the middle of a value. */
  lemma NestedArrayStays()
    ensures Survivors(NestedArray(), {Gateway()}) == [ArrayRow(), ArrayEnd()]
    ensures Misread(NestedArray(), [Own, Body, Body, Body], {Gateway()}, 2)
  {
    hide Gateway, ArrayKey, ArrayRow, ArrayEnd, Trim, TrimEnd, Space, Survivors, Removing;
    Printable();
    GatewayToken();
    ArrayTokens();
    TokenTrims(Gateway(), '[', ']', 30);
    TokenTrims(ArrayKey(), 'x', '[', 5);
    TokenTrims(ArrayRow(), '[', ']', 3);
    TokenTrims(ArrayEnd(), ']', ']', 1);
    StaysAfter(Gateway(), ArrayKey(), ArrayRow(), ArrayEnd());
    assert [Own, Body, Body, Body][..2] == [Own, Body] && [Own, Body][..1] == [Own];
  }

  lemma StaysAfter(header: string, key: string, row: string, end: string)
    requires Trim(header) == header && Trim(key) != header && Trim(row) != header && Trim(end) != header
    requires !Closes(key) && Closes(row)
    ensures Survivors([header, key, row, end], {header}) == [row, end]
  {
    hide Trim, Closes;
    SurvivorsSnoc([], header, {header});
    SurvivorsSnoc([header], key, {header});
    SurvivorsSnoc([header, key], row, {header});
    SurvivorsSnoc([header, key, row], end, {header});
    assert [] + [header] == [header] && [header] + [key] == [header, key] && [header, key] + [row] == [header, key, row];
    assert [header, key, row] + [end] == [header, key, row, end] && [row] + [end] == [row, end];
  }
}
