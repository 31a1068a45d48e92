/** Setting the hooks key, against a line by line reading of the tables, which may carry comments behind their headers
    (src/codex-config.ts). */
module CodexTables {
  import opened CodexConfig
  import opened CodexFeatures
  import opened CodexSections
  import opened TextLines

  // ---------------------------------------------------------------- kinds of lines

  lemma {:induction false} StartAppend(p: string, q: string)
    requires TrimStart(p) != ""
    ensures TrimStart(p + q) == TrimStart(p) + q
    decreases |p|
  {
    hide Space;
    if Space(p[0]) {
      StartAppend(p[1..], q);
      assert (p + q)[1..] == p[1..] + q;
    }
  }

  lemma KeyKind(line: string)
    requires IsKey(line)
    ensures !Opens(line) && TrimStart(line) != "" && TrimStart(line)[0] == 'h'
  {
    hide Features, HooksTrue, Space;
    HooksToken();
    hide Hooks;
    var j :| 0 <= j < |line| && line[j] == '=' && Trim(line[..j]) == Hooks();
    assert line == line[..j] + line[j..];
    StartAppend(line[..j], line[j..]);
    var t := TrimStart(line[..j]);
    assert TrimEnd(t)[0] == t[0];
  }

  predicate NamesFeatures(line: string)
  {
    Names(line, Features())
  }

  lemma NamedOpens(line: string, header: string)
    requires header != "" && header[0] == '[' && Names(line, header)
    ensures Opens(line)
  {
  }

  lemma HeaderKinds(line: string)
    ensures IsFeatures(line) ==> NamesFeatures(line) && IsHeader(line)
    ensures IsHeader(line) || NamesFeatures(line) ==> Opens(line)
    ensures IsKey(line) ==> !Opens(line)
  {
    hide Features, Hooks, HooksTrue, Space;
    FeaturesToken();
    if IsFeatures(line) {
      TrimmedIsNamed(line, Features());
    }
    if NamesFeatures(line) {
      NamedOpens(line, Features());
    }
    if IsKey(line) {
      KeyKind(line);
    }
  }

  // ---------------------------------------------------------------- the features table

  /** The first features table, whose header may carry a comment, up to the line that opens the next table. */
  ghost predicate IsTable(lines: seq<string>, t: int, e: int)
  {
    && 0 <= t < e <= |lines|
    && NamesFeatures(lines[t]) && (forall i | 0 <= i < t :: !NamesFeatures(lines[i]))
    && (forall i | t < i < e :: !Opens(lines[i]))
    && (e < |lines| ==> Opens(lines[e]))
  }

  /** `out` is `lines` with the table's body replaced by one that differs in its hooks keys alone and has exactly one,
      which says true. */
  ghost predicate Replaced(lines: seq<string>, t: int, e: int, body: seq<string>, out: seq<string>)
  {
    && IsTable(lines, t, e) && HasOnlyKey(body) && NonKeys(body) == NonKeys(lines[t + 1..e])
    && out == lines[..t + 1] + body + lines[e..]
  }

  /** What setting the feature should do: change the hooks keys of the features table, or add the table at the end. */
  ghost predicate TableSet(lines: seq<string>, out: seq<string>)
  {
    if forall i | 0 <= i < |lines| :: !NamesFeatures(lines[i])
    then out == (if lines == [""] then [] else lines) + [Features(), HooksTrue()]
    else exists t, e, body :: Replaced(lines, t, e, body, out)
  }

  predicate HasKey(lines: seq<string>)
  {
    exists i | 0 <= i < |lines| :: IsKey(lines[i])
  }

  /** The table is set if its header is the one the source finds and the section the source delimits ends with the table,
      or runs on without keys behind a key of the table; a second table must be right already, like the first. */
  ghost predicate SetsTable(lines: seq<string>)
  {
    var t := FirstIndex(lines, NamesFeatures, 0);
    t == |lines| ||
    var e, start := FirstIndex(lines, Opens, t + 1), FirstIndex(lines, IsFeatures, 0);
    start < |lines| &&
    var end := FirstIndex(lines, IsHeader, start + 1);
    if start == t then e == end || (e < end && HasKey(lines[t + 1..e]) && !HasKey(lines[e..end]))
    else HasOnlyKey(lines[t + 1..e]) && HasOnlyKey(lines[start + 1..end])
  }

  lemma {:induction false} NonKeysAppend(a: seq<string>, b: seq<string>)
    ensures NonKeys(a + b) == NonKeys(a) + NonKeys(b)
    decreases |b|
  {
    hide IsKey;
    if b == [] {
      assert a + b == a;
    } else {
      assert (a + b)[..|a + b| - 1] == a + b[..|b| - 1];
      NonKeysAppend(a, b[..|b| - 1]);
    }
  }

  lemma {:induction false} NonKeysCount(lines: seq<string>)
    ensures |NonKeys(lines)| <= |lines|
    ensures HasKey(lines) ==> |NonKeys(lines)| < |lines|
    ensures !HasKey(lines) ==> NonKeys(lines) == lines
    decreases |lines|
  {
    hide IsKey;
    if lines != [] {
      NonKeysCount(lines[..|lines| - 1]);
    }
  }

  lemma OnlyKeyCount(lines: seq<string>)
    requires HasOnlyKey(lines)
    ensures |NonKeys(lines)| + 1 == |lines|
  {
    HooksLine();
    hide IsKey, HooksTrue;
    var k :| OnlyKey(lines, k);
    assert lines == lines[..k] + [lines[k]] + lines[k + 1..];
    NonKeysAppend(lines[..k] + [lines[k]], lines[k + 1..]);
    NonKeysAppend(lines[..k], [lines[k]]);
    NonKeysCount(lines[..k]);
    NonKeysCount(lines[k + 1..]);
  }

  lemma {:induction false} MergedAppend(a: seq<string>, b: seq<string>, first: nat)
    requires !HasKey(b)
    ensures MergedFeatures(a + b, first) == MergedFeatures(a, first) + b
    decreases |b|
  {
    hide IsKey, HooksTrue;
    if b == [] {
      assert a + b == a;
    } else {
      var init := b[..|b| - 1];
      assert (a + b)[..|a + b| - 1] == a + init && !IsKey(b[|b| - 1]);
      MergedAppend(a, init, first);
      assert b == init + [b[|b| - 1]];
    }
  }

  /** Lines without keys behind a section that has one stay as they are. */
  lemma SetAppend(a: seq<string>, b: seq<string>)
    requires HasKey(a) && !HasKey(b)
    ensures SetInSection(a + b) == SetInSection(a) + b
  {
    hide IsKey, HooksTrue;
    var first := FirstIndex(a, IsKey, 0);
    assert IsKey((a + b)[first]);
    assert FirstIndex(a + b, IsKey, 0) == first;
    MergedAppend(a, b, first);
  }

  lemma SetWithoutKeys(lines: seq<string>)
    requires !HasKey(lines)
    ensures SetInSection(lines) == lines + [HooksTrue()]
  {
    hide IsKey, HooksTrue;
    assert FirstIndex(lines, IsKey, 0) == |lines|;
    MergedOnlyKey(lines, |lines|);
  }

  /** If the body can be told apart from lines of other tables behind it, the key is its own. */
  lemma OwnKey(a: seq<string>, b: seq<string>, body: seq<string>)
    requires b != [] && body + b == SetInSection(a + b) && HasOnlyKey(body)
    ensures HasKey(a) && !HasKey(b)
  {
    HooksLine();
    hide IsKey, HooksTrue, SetInSection, HasOnlyKey, HasKey, IsHeader, IsFeatures;
    SectionOnlyKey(a + b);
    OnlyKeyCount(SetInSection(a + b));
    OnlyKeyCount(body);
    NonKeysAppend(body, b);
    NonKeysCount(b);
    if !HasKey(a) {
      KeyOfEither(a, b);
      SetWithoutKeys(a + b);
      assert (body + b)[|body + b| - 1] == b[|b| - 1];
      LastKey(b);
    }
  }

  lemma LastKey(b: seq<string>)
    requires b != [] && b[|b| - 1] == HooksTrue()
    ensures HasKey(b)
  {
    HooksLine();
  }

  lemma KeyOfEither(a: seq<string>, b: seq<string>)
    requires !HasKey(a) && !HasKey(b)
    ensures !HasKey(a + b)
  {
    hide IsKey;
  }

  /** The section the source delimits starts with the table. */
  lemma SameStart(lines: seq<string>, t: int, e: int, end: int)
    requires IsTable(lines, t, e) && e <= end <= |lines|
    ensures var out := lines[..t + 1] + SetInSection(lines[t + 1..end]) + lines[end..];
            (e == end || (HasKey(lines[t + 1..e]) && !HasKey(lines[e..end]))) <==>
            exists body :: Replaced(lines, t, e, body, out)
  {
    hide NamesFeatures, Opens, SetInSection, HasOnlyKey, HasKey, NonKeys;
    var a, b := lines[t + 1..e], lines[e..end];
    var out := lines[..t + 1] + SetInSection(lines[t + 1..end]) + lines[end..];
    assert lines[t + 1..end] == a + b && lines[e..] == b + lines[end..];
    if e == end || (HasKey(a) && !HasKey(b)) {
      var body := SetInSection(a);
      SectionOnlyKey(a);
      SetInSectionNonKeys(a);
      if e == end {
        assert a + b == a;
      } else {
        SetAppend(a, b);
      }
      assert Replaced(lines, t, e, body, out);
    }
    if body :| Replaced(lines, t, e, body, out) {
      if e < end {
        Cancel(lines[..t + 1], body + b, SetInSection(a + b), lines[end..]);
        OwnKey(a, b, body);
      }
    }
  }

  lemma Cancel(pre: seq<string>, x: seq<string>, y: seq<string>, post: seq<string>)
    requires pre + x + post == pre + y + post
    ensures x == y
  {
    var whole := pre + x + post;
    assert x == whole[|pre|..|whole| - |post|];
    assert y == whole[|pre|..|whole| - |post|];
  }

  /** A second features table behind the first: the step must change nothing. */
  lemma LaterStart(a: seq<string>, g: seq<string>, mid: seq<string>, body: seq<string>)
    requires g != [] && Opens(g[0]) && forall l | l in a :: !Opens(l)
    requires body + g + mid == a + g + SetInSection(mid)
    requires HasOnlyKey(body) && NonKeys(body) == NonKeys(a)
    ensures HasOnlyKey(a) && HasOnlyKey(mid)
  {
    HeaderKinds(g[0]);
    SectionOnlyKey(mid);
    hide IsKey, HooksTrue, SetInSection, Opens, IsHeader, IsFeatures, HasOnlyKey, NonKeys;
    if |body| > |a| {
      NotLonger(a, g, SetInSection(mid), body, mid);
    } else if |body| < |a| {
      InShorter(a, g, SetInSection(mid), body, mid);
    } else {
      SameParts(a, g, SetInSection(mid), body, mid);
    }
  }

  lemma SameParts(a: seq<string>, g: seq<string>, merged: seq<string>, body: seq<string>, mid: seq<string>)
    requires |body| == |a| && body + g + mid == a + g + merged
    ensures body == a && mid == merged
  {
    var whole := body + g + mid;
    assert body == whole[..|a|] && a == whole[..|a|] && mid == whole[|a| + |g|..] && merged == whole[|a| + |g|..];
  }

  lemma NotLonger(a: seq<string>, g: seq<string>, merged: seq<string>, body: seq<string>, mid: seq<string>)
    requires |body| > |a| && body + g + mid == a + g + merged && g != [] && !IsKey(g[0])
    ensures |NonKeys(body)| > |NonKeys(a)|
  {
    hide IsKey, NonKeys;
    InLonger(a, g, merged, body, mid);
    MoreNonKeys(a, g[0], body[|a| + 1..]);
  }

  lemma InLonger(a: seq<string>, g: seq<string>, merged: seq<string>, body: seq<string>, mid: seq<string>)
    requires |body| > |a| && body + g + mid == a + g + merged && g != []
    ensures body == a + [g[0]] + body[|a| + 1..]
  {
    var whole := body + g + mid;
    assert a == whole[..|a|] && body == whole[..|body|];
    assert body[|a|] == whole[|a|] && whole[|a|] == g[0];
  }

  lemma MoreNonKeys(a: seq<string>, l: string, rest: seq<string>)
    requires !IsKey(l)
    ensures |NonKeys(a + [l] + rest)| > |NonKeys(a)|
  {
    NonKeyAlone(l);
    hide IsKey, NonKeys;
    NonKeysAppend(a + [l], rest);
    NonKeysAppend(a, [l]);
  }

  lemma InShorter(a: seq<string>, g: seq<string>, merged: seq<string>, body: seq<string>, mid: seq<string>)
    requires |body| < |a| && body + g + mid == a + g + merged && g != []
    ensures g[0] in a
  {
    var whole := body + g + mid;
    assert whole[|body|] == g[0] && whole[|body|] == a[|body|];
  }

  lemma NonKeyAlone(l: string)
    requires !IsKey(l)
    ensures NonKeys([l]) == [l]
  {
    hide IsKey;
    assert [l][..0] == [];
  }

  lemma LaterExact(lines: seq<string>, t: int, e: int, start: int, end: int)
    requires IsTable(lines, t, e) && e <= start < end <= |lines|
    ensures var out := lines[..start + 1] + SetInSection(lines[start + 1..end]) + lines[end..];
            HasOnlyKey(lines[t + 1..e]) && HasOnlyKey(lines[start + 1..end]) <==>
            exists body :: Replaced(lines, t, e, body, out)
  {
    hide NamesFeatures, Opens, SetInSection, NonKeys, HasOnlyKey;
    var a, mid := lines[t + 1..e], lines[start + 1..end];
    var out := lines[..start + 1] + SetInSection(mid) + lines[end..];
    if HasOnlyKey(a) && HasOnlyKey(mid) {
      var k := KeyAt(mid);
      SectionUnchanged(mid, k);
      ThreeParts(lines, start, end);
      ThreeParts(lines, t, e);
      assert Replaced(lines, t, e, a, out);
    }
    if body :| Replaced(lines, t, e, body, out) {
      LaterParts(lines, t, e, start, end, body);
    }
  }

  lemma KeyAt(lines: seq<string>) returns (k: int)
    requires HasOnlyKey(lines)
    ensures OnlyKey(lines, k)
  {
    k :| OnlyKey(lines, k);
  }

  lemma LaterParts(lines: seq<string>, t: int, e: int, start: int, end: int, body: seq<string>)
    requires IsTable(lines, t, e) && e <= start < end <= |lines|
    requires Replaced(lines, t, e, body, lines[..start + 1] + SetInSection(lines[start + 1..end]) + lines[end..])
    ensures HasOnlyKey(lines[t + 1..e]) && HasOnlyKey(lines[start + 1..end])
  {
    hide NamesFeatures, Opens, SetInSection, NonKeys, HasOnlyKey;
    var pre, a, g, mid, post := lines[..t + 1], lines[t + 1..e], lines[e..start + 1], lines[start + 1..end], lines[end..];
    assert lines[e..] == g + mid + post && lines[..start + 1] == pre + a + g;
    FourParts(pre, body, g, mid, post);
    FourParts(pre, a, g, SetInSection(mid), post);
    Cancel(pre, body + g + mid, a + g + SetInSection(mid), post);
    LaterStart(a, g, mid, body);
  }

  lemma FourParts(pre: seq<string>, a: seq<string>, g: seq<string>, m: seq<string>, post: seq<string>)
    ensures pre + a + (g + m + post) == pre + (a + g + m) + post
    ensures (pre + a + g) + m + post == pre + (a + g + m) + post
  {
  }

  /** A table that the source does not find is left alone, and another one is added. */
  lemma AddedTwice(lines: seq<string>, t: int, e: int, body: seq<string>)
    requires IsTable(lines, t, e)
    ensures !Replaced(lines, t, e, body, lines + [Features(), HooksTrue()])
  {
    HooksLine();
    FeaturesLine();
    HeaderKinds(Features());
    hide NamesFeatures, Opens, HasOnlyKey, IsKey, Features, HooksTrue, IsHeader, IsFeatures;
    var a, rest, added := lines[t + 1..e], lines[e..], [Features(), HooksTrue()];
    if Replaced(lines, t, e, body, lines + added) {
      assert lines == lines[..t + 1] + a + rest;
      assert lines[..t + 1] + (body + rest) + [] == lines[..t + 1] + body + rest;
      assert lines[..t + 1] + (a + rest + added) + [] == lines + added;
      Cancel(lines[..t + 1], body + rest, a + rest + added, []);
      NonKeysAppend(body, rest);
      NonKeysAppend(a, rest);
      NonKeysAppend(a + rest, added);
    }
  }

  lemma TableFound(lines: seq<string>, t: nat)
    requires t == FirstIndex(lines, NamesFeatures, 0) && t < |lines|
    ensures IsTable(lines, t, FirstIndex(lines, Opens, t + 1))
  {
    hide NamesFeatures, Opens, FirstIndex;
  }

  lemma TableUnique(lines: seq<string>, t: int, e: int, u: int, f: int)
    requires IsTable(lines, t, e) && IsTable(lines, u, f)
    ensures t == u && e == f
  {
    hide NamesFeatures, Opens;
  }

  /** Where the source looks, against where the table is. */
  lemma Bounds(lines: seq<string>, t: int, e: int, start: nat)
    requires IsTable(lines, t, e) && start == FirstIndex(lines, IsFeatures, 0) && start < |lines|
    ensures t == start || (t < start && e <= start)
    ensures t == start ==> e <= FirstIndex(lines, IsHeader, start + 1)
  {
    HeaderKinds(lines[start]);
    hide NamesFeatures, Opens, IsFeatures, IsHeader;
    if t == start {
      var end := FirstIndex(lines, IsHeader, start + 1);
      if end < e {
        HeaderKinds(lines[end]);
      }
    }
  }

  lemma OneTable(lines: seq<string>, t: int, e: int, out: seq<string>)
    requires IsTable(lines, t, e)
    ensures TableSet(lines, out) <==> exists body :: Replaced(lines, t, e, body, out)
  {
    hide IsTable, NamesFeatures, HasOnlyKey;
    assert NamesFeatures(lines[t]) by {
      TableHead(lines, t, e);
    }
    if TableSet(lines, out) {
      var u, f, body :| Replaced(lines, u, f, body, out);
      TableUnique(lines, t, e, u, f);
    }
  }

  lemma TableHead(lines: seq<string>, t: int, e: int)
    requires IsTable(lines, t, e)
    ensures 0 <= t < e <= |lines| && NamesFeatures(lines[t])
  {
    hide NamesFeatures, Opens;
  }

  lemma NoTable(lines: seq<string>)
    requires FirstIndex(lines, NamesFeatures, 0) == |lines|
    ensures FirstIndex(lines, IsFeatures, 0) == |lines| && forall i | 0 <= i < |lines| :: !NamesFeatures(lines[i])
  {
    var start := FirstIndex(lines, IsFeatures, 0);
    if start < |lines| {
      HeaderKinds(lines[start]);
    }
  }

  /** The feature step sets the features table, and nothing but the table, exactly when `SetsTable` holds. */
  lemma FeatureTableExact(lines: seq<string>)
    requires lines != []
    ensures TableSet(lines, FeatureLines(lines)) <==> SetsTable(lines)
  {
    hide NamesFeatures, Opens, IsFeatures, IsHeader, HasKey, HasOnlyKey, SetInSection, Replaced, IsTable, Features,
      HooksTrue, TableSet;
    var t := FirstIndex(lines, NamesFeatures, 0);
    if t == |lines| {
      NoTable(lines);
      Added(lines);
    } else {
      var e, start := FirstIndex(lines, Opens, t + 1), FirstIndex(lines, IsFeatures, 0);
      TableFound(lines, t);
      OneTable(lines, t, e, FeatureLines(lines));
      if start == |lines| {
        forall body ensures !Replaced(lines, t, e, body, FeatureLines(lines)) {
          TableNotBlank(lines, t);
          AddedTwice(lines, t, e, body);
        }
      } else {
        var end := FirstIndex(lines, IsHeader, start + 1);
        Bounds(lines, t, e, start);
        if t == start {
          SameStart(lines, t, e, end);
        } else {
          LaterExact(lines, t, e, start, end);
        }
      }
    }
  }

  lemma Added(lines: seq<string>)
    requires FirstIndex(lines, IsFeatures, 0) == |lines| && forall i | 0 <= i < |lines| :: !NamesFeatures(lines[i])
    ensures TableSet(lines, FeatureLines(lines))
  {
    hide NamesFeatures, IsFeatures, Features, HooksTrue;
  }

  lemma TableNotBlank(lines: seq<string>, t: nat)
    requires t < |lines| && NamesFeatures(lines[t])
    ensures lines != [""]
  {
    FeaturesToken();
    hide Features;
  }

  /** Where every header ends its line, the features table is set. */
  lemma PlainHeadersSet(lines: seq<string>)
    requires lines != []
    requires forall l | l in lines :: (Opens(l) ==> IsHeader(l)) && (NamesFeatures(l) ==> IsFeatures(l))
    ensures TableSet(lines, FeatureLines(lines))
  {
    FeatureTableExact(lines);
    var t := FirstIndex(lines, NamesFeatures, 0);
    hide NamesFeatures, Opens, IsFeatures, IsHeader, TableSet, FeatureLines;
    if t < |lines| {
      TableFound(lines, t);
      var start := FirstIndex(lines, IsFeatures, 0);
      assert start <= t by {
        assert IsFeatures(lines[t]) by {
          assert lines[t] in lines;
        }
      }
      Bounds(lines, t, FirstIndex(lines, Opens, t + 1), start);
      SameEnd(lines, t);
    }
  }

  lemma SameEnd(lines: seq<string>, t: nat)
    requires t < |lines| && forall l | l in lines :: Opens(l) ==> IsHeader(l)
    requires FirstIndex(lines, Opens, t + 1) <= FirstIndex(lines, IsHeader, t + 1)
    ensures FirstIndex(lines, Opens, t + 1) == FirstIndex(lines, IsHeader, t + 1)
  {
    hide Opens, IsHeader;
    var e := FirstIndex(lines, Opens, t + 1);
    assert e < |lines| ==> lines[e] in lines;
  }

  /** What was set is read back from the output: its first features table has exactly one hooks key, which says true. */
  lemma TableSetReads(lines: seq<string>, out: seq<string>) returns (t: int, e: int)
    requires TableSet(lines, out)
    ensures IsTable(out, t, e) && HasOnlyKey(out[t + 1..e])
  {
    hide NamesFeatures, Opens, HasOnlyKey, Replaced;
    if forall i | 0 <= i < |lines| :: !NamesFeatures(lines[i]) {
      t, e := |out| - 2, |out|;
      AddedReads(if lines == [""] then [] else lines);
    } else {
      var u, f, body :| Replaced(lines, u, f, body, out);
      ReplacedReads(lines, u, f, body, out);
      t, e := u, u + 1 + |body|;
    }
  }

  lemma AddedReads(lines: seq<string>)
    requires forall i | 0 <= i < |lines| :: !NamesFeatures(lines[i])
    ensures var out := lines + [Features(), HooksTrue()];
            IsTable(out, |out| - 2, |out|) && HasOnlyKey(out[|out| - 1..|out|])
  {
    HooksLine();
    FeaturesLine();
    HeaderKinds(Features());
    HeaderKinds(HooksTrue());
    hide NamesFeatures, Opens, IsKey, IsFeatures, IsHeader, Features, HooksTrue;
    var out := lines + [Features(), HooksTrue()];
    assert OnlyKey(out[|out| - 1..|out|], 0);
  }

  lemma {:induction false} NonKeysMembers(lines: seq<string>, l: string)
    ensures l in NonKeys(lines) <==> l in lines && !IsKey(l)
    decreases |lines|
  {
    hide IsKey;
    if lines != [] {
      NonKeysMembers(lines[..|lines| - 1], l);
      assert lines == lines[..|lines| - 1] + [lines[|lines| - 1]];
    }
  }

  lemma ReplacedReads(lines: seq<string>, t: int, e: int, body: seq<string>, out: seq<string>)
    requires Replaced(lines, t, e, body, out)
    ensures 0 <= t && t + 1 + |body| <= |out| && out[t + 1..t + 1 + |body|] == body
    ensures IsTable(out, t, t + 1 + |body|) && HasOnlyKey(body)
  {
    HeaderKinds(HooksTrue());
    HooksLine();
    hide NamesFeatures, Opens, IsKey, IsFeatures, IsHeader, Features, HooksTrue, NonKeys;
    forall l | l in body ensures !Opens(l) {
      NonKeysMembers(body, l);
      NonKeysMembers(lines[t + 1..e], l);
      var k :| OnlyKey(body, k);
      var i :| 0 <= i < |body| && body[i] == l;
      HeaderKinds(l);
    }
    hide HasOnlyKey;
    var f := t + 1 + |body|;
    forall i | t < i < f ensures !Opens(out[i]) {
      assert out[i] == body[i - t - 1];
    }
    assert f < |out| ==> out[f] == lines[e];
  }

  function Assigned(value: string): string
  {
    Hooks() + " = " + value
  }

  lemma AssignedIsKey(value: string)
    ensures IsKey(Assigned(value)) && !IsHeader(Assigned(value)) && !IsFeatures(Assigned(value))
  {
    hide Features, Hooks, HooksTrue, Trim, TrimEnd, Space, Plain, IsHeader, IsFeatures, Opens;
    Printable();
    HooksToken();
    TokenTrims(Hooks(), 'h', 's', 5);
    TrimEndUnique(Hooks() + " ", Hooks());
    TrimOfTrimEnd(Hooks() + " ");
    assert Assigned(value)[6] == '=' && Assigned(value)[..6] == Hooks() + " ";
    assert IsKey(Assigned(value));
    HeaderKinds(Assigned(value));
  }

  /** The key of a table whose header carries a comment is overwritten, and the features table gets none. */
  lemma OtherTableOverwritten(value: string)
    ensures var lines := [Features(), Commented(), Assigned(value)];
            && FeatureLines(lines) == [Features(), Commented(), HooksTrue()]
            && !TableSet(lines, FeatureLines(lines))
  {
    hide Features, Hooks, HooksTrue, Table, Comment, Trim, TrimEnd, Space, TableSet, Names;
    Printable();
    TableToken();
    FeaturesToken();
    FeaturesLine();
    CommentedHeader(Table(), 7);
    AssignedIsKey(value);
    HeaderKinds(Features());
    HeaderKinds(Commented());
    CommentedIsNoHeader(Table(), 7);
    hide IsHeader, IsKey, IsFeatures, Opens, Assigned, Commented;
    OverwrittenKey(Commented(), Assigned(value));
  }

  lemma CommentedIsNoHeader(header: string, length: nat)
    requires Token(header, '[', ']', length)
    ensures !IsHeader(header + Comment())
  {
    hide Comment, Trim;
    CommentedHeader(header, length);
    PlainCommented(header);
  }

  lemma OverwrittenKey(next: string, key: string)
    requires IsFeatures(Features()) && !IsHeader(next) && Opens(next) && !IsKey(next)
    requires IsKey(key) && !IsHeader(key)
    ensures var lines := [Features(), next, key];
            && FeatureLines(lines) == [Features(), next, HooksTrue()]
            && !TableSet(lines, FeatureLines(lines))
  {
    HeaderKinds(Features());
    hide Features, HooksTrue, IsHeader, IsKey, IsFeatures, Opens, NamesFeatures, TableSet;
    var lines := [Features(), next, key];
    assert FirstIndex(lines, IsFeatures, 0) == 0 && FirstIndex(lines, NamesFeatures, 0) == 0;
    assert FirstIndex(lines, Opens, 1) == 1 && FirstIndex(lines, IsHeader, 1) == 3;
    var section := lines[1..3];
    assert section == [next, key] && FirstIndex(section, IsKey, 0) == 1;
    assert section[..1] == [next] && [next][..0] == [];
    assert MergedFeatures([next], 1) == [next] by {
      assert MergedFeatures([], 1) == [];
    }
    assert section[|section| - 1] == key;
    assert MergedFeatures(section, 1) == [next] + [HooksTrue()];
    FeatureTableExact(lines);
  }

  /** A features table whose header carries a comment is not found, and a second one is added. */
  lemma CommentedFeaturesAddedTwice()
    ensures var lines := [Features() + Comment()];
            FeatureLines(lines) == lines + [Features(), HooksTrue()] && !TableSet(lines, FeatureLines(lines))
  {
    hide Features, HooksTrue, Comment, Trim, TrimEnd, Space, TableSet, Names;
    FeaturesToken();
    CommentedHeader(Features(), 10);
    var lines := [Features() + Comment()];
    assert !IsFeatures(lines[0]) && NamesFeatures(lines[0]);
    hide IsFeatures, NamesFeatures;
    assert FirstIndex(lines, IsFeatures, 0) == 1 && FirstIndex(lines, NamesFeatures, 0) == 0;
    FeatureTableExact(lines);
  }

  /** In a merge: the features table of what is left outside the gateway sections is set exactly when `SetsTable` holds. */
  lemma MergeTableExact(currentText: string)
    ensures var lines := TrimLines(Outside(currentText));
            && (TableSet(lines, Featured(currentText)) <==> SetsTable(lines))
            && BodyLines(currentText) == TrimLines(Featured(currentText))
  {
    var lines := TrimLines(Outside(currentText));
    hide Features, HooksTrue, Gateway, GatewayHeaders, TableSet, SetsTable, FeatureLines, Outside, BodyLines, TrimLines,
      Split, Join, SetTomlFeature;
    BodyIsTrimmed(currentText);
    OutsideFacts(currentText);
    TrimLinesTwice(Outside(currentText));
    FeatureStep(lines);
    FeatureTableExact(lines);
  }
}
