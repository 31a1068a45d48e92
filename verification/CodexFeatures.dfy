/** Setting the hooks key in the first features section, as the source itself delimits it: from a line that trims to
    the header to the next line that trims to brackets (src/codex-config.ts). The step is proved to leave exactly one
    such key in that section, to change nothing where that is so already, and to touch no other line, read off both by
    the section's bounds and by a line by line scan. CodexTables says when that section is the features table. */
module CodexFeatures {
  import opened CodexSections
  import opened TextLines

  // ---------------------------------------------------------------- the hooks feature

  predicate IsHeader(line: string)
  {
    var t := Trim(line); t != "" && t[0] == '[' && t[|t| - 1] == ']'
  }

  /** The key pattern: white space, the key, white space, an equals sign. */
  predicate IsKey(line: string)
  {
    exists j :: 0 <= j < |line| && line[j] == '=' && Trim(line[..j]) == Hooks()
  }

  predicate IsFeatures(line: string)
  {
    Trim(line) == Features()
  }

  /** A header, white space aside, starts and ends with a bracket. */
  lemma HeaderExactly(line: string)
    ensures IsHeader(line) <==> exists a, b :: Holds(line, a, b) && a < b && line[a] == '[' && line[b - 1] == ']'
  {
    hide Space, Trim;
    var x, y := TrimMeans(line);
    Printable();
    if IsHeader(line) {
      assert line[x] == '[' && line[y - 1] == ']';
    }
    if a, b :| Holds(line, a, b) && a < b && line[a] == '[' && line[b - 1] == ']' {
      TrimUnique(line, a, b);
    }
  }

  /** A key line is, up to an equals sign, the key between white space. */
  lemma KeyExactly(line: string)
    ensures IsKey(line) <==>
            exists a, b, j :: 0 <= j < |line| && line[j] == '=' && Holds(line[..j], a, b) && line[a..b] == "hooks"
  {
    assert Hooks() == "hooks";
    HooksToken();
    Printable();
    hide Space, Trim, Hooks;
    forall j | 0 <= j < |line|
      ensures Trim(line[..j]) == Hooks() <==> exists a, b :: Holds(line[..j], a, b) && line[a..b] == "hooks"
    {
      TrimsTo(line[..j], Hooks());
      assert forall a, b | Holds(line[..j], a, b) :: line[..j][a..b] == line[a..b];
    }
  }

  function FirstIndex(lines: seq<string>, test: string -> bool, from: nat): (i: nat)
    requires from <= |lines|
    ensures from <= i <= |lines| && (i < |lines| ==> test(lines[i]))
    ensures forall k | from <= k < i :: !test(lines[k])
    decreases |lines| - from
  {
    if from == |lines| || test(lines[from]) then from else FirstIndex(lines, test, from + 1)
  }

  /** The first key line takes the new value, the others are dropped. */
  function MergedFeatures(features: seq<string>, first: nat): seq<string>
  {
    if features == [] then []
    else
      var init, last := features[..|features| - 1], features[|features| - 1];
      MergedFeatures(init, first) + (if !IsKey(last) then [last] else if |init| == first then [HooksTrue()] else [])
  }

  function SetInSection(features: seq<string>): seq<string>
  {
    var first := FirstIndex(features, IsKey, 0);
    MergedFeatures(features, first) + (if first == |features| then [HooksTrue()] else [])
  }

  function NonEmpty(parts: seq<string>): seq<string>
  {
    if parts == [] then []
    else (if parts[0] == "" then [] else [parts[0]]) + NonEmpty(parts[1..])
  }

  /** The lines before the section, the section with its key set, and the lines after it. */
  function SetLines(lines: seq<string>, start: nat): seq<string>
    requires start < |lines|
  {
    var end := FirstIndex(lines, IsHeader, start + 1);
    lines[..start + 1] + SetInSection(lines[start + 1..end]) + lines[end..]
  }

  function SetTomlFeature(content: string): string
  {
    var lines := Split(content);
    var start := FirstIndex(lines, IsFeatures, 0);
    if start == |lines| then Join(NonEmpty([TrimEnd(content), Features(), HooksTrue()]))
    else Join(SetLines(lines, start))
  }

  // ---------------------------------------------------------------- what the feature step promises

  ghost predicate IsSection(lines: seq<string>, start: int, end: int)
  {
    && 0 <= start < end <= |lines|
    && IsFeatures(lines[start]) && (forall i | 0 <= i < start :: !IsFeatures(lines[i]))
    && (forall i | start < i < end :: !IsHeader(lines[i]))
    && (end < |lines| ==> IsHeader(lines[end]))
  }

  ghost predicate OnlyKey(features: seq<string>, k: int)
  {
    && 0 <= k < |features| && features[k] == HooksTrue()
    && (forall i | 0 <= i < |features| && i != k :: !IsKey(features[i]))
  }

  ghost predicate HasOnlyKey(features: seq<string>)
  {
    exists k :: OnlyKey(features, k)
  }

  /** The first features section exists and its one hooks key is true. */
  ghost predicate Enabled(lines: seq<string>)
  {
    exists start, end :: IsSection(lines, start, end) && HasOnlyKey(lines[start + 1..end])
  }

  lemma HooksLine()
    ensures IsKey(HooksTrue()) && !IsHeader(HooksTrue()) && !IsFeatures(HooksTrue())
    ensures Trim(HooksTrue()) == HooksTrue() && TrimEnd(HooksTrue()) == HooksTrue() && HooksTrue() != ""
  {
    hide Gateway, GatewayHeaders, Features, Hooks, HooksTrue, Trim, TrimEnd, Space, Plain;
    Printable();
    HooksToken();
    FeaturesToken();
    TokenTrims(HooksTrue(), 'h', 'e', 12);
    TokenTrims(Hooks(), 'h', 's', 5);
    TrimEndUnique(Hooks() + " ", Hooks());
    TrimOfTrimEnd(Hooks() + " ");
    assert HooksTrue()[6] == '=' && Trim(HooksTrue()[..6]) == Hooks();
  }

  lemma FeaturesLine()
    ensures IsFeatures(Features()) && IsHeader(Features()) && Trim(Features()) == Features()
  {
    hide Gateway, GatewayHeaders, Features, Hooks, HooksTrue, Trim, TrimEnd, Space, Plain;
    Printable();
    FeaturesToken();
    TokenTrims(Features(), '[', ']', 10);
  }

  lemma {:induction false} MergedOnlyKey(features: seq<string>, first: nat)
    requires first <= |features| && forall i | 0 <= i < first :: !IsKey(features[i])
    requires first < |features| ==> IsKey(features[first])
    ensures first == |features| ==> MergedFeatures(features, first) == features
    ensures first < |features| ==>
              first < |MergedFeatures(features, first)| && OnlyKey(MergedFeatures(features, first), first)
    ensures forall l | l in MergedFeatures(features, first) :: l in features || l == HooksTrue()
    decreases |features|
  {
    hide Gateway, GatewayHeaders, Features, Hooks, HooksTrue, IsKey;
    if features != [] {
      var init, last := features[..|features| - 1], features[|features| - 1];
      if first <= |init| {
        MergedOnlyKey(init, first);
      } else {
        NoKeys(features, first);
      }
    }
  }

  lemma {:induction false} NoKeys(features: seq<string>, first: nat)
    requires forall l | l in features :: !IsKey(l)
    ensures MergedFeatures(features, first) == features
    decreases |features|
  {
    hide Gateway, GatewayHeaders, Features, Hooks, HooksTrue, IsKey;
    if features != [] {
      assert features[|features| - 1] in features;
      NoKeys(features[..|features| - 1], first);
    }
  }

  /** After the step, the section holds exactly one key line, which says true. */
  lemma SectionOnlyKey(features: seq<string>)
    ensures HasOnlyKey(SetInSection(features))
    ensures forall l | l in SetInSection(features) :: l in features || l == HooksTrue()
  {
    hide Gateway, GatewayHeaders, Features, Hooks, HooksTrue, IsKey;
    var first := FirstIndex(features, IsKey, 0);
    MergedOnlyKey(features, first);
    assert OnlyKey(SetInSection(features), first);
  }

  /** A section that is already right stays as it is. */
  lemma SectionUnchanged(features: seq<string>, k: int)
    requires OnlyKey(features, k)
    ensures SetInSection(features) == features
  {
    hide Gateway, GatewayHeaders, Features, Hooks, HooksTrue;
    HooksLine();
    hide IsKey;
    var first := FirstIndex(features, IsKey, 0);
    assert first == k;
    KeyReplaced(features, k);
  }

  lemma {:induction false} KeyReplaced(features: seq<string>, k: nat)
    requires forall i | 0 <= i < |features| :: IsKey(features[i]) ==> i == k && features[i] == HooksTrue()
    ensures MergedFeatures(features, k) == features
    decreases |features|
  {
    hide Gateway, GatewayHeaders, Features, Hooks, HooksTrue, IsKey;
    if features != [] {
      KeyReplaced(features[..|features| - 1], k);
    }
  }

  lemma SectionFound(lines: seq<string>, start: nat)
    requires start == FirstIndex(lines, IsFeatures, 0) && start < |lines|
    ensures IsSection(lines, start, FirstIndex(lines, IsHeader, start + 1))
  {
    hide Gateway, GatewayHeaders, Features, Hooks, HooksTrue, IsFeatures, IsHeader, FirstIndex;
  }

  lemma SetLinesEnabled(lines: seq<string>, start: nat)
    requires start == FirstIndex(lines, IsFeatures, 0) && start < |lines|
    ensures Enabled(SetLines(lines, start))
  {
    hide Gateway, GatewayHeaders, Features, Hooks, HooksTrue, IsKey, IsHeader, IsFeatures, SetInSection, IsSection,
      Enabled, FirstIndex;
    SectionFound(lines, start);
    var end := FirstIndex(lines, IsHeader, start + 1);
    SectionEnabled(lines, start, end);
  }

  lemma SectionEnabled(lines: seq<string>, start: int, end: int)
    requires IsSection(lines, start, end)
    ensures Enabled(lines[..start + 1] + SetInSection(lines[start + 1..end]) + lines[end..])
  {
    hide Gateway, GatewayHeaders, Features, Hooks, HooksTrue;
    var features := lines[start + 1..end];
    SectionLines(lines, start, end);
    SectionOnlyKey(features);
    SectionHeaders(features);
    SectionBounds(lines, start, end, SetInSection(features));
    hide IsSection, SetInSection, HasOnlyKey;
  }

  /** A section whose lines are replaced by others without headers. */
  lemma SectionBounds(lines: seq<string>, start: int, end: int, merged: seq<string>)
    requires IsSection(lines, start, end) && forall l | l in merged :: !IsHeader(l)
    ensures var out := lines[..start + 1] + merged + lines[end..];
            && IsSection(out, start, start + 1 + |merged|) && out[start + 1..start + 1 + |merged|] == merged
            && out[..start + 1] == lines[..start + 1] && out[start + 1 + |merged|..] == lines[end..]
  {
    hide Gateway, GatewayHeaders, Features, Hooks, HooksTrue, IsHeader, IsFeatures;
    var out, stop := lines[..start + 1] + merged + lines[end..], start + 1 + |merged|;
    forall i | start < i < stop ensures !IsHeader(out[i]) {
      assert out[i] == merged[i - start - 1];
    }
    assert stop < |out| ==> out[stop] == lines[end];
  }

  lemma SectionHeaders(features: seq<string>)
    requires forall l | l in features :: !IsHeader(l)
    ensures forall l | l in SetInSection(features) :: !IsHeader(l)
  {
    hide Gateway, GatewayHeaders, Features, Hooks, HooksTrue;
    HooksLine();
    hide IsHeader, SetInSection;
    SectionOnlyKey(features);
  }

  lemma SetLinesHold(lines: seq<string>, start: nat)
    requires start < |lines|
    ensures SetLines(lines, start) != [] && forall l | l in SetLines(lines, start) :: l in lines || l == HooksTrue()
  {
    hide Gateway, GatewayHeaders, Features, Hooks, HooksTrue, IsHeader, SetInSection;
    var end := FirstIndex(lines, IsHeader, start + 1);
    SectionOnlyKey(lines[start + 1..end]);
  }

  lemma AppendedEnabled(lines: seq<string>)
    requires forall i | 0 <= i < |lines| :: !IsFeatures(lines[i])
    ensures Enabled(lines + [Features(), HooksTrue()])
  {
    hide Gateway, GatewayHeaders, Features, Hooks, HooksTrue;
    HooksLine();
    FeaturesLine();
    hide IsKey, IsHeader, IsFeatures;
    var out := lines + [Features(), HooksTrue()];
    assert out[|lines|] == Features() && out[|lines| + 1] == HooksTrue();
    assert IsSection(out, |lines|, |out|);
    assert OnlyKey(out[|lines| + 1..|out|], 0);
  }

  lemma EnabledParts(lines: seq<string>) returns (start: int, end: int, k: int)
    requires Enabled(lines)
    ensures IsSection(lines, start, end) && OnlyKey(lines[start + 1..end], k)
  {
    hide Gateway, GatewayHeaders, Features, Hooks, HooksTrue, OnlyKey;
    start, end :| IsSection(lines, start, end) && HasOnlyKey(lines[start + 1..end]);
    k :| OnlyKey(lines[start + 1..end], k);
  }

  lemma EnabledFrom(lines: seq<string>, start: int, end: int, k: int)
    requires IsSection(lines, start, end) && OnlyKey(lines[start + 1..end], k)
    ensures Enabled(lines)
  {
    hide Gateway, GatewayHeaders, Features, Hooks, HooksTrue, OnlyKey;
    assert HasOnlyKey(lines[start + 1..end]);
  }

  /** Where hooks are enabled already, the step changes nothing. */
  lemma EnabledFixed(lines: seq<string>)
    requires Enabled(lines)
    ensures FirstIndex(lines, IsFeatures, 0) < |lines| && SetLines(lines, FirstIndex(lines, IsFeatures, 0)) == lines
  {
    hide Gateway, GatewayHeaders, Features, Hooks, HooksTrue, IsKey, IsHeader, IsFeatures, SetInSection, OnlyKey, Enabled;
    var start, end, k := EnabledParts(lines);
    assert FirstIndex(lines, IsFeatures, 0) == start && FirstIndex(lines, IsHeader, start + 1) == end;
    SectionUnchanged(lines[start + 1..end], k);
    ThreeParts(lines, start, end);
  }

  lemma ThreeParts(lines: seq<string>, start: int, end: int)
    requires 0 <= start < end <= |lines|
    ensures lines[..start + 1] + lines[start + 1..end] + lines[end..] == lines
  {
  }

  /** Trimming the end of a line does not change what kind of line it is. */
  lemma TrimmedKind(line: string)
    ensures IsFeatures(TrimEnd(line)) == IsFeatures(line) && IsHeader(TrimEnd(line)) == IsHeader(line)
    ensures IsKey(TrimEnd(line)) == IsKey(line)
  {
    hide Gateway, GatewayHeaders, Features, Hooks, HooksTrue, Trim;
    TrimOfTrimEnd(line);
    var t := TrimEnd(line);
    forall j | 0 <= j < |line| && line[j] == '=' ensures j < |t| && t[j] == '=' && t[..j] == line[..j] {
      assert !Space('=');
    }
  }

  lemma BlankKind(line: string)
    requires TrimEnd(line) == ""
    ensures !IsFeatures(line) && !IsHeader(line) && !IsKey(line) && line != HooksTrue()
  {
    hide Gateway, GatewayHeaders, Features, Hooks, HooksTrue;
    TrimmedKind(line);
    TrimNothing();
    HooksLine();
    FeaturesToken();
    HooksToken();
    hide Trim, TrimEnd;
    assert !IsKey("");
  }

  /** Line by line, a text with a trimmed end keeps its kinds of lines; what it loses is blank. */
  lemma TrimmedKinds(lines: seq<string>)
    requires lines != []
    ensures var r := TrimLines(lines);
            && (forall i | 0 <= i < |r| ::
                  IsFeatures(r[i]) == IsFeatures(lines[i]) && IsHeader(r[i]) == IsHeader(lines[i])
                      && IsKey(r[i]) == IsKey(lines[i])
                  && (lines[i] == HooksTrue() ==> r[i] == HooksTrue()))
            && (forall i | |r| <= i < |lines| :: !IsHeader(lines[i]) && lines[i] != HooksTrue())
  {
    hide Gateway, GatewayHeaders, Features, Hooks, HooksTrue;
    HooksLine();
    hide IsKey, IsHeader, IsFeatures, TrimLines, TrimEnd;
    var r := TrimLines(lines);
    forall i | |r| <= i < |lines| ensures !IsHeader(lines[i]) && lines[i] != HooksTrue() {
      BlankKind(lines[i]);
    }
    forall i | 0 <= i < |r| ensures r[i] == lines[i] || r[i] == TrimEnd(lines[i]) {
      assert i < |r| - 1 ==> r[i] == r[..|r| - 1][i] && r[..|r| - 1][i] == lines[i];
    }
    forall i | 0 <= i < |r|
      ensures IsFeatures(r[i]) == IsFeatures(lines[i]) && IsHeader(r[i]) == IsHeader(lines[i])
          && IsKey(r[i]) == IsKey(lines[i])
    {
      TrimmedKind(lines[i]);
    }
  }

  lemma OnlyKeySlice(lines: seq<string>, r: seq<string>, start: int, end: int, stop: int, k: int)
    requires 0 <= start < end <= |lines| && start + 1 + k < stop <= end && stop <= |r| && OnlyKey(lines[start + 1..end], k)
    requires forall i | start < i < stop ::
          IsKey(r[i]) == IsKey(lines[i]) && (lines[i] == HooksTrue() ==> r[i] == HooksTrue())
    ensures OnlyKey(r[start + 1..stop], k)
  {
    hide Gateway, GatewayHeaders, Features, Hooks, HooksTrue, IsKey;
    var a, b := lines[start + 1..end], r[start + 1..stop];
    forall i | 0 <= i < |b| && i != k ensures !IsKey(b[i]) {
      assert b[i] == r[start + 1 + i] && a[i] == lines[start + 1 + i];
    }
    assert b[k] == r[start + 1 + k] && a[k] == lines[start + 1 + k];
  }

  lemma EnabledTrim(lines: seq<string>)
    requires lines != [] && Enabled(lines)
    ensures Enabled(TrimLines(lines))
  {
    hide Gateway, GatewayHeaders, Features, Hooks, HooksTrue;
    TrimmedKinds(lines);
    hide IsKey, IsHeader, IsFeatures, TrimLines, IsSection, OnlyKey, Enabled;
    var start, end, k := EnabledParts(lines);
    KeyLine(lines, start, end, k);
    var r := TrimLines(lines);
    var stop := if end <= |r| then end else |r|;
    OnlyKeySlice(lines, r, start, end, stop, k);
    SectionSlice(lines, r, start, end, stop);
    EnabledFrom(r, start, stop, k);
  }

  lemma KeyLine(lines: seq<string>, start: int, end: int, k: int)
    requires IsSection(lines, start, end) && OnlyKey(lines[start + 1..end], k)
    ensures 0 <= start < start + 1 + k < end <= |lines| && lines[start + 1 + k] == HooksTrue()
  {
    hide Gateway, GatewayHeaders, Features, Hooks, HooksTrue;
  }

  lemma SectionSlice(lines: seq<string>, r: seq<string>, start: int, end: int, stop: int)
    requires IsSection(lines, start, end) && start < stop && stop == (if end <= |r| then end else |r|) && |r| <= |lines|
    requires forall i | 0 <= i < |r| :: IsFeatures(r[i]) == IsFeatures(lines[i]) && IsHeader(r[i]) == IsHeader(lines[i])
    ensures IsSection(r, start, stop)
  {
    hide Gateway, GatewayHeaders, Features, Hooks, HooksTrue, IsHeader, IsFeatures;
  }

  // ---------------------------------------------------------------- the other lines

  datatype Phase = Before | In | After

  /** Where a line by line reading stands with respect to the first features section. */
  function PhaseAfter(lines: seq<string>): Phase
  {
    if lines == [] then Before
    else
      var last := lines[|lines| - 1];
      match PhaseAfter(lines[..|lines| - 1])
      case Before => if IsFeatures(last) then In else Before
      case In => if IsHeader(last) then After else In
      case After => After
  }

  /** All lines but the hooks keys of the first features section. */
  function Others(lines: seq<string>): seq<string>
  {
    if lines == [] then []
    else
      var init, last := lines[..|lines| - 1], lines[|lines| - 1];
      Others(init) + (if PhaseAfter(init).In? && !IsHeader(last) && IsKey(last) then [] else [last])
  }

  function NonKeys(lines: seq<string>): seq<string>
  {
    if lines == [] then []
    else NonKeys(lines[..|lines| - 1]) + (if IsKey(lines[|lines| - 1]) then [] else [lines[|lines| - 1]])
  }

  lemma {:induction false} OthersBefore(lines: seq<string>)
    requires forall i | 0 <= i < |lines| :: !IsFeatures(lines[i])
    ensures PhaseAfter(lines) == Before && Others(lines) == lines
    decreases |lines|
  {
    hide Gateway, GatewayHeaders, Features, Hooks, HooksTrue, IsKey, IsHeader, IsFeatures;
    if lines != [] {
      OthersBefore(lines[..|lines| - 1]);
    }
  }

  lemma {:induction false} OthersIn(a: seq<string>, b: seq<string>)
    requires PhaseAfter(a) == In && forall l | l in b :: !IsHeader(l)
    ensures PhaseAfter(a + b) == In && Others(a + b) == Others(a) + NonKeys(b)
    decreases |b|
  {
    hide Gateway, GatewayHeaders, Features, Hooks, HooksTrue, IsKey, IsHeader, IsFeatures;
    if b == [] {
      assert a + b == a;
    } else {
      assert b[|b| - 1] in b && (a + b)[..|a + b| - 1] == a + b[..|b| - 1];
      OthersIn(a, b[..|b| - 1]);
    }
  }

  lemma {:induction false} OthersAfter(a: seq<string>, b: seq<string>)
    requires b != [] ==> PhaseAfter(a) == In && IsHeader(b[0])
    ensures b != [] ==> PhaseAfter(a + b) == After
    ensures Others(a + b) == Others(a) + b
    decreases |b|
  {
    hide Gateway, GatewayHeaders, Features, Hooks, HooksTrue, IsKey, IsHeader, IsFeatures;
    if b == [] {
      assert a + b == a;
    } else {
      var init := b[..|b| - 1];
      assert (a + b)[..|a + b| - 1] == a + init;
      assert init == [] ==> a + init == a;
      OthersAfter(a, init);
    }
  }

  /** The other lines, read off the section's bounds. */
  lemma OthersOfSection(lines: seq<string>, start: int, end: int)
    requires IsSection(lines, start, end)
    ensures Others(lines) == lines[..start + 1] + NonKeys(lines[start + 1..end]) + lines[end..]
  {
    hide Gateway, GatewayHeaders, Features, Hooks, HooksTrue, IsKey, IsHeader, IsFeatures;
    var head, b, c := lines[..start + 1], lines[start + 1..end], lines[end..];
    OthersHead(lines[..start], lines[start]);
    assert lines[..start] + [lines[start]] == head;
    OthersIn(head, b);
    OthersAfter(head + b, c);
    ThreeParts(lines, start, end);
  }

  lemma OthersHead(init: seq<string>, last: string)
    requires IsFeatures(last) && forall i | 0 <= i < |init| :: !IsFeatures(init[i])
    ensures PhaseAfter(init + [last]) == In && Others(init + [last]) == init + [last]
  {
    hide Gateway, GatewayHeaders, Features, Hooks, HooksTrue, IsKey, IsHeader, IsFeatures, Others, PhaseAfter;
    OthersBefore(init);
    OthersSnoc(init, last);
  }

  lemma OthersSnoc(init: seq<string>, last: string)
    requires PhaseAfter(init) == Before && IsFeatures(last)
    ensures PhaseAfter(init + [last]) == In && Others(init + [last]) == Others(init) + [last]
  {
    hide Gateway, GatewayHeaders, Features, Hooks, HooksTrue, IsKey, IsHeader, IsFeatures;
    assert (init + [last])[..|init|] == init;
  }

  lemma {:induction false} MergedNonKeys(features: seq<string>, first: nat)
    ensures NonKeys(MergedFeatures(features, first)) == NonKeys(features)
    decreases |features|
  {
    hide Gateway, GatewayHeaders, Features, Hooks, HooksTrue;
    HooksLine();
    hide IsKey, IsHeader, IsFeatures;
    if features != [] {
      var init, last := features[..|features| - 1], features[|features| - 1];
      MergedNonKeys(init, first);
      var m := MergedFeatures(init, first);
      assert (m + [last])[..|m|] == m && (m + [HooksTrue()])[..|m|] == m && m + [] == m;
    }
  }

  lemma SetInSectionNonKeys(features: seq<string>)
    ensures NonKeys(SetInSection(features)) == NonKeys(features)
  {
    hide Gateway, GatewayHeaders, Features, Hooks, HooksTrue;
    HooksLine();
    hide IsKey;
    var first := FirstIndex(features, IsKey, 0);
    var m := MergedFeatures(features, first);
    MergedNonKeys(features, first);
    assert (m + [HooksTrue()])[..|m|] == m && m + [] == m;
  }

  /** The feature step touches no line but the hooks keys of the first features section the source delimits. */
  lemma SetLinesOthers(lines: seq<string>, start: nat)
    requires start == FirstIndex(lines, IsFeatures, 0) && start < |lines|
    ensures Others(SetLines(lines, start)) == Others(lines)
  {
    hide Gateway, GatewayHeaders, Features, Hooks, HooksTrue, IsKey, IsHeader, IsFeatures, SetInSection, IsSection,
      FirstIndex, Others, NonKeys;
    var end := FirstIndex(lines, IsHeader, start + 1);
    SectionFound(lines, start);
    var features := lines[start + 1..end];
    SectionOthers(lines, start, end);
  }

  lemma SectionOthers(lines: seq<string>, start: int, end: int)
    requires IsSection(lines, start, end)
    ensures Others(lines[..start + 1] + SetInSection(lines[start + 1..end]) + lines[end..]) == Others(lines)
  {
    hide Gateway, GatewayHeaders, Features, Hooks, HooksTrue;
    SectionLines(lines, start, end);
    hide SetInSection, NonKeys, Others, IsSection;
    var features := lines[start + 1..end];
    var merged := SetInSection(features);
    SectionHeaders(features);
    SectionBounds(lines, start, end, merged);
    SetInSectionNonKeys(features);
    OthersOfSection(lines, start, end);
    OthersOfSection(lines[..start + 1] + merged + lines[end..], start, start + 1 + |merged|);
  }

  lemma SectionLines(lines: seq<string>, start: int, end: int)
    requires IsSection(lines, start, end)
    ensures 0 <= start < end <= |lines| && forall l | l in lines[start + 1..end] :: !IsHeader(l)
  {
    hide IsHeader, IsFeatures;
  }

  lemma {:induction false} OthersFirst(lines: seq<string>)
    requires lines != []
    ensures Others(lines) != []
    decreases |lines|
  {
    hide Gateway, GatewayHeaders, Features, Hooks, HooksTrue, IsKey, IsHeader, IsFeatures;
    if |lines| > 1 {
      OthersFirst(lines[..|lines| - 1]);
    }
  }

  lemma TrimLinesSnoc(a: seq<string>, l: string)
    ensures a != [] && TrimEnd(l) == "" ==> TrimLines(a + [l]) == TrimLines(a)
    ensures TrimLines(a + [TrimEnd(l)]) == TrimLines(a + [l])
  {
    TrimEndTwice(l);
    assert (a + [l])[..|a|] == a && (a + [TrimEnd(l)])[..|a|] == a;
  }

  /** Trimming first or last makes no difference to the other lines, up to trailing white space. */
  lemma {:induction false} OthersTrimmed(lines: seq<string>)
    requires lines != []
    ensures Others(TrimLines(lines)) != [] && Others(lines) != []
    ensures TrimLines(Others(TrimLines(lines))) == TrimLines(Others(lines))
    decreases |lines|
  {
    hide Gateway, GatewayHeaders, Features, Hooks, HooksTrue;
    var init, last := lines[..|lines| - 1], lines[|lines| - 1];
    OthersFirst(lines);
    OthersFirst(TrimLines(lines));
    if TrimEnd(last) == "" && init != [] {
      OthersTrimmed(init);
      BlankKind(last);
      hide IsKey, IsHeader, IsFeatures;
      TrimLinesSnoc(Others(init), last);
    } else {
      TrimmedKind(last);
      hide IsKey, IsHeader, IsFeatures;
      var t := init + [TrimEnd(last)];
      assert TrimLines(lines) == t && t[..|init|] == init;
      TrimLinesSnoc(Others(init), last);
    }
  }
}
