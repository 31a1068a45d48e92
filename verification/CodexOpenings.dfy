/** How often a merged Codex configuration opens a gateway table (src/codex-config.ts), when a comment behind a header is
    not taken for a different line. */
module CodexOpenings {
  import opened CodexConfig
  import opened CodexFeatures
  import opened CodexSections
  import opened CodexTables
  import opened TextLines

  lemma {:induction false} StartEnd(s: string)
    ensures TrimStart(TrimEnd(s)) == TrimEnd(TrimStart(s))
    decreases |s|
  {
    hide Space;
    if s != "" && Space(s[0]) {
      StartEnd(s[1..]);
      TrimEndTail(s);
    }
  }

  lemma NameTail(r: string)
    ensures var a, b := TrimStart(r), TrimStart(TrimEnd(r));
            a == "" || a[0] == '#' <==> b == "" || b[0] == '#'
  {
    hide Space;
    StartEnd(r);
    var a := TrimStart(r);
    if a != "" {
      assert TrimEnd(a) != "" by {
        assert !Space(a[0]);
      }
      assert TrimEnd(a)[0] == a[0];
    }
  }

  /** Trimming the end of a line does not change which header it is. */
  lemma NamesTrimmed(line: string, header: string)
    requires header != "" && !Space(header[|header| - 1])
    ensures Names(TrimEnd(line), header) <==> Names(line, header)
  {
    hide Space;
    StartEnd(line);
    var t := TrimStart(line);
    if header <= t {
      var r := t[|header|..];
      assert t == header + r;
      TrimEndAppend(header, r);
      TrimEndUnique(header, header);
      NameTail(r);
      assert TrimEnd(t)[|header|..] == TrimEnd(r);
    } else {
      assert TrimEnd(t) <= t;
    }
  }

  // ---------------------------------------------------------------- how often a table is opened

  function CountNamed(lines: seq<string>, header: string): nat
  {
    if lines == [] then 0
    else CountNamed(lines[..|lines| - 1], header) + if Names(lines[|lines| - 1], header) then 1 else 0
  }

  lemma {:induction false} CountNamedAppend(a: seq<string>, b: seq<string>, header: string)
    ensures CountNamed(a + b, header) == CountNamed(a, header) + CountNamed(b, header)
    decreases |b|
  {
    hide Names;
    if b == [] {
      assert a + b == a;
    } else {
      assert (a + b)[..|a + b| - 1] == a + b[..|b| - 1];
      CountNamedAppend(a, b[..|b| - 1], header);
    }
  }

  lemma CountNamedOne(l: string, header: string)
    ensures CountNamed([l], header) == if Names(l, header) then 1 else 0
  {
    hide Names;
    assert [l][..0] == [];
  }

  lemma {:induction false} CountNamedZero(lines: seq<string>, header: string)
    ensures CountNamed(lines, header) == 0 <==> forall l | l in lines :: !Names(l, header)
    decreases |lines|
  {
    hide Names;
    if lines != [] {
      CountNamedZero(lines[..|lines| - 1], header);
      assert lines == lines[..|lines| - 1] + [lines[|lines| - 1]];
    }
  }

  /** A gateway header: what the counting of its lines relies on. */
  predicate Counted(header: string)
  {
    |header| > 1 && header[0] == '[' && header[1] == 'm' && header[|header| - 1] == ']'
  }

  lemma FixedNames(header: string)
    requires Counted(header)
    ensures !Names(Features(), header) && !Names(HooksTrue(), header) && !Names("", header)
  {
    FeaturesToken();
    HooksLine();
    KeyKind(HooksTrue());
    hide Space, HooksTrue, Features;
    if Names(HooksTrue(), header) {
      NamedOpens(HooksTrue(), header);
    }
    FeaturesSecond();
    OtherName(Features(), header);
  }

  lemma FeaturesSecond()
    ensures |Features()| > 1 && Features()[0] == '[' && Features()[1] != 'm'
  {
  }

  lemma {:induction false} CountNonKeys(lines: seq<string>, header: string)
    requires Counted(header)
    ensures CountNamed(NonKeys(lines), header) == CountNamed(lines, header)
    decreases |lines|
  {
    hide IsKey, Names, Opens;
    if lines != [] {
      var init, last := lines[..|lines| - 1], lines[|lines| - 1];
      CountNonKeys(init, header);
      if IsKey(last) {
        HeaderKinds(last);
        if Names(last, header) {
          NamedOpens(last, header);
        }
        assert NonKeys(init) + [] == NonKeys(init);
      } else {
        assert (NonKeys(init) + [last])[..|NonKeys(init)|] == NonKeys(init);
      }
    }
  }

  lemma CountFeatured(lines: seq<string>, header: string)
    requires lines != [] && Counted(header)
    ensures CountNamed(FeatureLines(lines), header) == CountNamed(lines, header)
  {
    hide IsKey, Names, IsFeatures, IsHeader, Features, HooksTrue, SetInSection, CountNamed;
    var start := FirstIndex(lines, IsFeatures, 0);
    if start < |lines| {
      CountSet(lines, start, FirstIndex(lines, IsHeader, start + 1), header);
    } else if lines == [""] {
      CountAdded([], header);
      CountBlank(header);
    } else {
      CountAdded(lines, header);
    }
  }

  lemma CountBlank(header: string)
    requires Counted(header)
    ensures CountNamed([""], header) == CountNamed([], header)
  {
    FixedNames(header);
    hide Names, Features, HooksTrue, CountNamed;
    CountNamedOne("", header);
    CountNamedZero([], header);
  }

  lemma CountSet(lines: seq<string>, start: int, end: int, header: string)
    requires 0 <= start < end <= |lines| && Counted(header)
    ensures CountNamed(lines[..start + 1] + SetInSection(lines[start + 1..end]) + lines[end..], header) ==
            CountNamed(lines, header)
  {
    hide IsKey, Names, SetInSection, CountNamed, NonKeys;
    var pre, section, post := lines[..start + 1], lines[start + 1..end], lines[end..];
    SetInSectionNonKeys(section);
    CountNonKeys(section, header);
    CountNonKeys(SetInSection(section), header);
    CountThree(pre, section, post, header);
    CountThree(pre, SetInSection(section), post, header);
    ThreeParts(lines, start, end);
  }

  lemma CountAdded(lines: seq<string>, header: string)
    requires Counted(header)
    ensures CountNamed(lines + [Features(), HooksTrue()], header) == CountNamed(lines, header)
  {
    FixedNames(header);
    hide Names, Features, HooksTrue, CountNamed;
    CountNamedAppend(lines, [Features(), HooksTrue()], header);
    CountNamedZero([Features(), HooksTrue()], header);
  }

  lemma CountThree(a: seq<string>, b: seq<string>, c: seq<string>, header: string)
    ensures CountNamed(a + b + c, header) == CountNamed(a, header) + CountNamed(b, header) + CountNamed(c, header)
  {
    hide Names, CountNamed;
    CountNamedAppend(a + b, c, header);
    CountNamedAppend(a, b, header);
  }

  lemma {:induction false} CountTrimmed(lines: seq<string>, header: string)
    requires lines != [] && Counted(header)
    ensures CountNamed(TrimLines(lines), header) == CountNamed(lines, header)
    decreases |lines|
  {
    assert !Space(']');
    hide Names, Space;
    var init, last := lines[..|lines| - 1], lines[|lines| - 1];
    NamesTrimmed(last, header);
    if TrimEnd(last) == "" && init != [] {
      FixedNames(header);
      CountTrimmed(init, header);
    } else {
      assert (init + [TrimEnd(last)])[..|init|] == init;
    }
  }

  /** The body opens a gateway table as often as the lines outside the removed sections do. */
  lemma CountBody(currentText: string, header: string)
    requires Counted(header)
    ensures CountNamed(BodyLines(currentText), header) == CountNamed(Outside(currentText), header)
  {
    var lines := TrimLines(Outside(currentText));
    hide Features, HooksTrue, Gateway, GatewayHeaders, FeatureLines, Outside, BodyLines, TrimLines, Split, Join,
      SetTomlFeature, CountNamed, Names;
    BodyIsTrimmed(currentText);
    OutsideFacts(currentText);
    TrimLinesTwice(Outside(currentText));
    FeatureStep(lines);
    CountTrimmed(Outside(currentText), header);
    CountFeatured(lines, header);
    CountTrimmed(Featured(currentText), header);
  }

  lemma GatewayCounted()
    ensures Counted(Gateway()) && Counted(GatewayHeaders())
    ensures Names(Gateway(), Gateway()) && Names(GatewayHeaders(), GatewayHeaders())
    ensures !Names(Gateway(), GatewayHeaders()) && !Names(GatewayHeaders(), Gateway())
  {
    hide Prefix, ServerId, Suffix, Space, Trim;
    GatewayLines();
    GatewayToken();
    GatewayHeadersToken();
    TrimmedIsNamed(Gateway(), Gateway());
    TrimmedIsNamed(GatewayHeaders(), GatewayHeaders());
    DistinctHeaders();
  }

  lemma DistinctHeaders()
    ensures !Names(Gateway(), GatewayHeaders()) && !Names(GatewayHeaders(), Gateway())
  {
    Printable();
    GatewayToken();
    GatewayHeadersToken();
    PrefixToken();
    ServerIdToken();
    SuffixToken();
    hide Prefix, ServerId, Suffix, Space, Plain;
    assert Gateway()[29] == ']' && GatewayHeaders()[29] == '.';
    TrimStartSolid(Gateway());
    TrimStartSolid(GatewayHeaders());
  }

  lemma FieldsNotNamed(url: string, authorization: string, header: string)
    requires Counted(header)
    ensures !Names("url = " + url, header) && !Names("Authorization = " + authorization, header)
  {
    var u, a := "url = " + url, "Authorization = " + authorization;
    assert u[0] == 'u' && a[0] == 'A' && !Space('u') && !Space('A');
    TrimStartSolid(u);
    TrimStartSolid(a);
  }

  lemma CountProjection(url: string, authorization: string, header: string)
    requires header == Gateway() || header == GatewayHeaders()
    ensures CountNamed([""] + ProjectionLines(url, authorization) + [""], header) == 1
  {
    GatewayCounted();
    FixedNames(header);
    FieldsNotNamed(url, authorization, header);
    hide Names, Gateway, GatewayHeaders, Features, HooksTrue;
    var u, a := "url = " + url, "Authorization = " + authorization;
    CountSeven(Gateway(), u, GatewayHeaders(), a, header);
  }

  lemma CountSeven(gateway: string, u: string, headers: string, a: string, header: string)
    ensures CountNamed([""] + [gateway, u, "", headers, a] + [""], header) ==
            3 * CountNamed([""], header) + CountNamed([gateway], header) + CountNamed([u], header)
            + CountNamed([headers], header) + CountNamed([a], header)
  {
    hide Names, CountNamed;
    CountNamedAppend([""] + [gateway, u, "", headers, a], [""], header);
    CountNamedAppend([""], [gateway, u, "", headers, a], header);
    CountNamedAppend([gateway, u, "", headers], [a], header);
    CountNamedAppend([gateway, u, ""], [headers], header);
    CountNamedAppend([gateway, u], [""], header);
    CountNamedAppend([gateway], [u], header);
    assert [gateway] + [u] == [gateway, u] && [gateway, u] + [""] == [gateway, u, ""];
    assert [gateway, u, ""] + [headers] == [gateway, u, "", headers];
    assert [gateway, u, "", headers] + [a] == [gateway, u, "", headers, a];
  }

  function Gateways(): set<string>
  {
    {Gateway(), GatewayHeaders()}
  }

  /** The two removals are one: of the given text, they leave the lines at which no gateway removal is open. */
  lemma OutsideIs(currentText: string)
    ensures Outside(currentText) == Lines(Survivors(Split(currentText), Gateways()))
  {
    GatewayLines();
    hide Gateway, GatewayHeaders, Trim, Survivors, Split, Closes;
    var lines := Split(currentText);
    var once := Survivors(lines, {Gateway()});
    TwoRemovals(lines, {Gateway()}, {GatewayHeaders()});
    assert {Gateway()} + {GatewayHeaders()} == Gateways();
    if once == [] {
      NothingRemoved([""], {GatewayHeaders()});
      NothingRemoved(once, {GatewayHeaders()});
    }
  }

  /** For any reading of the given text that says of each line whether it opens a gateway table: the two removals together
      leave exactly the other tables' lines if, and at every place only if, no line is misread. */
  lemma GatewayRemovalExact(currentText: string, reading: seq<Kind>)
    requires |reading| == |Split(currentText)|
    ensures Agrees(Split(currentText), reading, Gateways()) <==>
            forall i | 0 <= i < |reading| :: !Misread(Split(currentText), reading, Gateways(), i)
    ensures Agrees(Split(currentText), reading, Gateways()) ==>
              Outside(currentText) == Lines(CodexSections.Kept(Split(currentText), reading))
  {
    hide Gateway, GatewayHeaders, Split, Agrees, Misread, CodexSections.Kept, Survivors;
    OutsideIs(currentText);
    RemovalExact(Split(currentText), reading, Gateways());
  }

  /** The header at line `i` is gone: a line that trims to a gateway header precedes it, or is it, with no closing line in
      between that is not such a header itself. */
  ghost predicate Gone(lines: seq<string>, i: nat)
    requires i < |lines|
  {
    exists h | 0 <= h <= i ::
      Trim(lines[h]) in Gateways() && forall k | h < k <= i :: Trim(lines[k]) in Gateways() || !Closes(lines[k])
  }

  lemma GoneMeans(lines: seq<string>, i: nat)
    requires i < |lines|
    ensures Gone(lines, i) <==> Removing(lines[..i + 1], Gateways())
  {
    hide Trim, Closes, Gateways, Removing;
    var before := lines[..i + 1];
    RemovingMeans(before, Gateways());
    if h :| 0 <= h <= i && Trim(lines[h]) in Gateways() &&
            forall k | h < k <= i :: Trim(lines[k]) in Gateways() || !Closes(lines[k])
    {
      assert OpenSince(before, Gateways(), h);
    }
    if h :| OpenSince(before, Gateways(), h) {
      assert before[h] == lines[h];
      forall k | h < k <= i ensures Trim(lines[k]) in Gateways() || !Closes(lines[k]) {
        assert before[k] == lines[k];
      }
    }
  }

  /** A surviving line that opens the table stands where no removal is open. */
  lemma NamedLeft(lines: seq<string>, header: string)
    ensures (exists l | l in Survivors(lines, Gateways()) :: Names(l, header)) <==>
            (exists i | 0 <= i < |lines| :: Names(lines[i], header) && !Gone(lines, i))
  {
    hide Names, Survivors, Removing, Gateways, Gone;
    var left := Survivors(lines, Gateways());
    if i :| 0 <= i < |lines| && Names(lines[i], header) && !Gone(lines, i) {
      GoneMeans(lines, i);
      SurvivorAt(lines, Gateways(), lines[i]);
      assert lines[i] in left;
    }
    if l :| l in left && Names(l, header) {
      SurvivorAt(lines, Gateways(), l);
      var i :| 0 <= i < |lines| && lines[i] == l && !Removing(lines[..i + 1], Gateways());
      GoneMeans(lines, i);
    }
  }

  lemma NamedAnyway(left: seq<string>, header: string)
    requires Counted(header)
    ensures (exists l | l in Lines(left) :: Names(l, header)) <==> exists l | l in left :: Names(l, header)
  {
    FixedNames(header);
    hide Names, Features, HooksTrue;
  }

  /** Every line of the text that opens the table is gone. */
  ghost predicate AllGone(lines: seq<string>, header: string)
  {
    forall i | 0 <= i < |lines| && Names(lines[i], header) :: Gone(lines, i)
  }

  /** None of the lines the removals leave opens the table exactly when each line of the text that does is gone. */
  lemma NoneLeft(currentText: string, header: string)
    requires Counted(header)
    ensures CountNamed(Outside(currentText), header) == 0 <==> AllGone(Split(currentText), header)
  {
    OutsideIs(currentText);
    CountNamedZero(Outside(currentText), header);
    hide Names, Split, Outside, Survivors, Gateways, CountNamed, Gone;
    NamedAnyway(Survivors(Split(currentText), Gateways()), header);
    NamedLeft(Split(currentText), header);
  }

  /** A merged text opens a gateway table once more than the lines outside the removed sections do: exactly once if and
      only if every line of the given text that is its header, comments ignored, is gone. */
  lemma MergedOpens(currentText: string, url: string, authorization: string, header: string)
    requires Quoted(url) && Quoted(authorization) && (header == Gateway() || header == GatewayHeaders())
    ensures var merged := Split(Merged(currentText, RenderCodexGatewayConfig(url, authorization)));
            && CountNamed(merged, header) == CountNamed(Outside(currentText), header) + 1
            && (CountNamed(merged, header) == 1 <==> AllGone(Split(currentText), header))
  {
    hide Gateway, GatewayHeaders, Features, HooksTrue, Merged, Outside, BodyLines, Split, CountNamed, Names, AllGone,
      RenderCodexGatewayConfig, ProjectionLines, Quoted;
    MergedText(currentText, url, authorization);
    GatewayCounted();
    var body, p := BodyLines(currentText), ProjectionLines(url, authorization);
    assert MergedLines(body, url, authorization) == body + ([""] + p + [""]);
    CountNamedAppend(body, [""] + p + [""], header);
    CountProjection(url, authorization, header);
    CountBody(currentText, header);
    NoneLeft(currentText, header);
  }

  /** Merging into a text whose gateway section has a commented header writes the same table a second time. */
  lemma CommentedGatewayTwice(setting: string, url: string, authorization: string)
    requires Quoted(url) && Quoted(authorization)
    requires Plain(setting) && !Opens(setting)
    ensures var text := Join([Gateway() + Comment(), setting]);
            CountNamed(Split(Merged(text, RenderCodexGatewayConfig(url, authorization))), Gateway()) == 2
  {
    hide Gateway, GatewayHeaders, Comment, Merged, Split, RenderCodexGatewayConfig, Quoted, Names, Opens, Trim, Survivors,
      Removing, Join, Plain;
    var lines := [Gateway() + Comment(), setting];
    CommentedOutside(setting);
    MergedOpens(Join(lines), url, authorization, Gateway());
    GatewayToken();
    CommentedHeader(Gateway(), 30);
    GatewayCounted();
    if Names(setting, Gateway()) {
      NamedOpens(setting, Gateway());
    }
    CountNamedOne(lines[0], Gateway());
    CountNamedOne(setting, Gateway());
    CountNamedAppend([lines[0]], [setting], Gateway());
    assert [lines[0]] + [setting] == lines;
  }

  lemma CommentedOutside(setting: string)
    requires Plain(setting) && !Opens(setting)
    ensures Outside(Join([Gateway() + Comment(), setting])) == [Gateway() + Comment(), setting]
  {
    hide Gateway, GatewayHeaders, Comment, Split, Names, Opens, Trim, Survivors, Removing, Join, Plain;
    var lines := [Gateway() + Comment(), setting];
    GatewayToken();
    GatewayHeadersToken();
    CommentedHeader(Gateway(), 30);
    GatewayCounted();
    CommentToken();
    PlainAppend(Gateway(), Comment());
    SplitJoin(lines);
    CommentedDiffers();
    NotTrimmed(setting, Gateway());
    NotTrimmed(setting, GatewayHeaders());
    NothingRemoved(lines, {Gateway()});
    NothingRemoved(lines, {GatewayHeaders()});
  }

  lemma NotTrimmed(setting: string, header: string)
    requires Counted(header) && !Opens(setting)
    ensures Trim(setting) != header
  {
    hide Trim, Opens, Names;
    if Trim(setting) == header {
      TrimmedIsNamed(setting, header);
      NamedOpens(setting, header);
    }
  }

  lemma CommentedDiffers()
    ensures Gateway() + Comment() != GatewayHeaders()
  {
    GatewayToken();
    GatewayHeadersToken();
    CommentToken();
    hide Gateway, GatewayHeaders, Comment;
    var line := Gateway() + Comment();
    assert |line| == 37;
  }
}
