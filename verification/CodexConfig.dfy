/** Merging the gateway projection into a Codex configuration (src/codex-config.ts): the merged text line by line, and
    merging twice. */
module CodexConfig {
  import opened CodexFeatures
  import opened CodexSections
  import opened TextLines

  // ---------------------------------------------------------------- the merge

  function JoinWith(parts: seq<string>, separator: string): string
  {
    if parts == [] then ""
    else if |parts| == 1 then parts[0]
    else parts[0] + separator + JoinWith(parts[1..], separator)
  }

  function EnsureTrailingNewline(text: string): string
  {
    if text != "" && text[|text| - 1] == '\n' then text else text + "\n"
  }

  ghost function Removed(text: string, header: string): string
  {
    Join(Survivors(Split(text), {header}))
  }

  /** The existing text without its gateway sections and with hooks enabled. */
  ghost function Body(currentText: string): string
  {
    TrimEnd(SetTomlFeature(TrimEnd(Removed(Removed(currentText, Gateway()), GatewayHeaders()))))
  }

  ghost function Merged(currentText: string, projection: string): string
  {
    EnsureTrailingNewline(JoinWith(NonEmpty([Body(currentText), TrimEnd(projection)]), "\n\n"))
  }

  method MergeCodexConfig(currentText: string, projection: string) returns (text: string)
    ensures text == Merged(currentText, projection)
  {
    var removed := RemoveTomlSection(currentText, Gateway());
    removed := RemoveTomlSection(removed, GatewayHeaders());
    var currentWithHooks := SetTomlFeature(TrimEnd(removed));
    text := EnsureTrailingNewline(JoinWith(NonEmpty([TrimEnd(currentWithHooks), TrimEnd(projection)]), "\n\n"));
  }

  /** A string as JSON.stringify writes it: quoted, on one line. */
  predicate Quoted(s: string)
  {
    |s| >= 2 && s[0] == '"' && s[|s| - 1] == '"' && Plain(s)
  }

  /** The lines of the rendered projection, but for the last, empty one. */
  function ProjectionLines(url: string, authorization: string): (lines: seq<string>)
    ensures |lines| == 5
  {
    [Gateway(), "url = " + url, "", GatewayHeaders(), "Authorization = " + authorization]
  }

  function RenderCodexGatewayConfig(url: string, authorization: string): string
  {
    Join(ProjectionLines(url, authorization) + [""])
  }

  // ---------------------------------------------------------------- the body, line by line

  function Lines(lines: seq<string>): (r: seq<string>)
    ensures r != [] && Join(r) == Join(lines)
  {
    if lines == [] then [""] else lines
  }

  predicate NoGateway(lines: seq<string>)
  {
    forall l | l in lines :: Trim(l) != Gateway() && Trim(l) != GatewayHeaders()
  }

  /** The lines left by both removals. */
  ghost function Outside(currentText: string): seq<string>
  {
    Lines(Survivors(Lines(Survivors(Split(currentText), {Gateway()})), {GatewayHeaders()}))
  }

  lemma SplitRemoved(text: string, header: string)
    ensures Split(Removed(text, header)) == Lines(Survivors(Split(text), {header}))
    ensures Trim("") != header ==> forall l | l in Split(Removed(text, header)) ::
          Trim(l) != header && (l in Split(text) || l == "")
  {
    SplitPlain(text);
    SurvivorsHold(Split(text), {header});
    hide Survivors, Split, Trim, Join;
    SplitJoin(Lines(Survivors(Split(text), {header})));
  }

  lemma GatewayLines()
    ensures Trim(Gateway()) == Gateway() && Trim(GatewayHeaders()) == GatewayHeaders() && Gateway() != GatewayHeaders()
    ensures Closes(GatewayHeaders()) && Trim("") == "" && !Closes("") && Gateway() != "" && GatewayHeaders() != ""
    ensures Gateway()[0] == '[' && GatewayHeaders()[0] == '['
    ensures Trim(Features()) != Gateway() && Trim(Features()) != GatewayHeaders()
    ensures Trim(HooksTrue()) != Gateway() && Trim(HooksTrue()) != GatewayHeaders()
  {
    hide Gateway, GatewayHeaders, Features, Hooks, HooksTrue, TrimEnd, Space, Plain;
    TrimNothing();
    hide Trim;
    Printable();
    GatewayToken();
    GatewayHeadersToken();
    HooksToken();
    FeaturesToken();
    TokenTrims(Gateway(), '[', ']', 30);
    TokenTrims(GatewayHeaders(), '[', ']', 47);
    FeaturesLine();
    HooksLine();
  }

  lemma PlainLines()
    ensures Plain(Gateway()) && Plain(GatewayHeaders()) && Plain(Features()) && Plain(HooksTrue())
  {
    hide Gateway, GatewayHeaders, Features, Hooks, HooksTrue;
    GatewayToken();
    GatewayHeadersToken();
    HooksToken();
    FeaturesToken();
  }

  lemma OutsideFacts(currentText: string)
    ensures Split(Removed(Removed(currentText, Gateway()), GatewayHeaders())) == Outside(currentText)
    ensures AllPlain(Outside(currentText)) && NoGateway(Outside(currentText))
  {
    hide Gateway, GatewayHeaders, Features, Hooks, HooksTrue;
    GatewayLines();
    hide Trim, Closes, Survivors, Split, Removed;
    var once := Removed(currentText, Gateway());
    SplitRemoved(currentText, Gateway());
    SplitRemoved(once, GatewayHeaders());
    SplitPlain(Removed(once, GatewayHeaders()));
  }

  lemma JoinEmpty(lines: seq<string>)
    requires lines != []
    ensures Join(lines) == "" <==> lines == [""]
  {
  }

  /** The lines of the feature step's result. */
  function FeatureLines(lines: seq<string>): seq<string>
  {
    var start := FirstIndex(lines, IsFeatures, 0);
    if start < |lines| then SetLines(lines, start) else (if lines == [""] then [] else lines) + [Features(), HooksTrue()]
  }

  /** The feature step on a trimmed text, line by line. */
  lemma FeatureStep(lines: seq<string>)
    requires lines != [] && AllPlain(lines) && TrimLines(lines) == lines
    ensures Split(SetTomlFeature(Join(lines))) == FeatureLines(lines)
  {
    hide Gateway, GatewayHeaders, Features, Hooks, HooksTrue;
    SplitJoin(lines);
    FeatureLinesHold(lines);
    if FirstIndex(lines, IsFeatures, 0) < |lines| {
      SetFeatureLines(lines);
    } else {
      AddFeatureLines(lines);
    }
    SplitJoin(FeatureLines(lines));
  }

  lemma SetFeatureLines(lines: seq<string>)
    requires lines != [] && Split(Join(lines)) == lines && FirstIndex(lines, IsFeatures, 0) < |lines|
    ensures SetTomlFeature(Join(lines)) == Join(FeatureLines(lines))
  {
    hide Gateway, GatewayHeaders, Features, Hooks, HooksTrue, SetLines, IsFeatures;
  }

  lemma FeatureLinesHold(lines: seq<string>)
    requires lines != []
    ensures FeatureLines(lines) != [] && forall l | l in FeatureLines(lines) ::
          l in lines || l == Features() || l == HooksTrue()
    ensures AllPlain(lines) ==> AllPlain(FeatureLines(lines))
  {
    hide Gateway, GatewayHeaders, Features, Hooks, HooksTrue;
    PlainLines();
    hide IsFeatures, IsHeader, Plain;
    var start := FirstIndex(lines, IsFeatures, 0);
    if start < |lines| {
      SetLinesHold(lines, start);
    }
  }

  lemma AddFeatureLines(lines: seq<string>)
    requires lines != [] && Split(Join(lines)) == lines && FirstIndex(lines, IsFeatures, 0) == |lines|
        && TrimLines(lines) == lines
    ensures SetTomlFeature(Join(lines)) == Join(FeatureLines(lines))
  {
    hide Gateway, GatewayHeaders, Features, Hooks, HooksTrue, IsFeatures, IsHeader;
    TrimEndLines(lines);
    JoinParts(lines);
    assert SetTomlFeature(Join(lines)) == Join(NonEmpty([TrimEnd(Join(lines)), Features(), HooksTrue()]));
  }

  lemma JoinParts(lines: seq<string>)
    requires lines != []
    ensures Join(NonEmpty([Join(lines), Features(), HooksTrue()])) == Join((if lines == [""] then [] else lines)
        + [Features(), HooksTrue()])
  {
    FeaturesToken();
    HooksToken();
    hide Features, HooksTrue;
    NonEmptyPair(Features(), HooksTrue());
    JoinEmpty(lines);
    var first, rest := Join(lines), [Features(), HooksTrue()];
    assert [first, Features(), HooksTrue()][1..] == rest;
    if lines != [""] {
      assert NonEmpty([first, Features(), HooksTrue()]) == [first] + rest;
      JoinAppend([first], rest);
      JoinAppend(lines, rest);
    } else {
      assert NonEmpty([first, Features(), HooksTrue()]) == rest;
    }
  }

  lemma NonEmptyPair(a: string, b: string)
    requires a != "" && b != ""
    ensures NonEmpty([a, b]) == [a, b]
  {
    assert [a, b][1..] == [b] && [b][1..] == [];
    assert NonEmpty([b]) == [b];
  }

  ghost function BodyLines(currentText: string): seq<string>
  {
    Split(Body(currentText))
  }

  ghost function Featured(currentText: string): seq<string>
  {
    Split(SetTomlFeature(Join(TrimLines(Outside(currentText)))))
  }

  lemma BodyIsTrimmed(currentText: string)
    ensures TrimEnd(Removed(Removed(currentText, Gateway()), GatewayHeaders())) == Join(TrimLines(Outside(currentText)))
    ensures AllPlain(TrimLines(Outside(currentText)))
    ensures BodyLines(currentText) == TrimLines(Featured(currentText)) && AllPlain(BodyLines(currentText))
    ensures Body(currentText) == Join(BodyLines(currentText))
  {
    hide Gateway, GatewayHeaders, Features, Hooks, HooksTrue;
    OutsideFacts(currentText);
    var removed, lines := Removed(Removed(currentText, Gateway()), GatewayHeaders()), Featured(currentText);
    hide Removed, Outside, TrimLines, TrimEnd, SetTomlFeature, Split, Join;
    JoinSplit(removed);
    TrimEndLines(Outside(currentText));
    TrimLinesPlain(Outside(currentText));
    var text := SetTomlFeature(Join(TrimLines(Outside(currentText))));
    JoinSplit(text);
    SplitPlain(text);
    TrimEndLines(lines);
    TrimLinesPlain(lines);
    SplitJoin(TrimLines(lines));
  }

  lemma NoGatewayTrimmed(lines: seq<string>)
    requires lines != [] && NoGateway(lines)
    ensures NoGateway(TrimLines(lines))
  {
    hide Gateway, GatewayHeaders, Features, Hooks, HooksTrue, Trim, TrimEnd;
    var r := TrimLines(lines);
    TrimOfTrimEnd(lines[|r| - 1]);
    forall l | l in r ensures Trim(l) != Gateway() && Trim(l) != GatewayHeaders() {
      var i :| 0 <= i < |r| && r[i] == l;
      assert lines[i] in lines && (i < |r| - 1 ==> r[..|r| - 1][i] == lines[i]);
    }
  }

  /** Hooks are enabled in the body, and no gateway header is left in it. */
  lemma BodyFacts(currentText: string)
    ensures Enabled(BodyLines(currentText)) && NoGateway(BodyLines(currentText))
    ensures TrimLines(BodyLines(currentText)) == BodyLines(currentText)
  {
    hide Gateway, GatewayHeaders, Features, Hooks, HooksTrue;
    OutsideFacts(currentText);
    BodyIsTrimmed(currentText);
    var lines, featured := TrimLines(Outside(currentText)), Featured(currentText);
    hide Enabled, Trim;
    TrimLinesTwice(Outside(currentText));
    TrimLinesTwice(featured);
    NoGatewayTrimmed(Outside(currentText));
    FeatureStep(lines);
    NoGatewayFeatured(lines);
    NoGatewayTrimmed(featured);
    FeaturedEnabled(lines);
    EnabledTrim(featured);
  }

  lemma NoGatewayFeatured(lines: seq<string>)
    requires lines != [] && NoGateway(lines)
    ensures NoGateway(FeatureLines(lines))
  {
    hide Gateway, GatewayHeaders, Features, Hooks, HooksTrue;
    GatewayLines();
    FeatureLinesHold(lines);
    hide Trim, FeatureLines;
  }

  lemma FeaturedEnabled(lines: seq<string>)
    ensures Enabled(FeatureLines(lines))
  {
    hide Gateway, GatewayHeaders, Features, Hooks, HooksTrue, IsFeatures, IsHeader, Enabled, FirstIndex;
    var start := FirstIndex(lines, IsFeatures, 0);
    if start < |lines| {
      SetLinesEnabled(lines, start);
    } else {
      AppendedEnabled(if lines == [""] then [] else lines);
    }
  }

  // ---------------------------------------------------------------- merging twice

  /** A merged text: the body, an empty line, the projection. */
  ghost function MergedLines(body: seq<string>, url: string, authorization: string): seq<string>
  {
    body + [""] + ProjectionLines(url, authorization) + [""]
  }

  lemma ProjectionFacts(url: string, authorization: string)
    requires Quoted(url) && Quoted(authorization)
    ensures AllPlain(ProjectionLines(url, authorization))
    ensures TrimEnd(RenderCodexGatewayConfig(url, authorization)) == Join(ProjectionLines(url, authorization))
    ensures var text := Join(ProjectionLines(url, authorization)); text != "" && text[|text| - 1] == '"'
  {
    hide Gateway, GatewayHeaders, Features, Hooks, HooksTrue;
    var lines, last := ProjectionLines(url, authorization), "Authorization = " + authorization;
    ProjectionPlain(url, authorization);
    LastField(last, authorization);
    assert lines[|lines| - 1] == last;
    hide ProjectionLines;
    TrimNothing();
    hide Plain, TrimEnd, Quoted;
    TrimEndLines(lines + [""]);
    TrimLinesSnoc(lines, "");
    SolidLast(lines, last);
    LastChar(lines, last);
  }

  lemma LastChar(lines: seq<string>, last: string)
    requires lines != [] && lines[|lines| - 1] == last && last != ""
    ensures Join(lines) != "" && Join(lines)[|Join(lines)| - 1] == last[|last| - 1]
  {
    hide Join;
    assert lines[..|lines| - 1] + [last] == lines;
    JoinSnoc(lines[..|lines| - 1], last);
  }

  lemma LastField(last: string, authorization: string)
    requires last == "Authorization = " + authorization && Quoted(authorization)
    ensures TrimEnd(last) == last && last != "" && last[|last| - 1] == '"'
  {
    hide TrimEnd;
    assert last[|last| - 1] == authorization[|authorization| - 1] && !Space('"');
    TrimEndUnique(last, last);
  }

  lemma ProjectionPlain(url: string, authorization: string)
    requires Plain(url) && Plain(authorization)
    ensures AllPlain(ProjectionLines(url, authorization))
  {
    hide Gateway, GatewayHeaders, Features, Hooks, HooksTrue;
    PlainLines();
    assert Plain("url = ") && Plain("Authorization = ") && Plain("");
    PlainAppend("url = ", url);
    PlainAppend("Authorization = ", authorization);
    hide Plain;
  }

  /** Whatever the projection, a merged text is the body, which is never empty, then an empty line and the projection if
      that is not blank, and a line feed. */
  lemma MergedParts(currentText: string, projection: string)
    ensures Body(currentText) != ""
    ensures var p := TrimEnd(projection);
            Merged(currentText, projection) == Body(currentText) + (if p == "" then "" else "\n\n" + p) + "\n"
  {
    BodyLinesJoined(currentText);
    var c, p := Body(currentText), TrimEnd(projection);
    hide Body, TrimEnd, Gateway, GatewayHeaders, Features, HooksTrue;
    assert !Space(c[|c| - 1]) && (p != "" ==> !Space(p[|p| - 1]));
    assert Space('\n');
    hide Space;
    if p == "" {
      var one: seq<string> := [p];
      assert [c, p][1..] == one && one[1..] == [];
      assert NonEmpty([p]) == [] && NonEmpty([c, p]) == [c];
      assert JoinWith([c], "\n\n") == c;
    } else {
      JoinPair(c, p);
    }
  }

  lemma BodyLinesJoined(currentText: string)
    ensures Body(currentText) != "" && !Space(Body(currentText)[|Body(currentText)| - 1])
  {
    hide Gateway, GatewayHeaders, Features, Hooks, HooksTrue, Enabled, NoGateway, BodyLines, Outside, TrimLines, Space;
    BodyIsTrimmed(currentText);
    BodyFacts(currentText);
    BodyNotBlank(BodyLines(currentText));
    JoinEmpty(BodyLines(currentText));
    hide Removed, SetTomlFeature, Join;
  }

  lemma MergedText(currentText: string, url: string, authorization: string)
    requires Quoted(url) && Quoted(authorization)
    ensures var merged := Merged(currentText, RenderCodexGatewayConfig(url, authorization));
            Split(merged) == MergedLines(BodyLines(currentText), url, authorization)
  {
    hide Gateway, GatewayHeaders, Features, Hooks, HooksTrue, ProjectionLines, Split, Join, Enabled, NoGateway, BodyLines,
      Outside, RenderCodexGatewayConfig, Merged, TrimLines, Body, TrimEnd;
    var c, p := BodyLines(currentText), ProjectionLines(url, authorization);
    BodyIsTrimmed(currentText);
    BodyFacts(currentText);
    ProjectionFacts(url, authorization);
    BodyNotBlank(c);
    SplitSome(Body(currentText));
    MergedJoined(currentText, RenderCodexGatewayConfig(url, authorization), c, p);
    MergedPlain(c, p);
    SplitJoin(c + [""] + p + [""]);
  }

  lemma SplitSome(text: string)
    ensures Split(text) != []
  {
  }

  lemma MergedJoined(currentText: string, projection: string, c: seq<string>, p: seq<string>)
    requires c != [] && c != [""] && Body(currentText) == Join(c)
    requires p != [] && TrimEnd(projection) == Join(p) && Join(p) != "" && Join(p)[|Join(p)| - 1] == '"'
    ensures Merged(currentText, projection) == Join(c + [""] + p + [""])
  {
    hide Gateway, GatewayHeaders, Features, Hooks, HooksTrue, Body, TrimEnd, Join, NonEmpty, JoinWith, EnsureTrailingNewline;
    JoinEmpty(c);
    JoinPair(Join(c), Join(p));
    JoinSections(c, p);
  }

  lemma MergedPlain(c: seq<string>, p: seq<string>)
    requires AllPlain(c) && AllPlain(p)
    ensures AllPlain(c + [""] + p + [""])
  {
    assert Plain("");
    hide Plain;
  }

  lemma JoinSections(a: seq<string>, b: seq<string>)
    requires a != [] && b != []
    ensures Join(a + [""] + b + [""]) == Join(a) + "\n\n" + Join(b) + "\n"
  {
    hide Join;
    assert Join([""]) == "" by {
      JoinEmpty([""]);
    }
    JoinAppend(a, [""]);
    JoinAppend(a + [""], b);
    JoinAppend(a + [""] + b, [""]);
    var x, y := Join(a), Join(b);
    assert x + "\n" + "" + "\n" + y + "\n" + "" == x + "\n\n" + y + "\n";
  }

  lemma JoinPair(a: string, b: string)
    requires a != "" && b != "" && b[|b| - 1] != '\n'
    ensures EnsureTrailingNewline(JoinWith(NonEmpty([a, b]), "\n\n")) == a + "\n\n" + b + "\n"
  {
    NonEmptyPair(a, b);
    assert [a, b][1..] == [b];
    var text := a + "\n\n" + b;
    assert JoinWith([a, b], "\n\n") == text && text[|text| - 1] == b[|b| - 1];
  }

  lemma BodyNotBlank(lines: seq<string>)
    requires Enabled(lines)
    ensures lines != [""]
  {
    hide Gateway, GatewayHeaders, Features, Hooks, HooksTrue;
    var start, end, k := EnabledParts(lines);
  }

  lemma FirstStays(s: string)
    requires s != "" && !Space(s[0])
    ensures Trim(s) != "" && Trim(s)[0] == s[0]
  {
    assert TrimStart(s) == s;
  }

  lemma FieldLines(url: string, authorization: string)
    ensures var u, a := "url = " + url, "Authorization = " + authorization;
            && Trim(u) != Gateway() && Trim(u) != GatewayHeaders() && !Closes(u)
            && Trim(a) != Gateway() && Trim(a) != GatewayHeaders() && !Closes(a)
  {
    GatewayLines();
    hide Gateway, GatewayHeaders, Features, Hooks, HooksTrue;
    var u, a := "url = " + url, "Authorization = " + authorization;
    assert u[0] == 'u' && a[0] == 'A' && !Space('u') && !Space('A');
    FirstStays(u);
    FirstStays(a);
  }

  /** Removing the first gateway section of a merged text leaves the second. */
  lemma FirstRemoval(c: seq<string>, url: string, authorization: string)
    requires NoGateway(c)
    ensures Survivors(MergedLines(c, url, authorization), {Gateway()}) ==
            c + ["", GatewayHeaders(), "Authorization = " + authorization, ""]
  {
    hide Gateway, GatewayHeaders, Features, Hooks, HooksTrue;
    GatewayLines();
    FieldLines(url, authorization);
    hide Trim, Closes, Survivors, Removing;
    NothingRemoved(c, {Gateway()});
    var u, a := "url = " + url, "Authorization = " + authorization;
    SurvivorsSnoc(c, "", {Gateway()});
    var c1 := c + [""];
    SurvivorsSnoc(c1, Gateway(), {Gateway()});
    SurvivorsSnoc(c1 + [Gateway()], u, {Gateway()});
    SurvivorsSnoc(c1 + [Gateway()] + [u], "", {Gateway()});
    SurvivorsSnoc(c1 + [Gateway()] + [u] + [""], GatewayHeaders(), {Gateway()});
    SurvivorsSnoc(c1 + [Gateway()] + [u] + [""] + [GatewayHeaders()], a, {Gateway()});
    SurvivorsSnoc(c1 + [Gateway()] + [u] + [""] + [GatewayHeaders()] + [a], "", {Gateway()});
    assert MergedLines(c, url, authorization) == c1 + [Gateway()] + [u] + [""] + [GatewayHeaders()] + [a] + [""];
  }

  lemma SecondRemoval(c: seq<string>, url: string, authorization: string)
    requires NoGateway(c)
    ensures Survivors(c + ["", GatewayHeaders(), "Authorization = " + authorization, ""], {GatewayHeaders()}) == c + [""]
  {
    hide Gateway, GatewayHeaders, Features, Hooks, HooksTrue;
    GatewayLines();
    FieldLines(url, authorization);
    hide Trim, Closes, Survivors, Removing;
    NothingRemoved(c, {GatewayHeaders()});
    var a := "Authorization = " + authorization;
    SurvivorsSnoc(c, "", {GatewayHeaders()});
    SurvivorsSnoc(c + [""], GatewayHeaders(), {GatewayHeaders()});
    SurvivorsSnoc(c + [""] + [GatewayHeaders()], a, {GatewayHeaders()});
    SurvivorsSnoc(c + [""] + [GatewayHeaders()] + [a], "", {GatewayHeaders()});
    assert c + ["", GatewayHeaders(), a, ""] == c + [""] + [GatewayHeaders()] + [a] + [""];
  }

  lemma MergedOutside(currentText: string, url: string, authorization: string)
    requires Quoted(url) && Quoted(authorization)
    ensures Outside(Merged(currentText, RenderCodexGatewayConfig(url, authorization))) == BodyLines(currentText) + [""]
  {
    hide Gateway, GatewayHeaders, Features, Hooks, HooksTrue, Merged, Survivors, BodyLines, Enabled, NoGateway;
    MergedText(currentText, url, authorization);
    BodyFacts(currentText);
    FirstRemoval(BodyLines(currentText), url, authorization);
    SecondRemoval(BodyLines(currentText), url, authorization);
  }

  /** The body of a merged text is the body it was made from. */
  lemma MergedBody(currentText: string, url: string, authorization: string)
    requires Quoted(url) && Quoted(authorization)
    ensures BodyLines(Merged(currentText, RenderCodexGatewayConfig(url, authorization))) == BodyLines(currentText)
  {
    hide Gateway, GatewayHeaders, Features, Hooks, HooksTrue, Merged, Enabled, Outside, BodyLines, TrimLines;
    BodyIsTrimmed(currentText);
    BodyFacts(currentText);
    MergedOutside(currentText, url, authorization);
    BodyAgain(Merged(currentText, RenderCodexGatewayConfig(url, authorization)), BodyLines(currentText));
  }

  lemma BodyAgain(text: string, c: seq<string>)
    requires c != [] && Outside(text) == c + [""] && AllPlain(c) && Enabled(c) && TrimLines(c) == c
    ensures BodyLines(text) == c
  {
    hide Gateway, GatewayHeaders, Features, Hooks, HooksTrue, SetTomlFeature, Split, Join, TrimLines, Enabled, Outside,
      Plain;
    BodyIsTrimmed(text);
    MergedTrimmed(c);
    FeatureFixed(c);
  }

  lemma FeatureFixed(lines: seq<string>)
    requires lines != [] && AllPlain(lines) && Enabled(lines) && TrimLines(lines) == lines
    ensures Split(SetTomlFeature(Join(lines))) == lines
  {
    hide Gateway, GatewayHeaders, Features, Hooks, HooksTrue, SetTomlFeature, Enabled, SetLines, Plain;
    EnabledFixed(lines);
    FeatureStep(lines);
  }

  lemma MergedTrimmed(c: seq<string>)
    requires c != [] && TrimLines(c) == c
    ensures TrimLines(c + [""]) == c
  {
    assert TrimEnd("") == "";
    TrimLinesSnoc(c, "");
  }

  /** Merging twice is merging once, for every text and every rendered projection. */
  lemma MergeIdempotent(currentText: string, url: string, authorization: string)
    requires Quoted(url) && Quoted(authorization)
    ensures var projection := RenderCodexGatewayConfig(url, authorization);
            Merged(Merged(currentText, projection), projection) == Merged(currentText, projection)
  {
    hide Gateway, GatewayHeaders, Features, Hooks, HooksTrue;
    var projection := RenderCodexGatewayConfig(url, authorization);
    hide Body, RenderCodexGatewayConfig, NoGateway;
    MergedBody(currentText, url, authorization);
    BodyIsTrimmed(currentText);
    BodyIsTrimmed(Merged(currentText, projection));
  }

  function Count(lines: seq<string>, header: string): nat
  {
    if lines == [] then 0 else Count(lines[..|lines| - 1], header) + if Trim(lines[|lines| - 1]) == header then 1 else 0
  }

  lemma {:induction false} CountNone(lines: seq<string>, header: string)
    requires forall l | l in lines :: Trim(l) != header
    ensures Count(lines, header) == 0
    decreases |lines|
  {
    hide Trim;
    if lines != [] {
      assert lines[|lines| - 1] in lines;
      CountNone(lines[..|lines| - 1], header);
    }
  }

  lemma CountSnoc(lines: seq<string>, l: string, header: string)
    ensures Count(lines + [l], header) == Count(lines, header) + if Trim(l) == header then 1 else 0
  {
    assert (lines + [l])[..|lines|] == lines;
  }

  /** A merged text holds each gateway header once as a line of its own, after a body with hooks enabled. */
  lemma MergedOnce(currentText: string, url: string, authorization: string, header: string)
    requires Quoted(url) && Quoted(authorization) && (header == Gateway() || header == GatewayHeaders())
    ensures var lines := Split(Merged(currentText, RenderCodexGatewayConfig(url, authorization)));
            && Count(lines, header) == 1
            && BodyLines(currentText) <= lines && Enabled(BodyLines(currentText))
            && lines[|BodyLines(currentText)|..] == [""] + ProjectionLines(url, authorization) + [""]
  {
    hide Gateway, GatewayHeaders, Features, Hooks, HooksTrue;
    MergedText(currentText, url, authorization);
    BodyFacts(currentText);
    var c := BodyLines(currentText);
    CountNone(c, header);
    CountMergedLines(c, url, authorization, header);
    hide Merged, BodyLines, Enabled, Split, Trim, Count, RenderCodexGatewayConfig, Quoted, ProjectionLines;
    AfterBody(c, ProjectionLines(url, authorization));
  }

  lemma AfterBody(c: seq<string>, p: seq<string>)
    ensures c <= c + [""] + p + [""] && (c + [""] + p + [""])[|c|..] == [""] + p + [""]
  {
    assert c + [""] + p + [""] == c + ([""] + p + [""]);
  }

  lemma CountMergedLines(c: seq<string>, url: string, authorization: string, header: string)
    requires Count(c, header) == 0 && (header == Gateway() || header == GatewayHeaders())
    ensures Count(MergedLines(c, url, authorization), header) == 1
  {
    hide Gateway, GatewayHeaders, Features, Hooks, HooksTrue;
    GatewayLines();
    FieldLines(url, authorization);
    hide Trim, Count, Closes;
    var p := ProjectionLines(url, authorization);
    CountMerged(c, p[0], p[1], p[3], p[4], header);
    assert MergedLines(c, url, authorization) == c + ["", p[0], p[1], "", p[3], p[4], ""];
  }

  lemma CountMerged(c: seq<string>, gateway: string, u: string, headers: string, a: string, header: string)
    requires Count(c, header) == 0 && Trim("") != header && Trim(u) != header && Trim(a) != header
    requires (Trim(gateway) == header) != (Trim(headers) == header)
    ensures Count(c + ["", gateway, u, "", headers, a, ""], header) == 1
  {
    hide Trim, Count;
    var c1 := c + [""];
    CountSnoc(c, "", header);
    CountSnoc(c1, gateway, header);
    CountSnoc(c1 + [gateway], u, header);
    CountSnoc(c1 + [gateway] + [u], "", header);
    CountSnoc(c1 + [gateway] + [u] + [""], headers, header);
    CountSnoc(c1 + [gateway] + [u] + [""] + [headers], a, header);
    CountSnoc(c1 + [gateway] + [u] + [""] + [headers] + [a], "", header);
    assert c + ["", gateway, u, "", headers, a, ""] == c1 + [gateway] + [u] + [""] + [headers] + [a] + [""];
  }

  /** Outside the removed lines, only hooks keys of the first features section the source delimits change; without such
      a section one is added at the end. All up to trailing white space. */
  lemma MergeKeepsOthers(currentText: string)
    ensures var before, after := Outside(currentText), BodyLines(currentText);
            if FirstIndex(TrimLines(before), IsFeatures, 0) < |TrimLines(before)|
            then Others(after) != [] && Others(before) != [] && TrimLines(Others(after)) == TrimLines(Others(before))
            else after == (if TrimLines(before) == [""] then [] else TrimLines(before)) + [Features(), HooksTrue()]
  {
    hide Gateway, GatewayHeaders, Features, Hooks, HooksTrue;
    OutsideFacts(currentText);
    BodyIsTrimmed(currentText);
    var lines, featured := TrimLines(Outside(currentText)), Featured(currentText);
    TrimLinesTwice(Outside(currentText));
    FeatureStep(lines);
    FeatureOthers(lines);
    OthersTrimmed(Outside(currentText));
    OthersTrimmed(featured);
    if FirstIndex(lines, IsFeatures, 0) == |lines| {
      HooksLine();
      hide TrimEnd, TrimLines, Outside, SetTomlFeature;
      SolidLast(featured, HooksTrue());
    }
  }

  lemma FeatureOthers(lines: seq<string>)
    requires lines != []
    ensures var start := FirstIndex(lines, IsFeatures, 0);
            if start < |lines| then Others(FeatureLines(lines)) == Others(lines)
            else FeatureLines(lines) == (if lines == [""] then [] else lines) + [Features(), HooksTrue()]
  {
    hide Gateway, GatewayHeaders, Features, Hooks, HooksTrue;
    var start := FirstIndex(lines, IsFeatures, 0);
    if start < |lines| {
      SetLinesOthers(lines, start);
    }
  }

  lemma SolidLast(lines: seq<string>, last: string)
    requires lines != [] && lines[|lines| - 1] == last && last != "" && TrimEnd(last) == last
    ensures TrimLines(lines) == lines
  {
    assert lines[..|lines| - 1] + [last] == lines;
  }
}
