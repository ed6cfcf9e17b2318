/** Which Bearer challenges are understood, and as what (section 11.2 of RFC 9110). */
module BearerForms {
  import opened Text
  import opened BearerChallenges

  /** One parameter as written, with the white space around its parts. */
  datatype Written = Written(
    before: string, name: string, left: string, right: string, isBare: bool, value: string, after: string)

  predicate IsBlankText(s: string) {
    forall c | c in s :: IsSpace(c)
  }

  predicate WellWritten(w: Written) {
    && IsBlankText(w.before) && IsBlankText(w.left) && IsBlankText(w.right) && IsBlankText(w.after)
    && IsToken(w.name) && if w.isBare then IsToken(w.value) else '\r' !in w.value && '\n' !in w.value
  }

  function ValueText(w: Written): string {
    if w.isBare then w.value else Quote(w.value)
  }

  function Core(w: Written): string {
    (w.name + w.left) + ['='] + (w.right + ValueText(w))
  }

  function WrittenText(w: Written): string {
    w.before + (Core(w) + w.after)
  }

  lemma ValueTextSpec(w: Written)
    requires WellWritten(w)
    ensures var v := ValueText(w);
            && v != "" && Trimmed(IsSpace, v) && DecodeValue(v) == Some(w.value)
  {
    hide Quote, IsSpace, IsTokenChar;
    if w.isBare {
      assert IsTokenChar(w.value[0]) && IsTokenChar(w.value[|w.value| - 1]);
      VisibleCharacter(w.value[0]);
      VisibleCharacter(w.value[|w.value| - 1]);
      TokenIsNoQuote(w.value[0]);
    } else {
      DecodeQuoted(w.value);
      QuoteIsTrimmed(w.value);
    }
  }

  lemma TokenIsNoQuote(c: char)
    requires IsTokenChar(c)
    ensures c != '"' && c != ',' && c != '='
  {
  }

  lemma QuoteIsTrimmed(value: string)
    ensures Quote(value) != "" && Trimmed(IsSpace, Quote(value))
  {
    hide Escape;
  }

  lemma CoreIsTrimmed(w: Written)
    requires WellWritten(w)
    ensures Core(w) != "" && Trimmed(IsSpace, Core(w))
  {
    hide ValueText, IsSpace, IsTokenChar;
    ValueTextSpec(w);
    assert IsTokenChar(w.name[0]);
    VisibleCharacter(w.name[0]);
    var core, v := Core(w), ValueText(w);
    assert core[0] == w.name[0] && core[|core| - 1] == v[|v| - 1];
  }

  /** A parameter is read from what is written, whatever the white space. */
  lemma ReadsWritten(w: Written)
    requires WellWritten(w)
    ensures TrimSpace(WrittenText(w)) == Core(w) && ParseParameter(Core(w)) == Some(Parameter(w.name, w.value))
  {
    hide ValueText, IsSpace, IsTokenChar, DecodeValue, Trim;
    ValueTextSpec(w);
    CoreIsTrimmed(w);
    TrimAround(IsSpace, w.before, Core(w), w.after);
    NameHasNoEquals(w.name, w.left);
    IndexOfAppend(w.name + w.left, '=', w.right + ValueText(w));
    var core, n := Core(w), |w.name + w.left|;
    assert core[..n] == w.name + w.left && core[n + 1..] == w.right + ValueText(w);
    NameIsTrimmed(w.name);
    TrimAround(IsSpace, "", w.name, w.left);
    TrimAround(IsSpace, w.right, ValueText(w), "");
    assert "" + (w.name + w.left) == w.name + w.left && w.right + (ValueText(w) + "") == w.right + ValueText(w);
  }

  lemma NameIsTrimmed(name: string)
    requires IsToken(name)
    ensures Trimmed(IsSpace, name)
  {
    hide IsSpace, IsTokenChar;
    assert IsTokenChar(name[0]) && IsTokenChar(name[|name| - 1]);
    VisibleCharacter(name[0]);
    VisibleCharacter(name[|name| - 1]);
  }

  lemma NameHasNoEquals(name: string, gap: string)
    requires IsToken(name) && IsBlankText(gap)
    ensures '=' !in name + gap && '"' !in name + gap && ',' !in name + gap
  {
  }

  /** A written parameter is scanned as one piece. */
  lemma SplitWritten(w: Written, tail: string)
    requires WellWritten(w)
    ensures SplitFrom(WrittenText(w) + tail, "", false, false) == SplitFrom(tail, WrittenText(w), false, false)
  {
    hide SplitFrom, Quote, IsSpace, IsTokenChar;
    NothingSpecial(w);
    var head := w.before + (w.name + w.left) + ['='] + w.right;
    var middle := ValueText(w);
    assert WrittenText(w) + tail == head + (middle + (w.after + tail));
    SplitPlain(head, middle + (w.after + tail), "");
    assert "" + head == head;
    if w.isBare {
      SplitPlain(middle, w.after + tail, head);
    } else {
      SplitQuoted(w.value, w.after + tail, head);
    }
    SplitPlain(w.after, tail, head + middle);
    assert head + middle + w.after == WrittenText(w);
  }

  lemma NothingSpecial(w: Written)
    requires WellWritten(w)
    ensures '"' !in w.before + (w.name + w.left) + ['='] + w.right &&
            ',' !in w.before + (w.name + w.left) + ['='] + w.right
    ensures '"' !in w.after && ',' !in w.after && (w.isBare ==> '"' !in w.value && ',' !in w.value)
  {
  }

  function Texts(ws: seq<Written>): seq<string> {
    if ws == [] then [] else [WrittenText(ws[0])] + Texts(ws[1..])
  }

  function Cores(ws: seq<Written>): seq<string> {
    if ws == [] then [] else [Core(ws[0])] + Cores(ws[1..])
  }

  function Parameters(ws: seq<Written>): seq<Parameter> {
    if ws == [] then [] else [Parameter(ws[0].name, ws[0].value)] + Parameters(ws[1..])
  }

  predicate AllWellWritten(ws: seq<Written>) {
    ws == [] || (WellWritten(ws[0]) && AllWellWritten(ws[1..]))
  }

  lemma SplitAtComma(part: string, rest: string)
    ensures SplitFrom("," + rest, part, false, false) ==
            if TrimSpace(part) == "" then None else Prepend([TrimSpace(part)], SplitFrom(rest, "", false, false))
    ensures SplitFrom("", part, false, false) == if TrimSpace(part) == "" then None else Some([TrimSpace(part)])
  {
    hide Trim;
    assert ("," + rest)[1..] == rest;
  }

  lemma JoinTexts(ws: seq<Written>)
    requires ws != []
    ensures Join(Texts(ws), ",") ==
            WrittenText(ws[0]) + if |ws| == 1 then "" else "," + Join(Texts(ws[1..]), ",")
  {
    hide WrittenText, Join;
    assert Texts(ws)[1..] == Texts(ws[1..]);
    assert Texts(ws[1..]) == [] <==> |ws| == 1;
    JoinFirst(Texts(ws), ",");
  }

  lemma {:induction false} SplitTexts(ws: seq<Written>)
    requires ws != [] && AllWellWritten(ws)
    ensures SplitFrom(Join(Texts(ws), ","), "", false, false) == Some(Cores(ws))
  {
    hide Core, WrittenText, WellWritten, SplitFrom, Join, Texts, TrimSpace;
    ReadsWritten(ws[0]);
    CoreIsTrimmed(ws[0]);
    JoinTexts(ws);
    if |ws| == 1 {
      SplitWritten(ws[0], "");
      SplitAtComma(WrittenText(ws[0]), "");
      assert ws[1..] == [] && Cores(ws) == [Core(ws[0])];
    } else {
      var rest := Join(Texts(ws[1..]), ",");
      SplitTexts(ws[1..]);
      SplitWritten(ws[0], "," + rest);
      SplitAtComma(WrittenText(ws[0]), rest);
    }
  }

  lemma {:induction false} ParseCores(ws: seq<Written>)
    requires AllWellWritten(ws)
    ensures ParseParameters(Cores(ws)) == Some(Parameters(ws))
  {
    hide Core, WellWritten, ParseParameter;
    if ws != [] {
      ReadsWritten(ws[0]);
      ParseCores(ws[1..]);
      assert Cores(ws)[1..] == Cores(ws[1..]);
    }
  }

  lemma {:induction false} BodyEnds(ws: seq<Written>)
    requires ws != [] && AllWellWritten(ws) && ws[|ws| - 1].after == ""
    ensures var body := Join(Texts(ws), ",");
            body != "" && !IsSpace(body[|body| - 1]) && (ws[0].before == "" ==> !IsSpace(body[0]))
  {
    hide Core, WellWritten, IsSpace;
    CoreIsTrimmed(ws[0]);
    if |ws| > 1 {
      BodyEnds(ws[1..]);
      assert Texts(ws)[1..] == Texts(ws[1..]);
    }
  }

  /** The scheme and the space around the parameters are stripped. */
  lemma ReadsHeader(before: string, scheme: string, gap: string, body: string, after: string)
    requires IsBlankText(before) && IsBlankText(after) && |scheme| == 6 && Fold(scheme) == "bearer"
    requires gap != "" && (gap[0] == ' ' || gap[0] == '\t') && IsBlankText(gap)
    requires body != "" && Trimmed(IsSpace, body)
    ensures var segments := SplitFrom(body, "", false, false);
            Parse(before + ((scheme + (gap + body)) + after)) ==
            if segments.None? then None else ParseParameters(segments.value)
  {
    hide SplitFrom, ParseParameters, IsSpace, Trim, Fold;
    var value := scheme + (gap + body);
    SchemeIsVisible(scheme);
    assert value[|value| - 1] == body[|body| - 1] && value[0] == scheme[0];
    TrimAround(IsSpace, before, value, after);
    assert value[..6] == scheme && value[6..] == gap + body && value[6] == gap[0];
    TrimAround(IsSpace, gap, body, "");
    assert gap + (body + "") == gap + body;
    BearerFolds();
  }

  lemma BearerFolds()
    ensures Fold("Bearer") == "bearer"
  {
  }

  /** Every well-written challenge is understood. */
  lemma WrittenChallengesAreRead(before: string, scheme: string, gap: string, ws: seq<Written>, after: string)
    requires IsBlankText(before) && IsBlankText(after) && |scheme| == 6 && Fold(scheme) == "bearer"
    requires gap != "" && (gap[0] == ' ' || gap[0] == '\t') && IsBlankText(gap)
    requires ws != [] && AllWellWritten(ws) && ws[0].before == "" && ws[|ws| - 1].after == ""
    ensures Parse(before + ((scheme + (gap + Join(Texts(ws), ","))) + after)) == Some(Parameters(ws))
  {
    hide Parse, SplitFrom, ParseParameters, Texts, AllWellWritten, IsSpace, Fold, IsBlankText;
    BodyEnds(ws);
    ReadsHeader(before, scheme, gap, Join(Texts(ws), ","), after);
    SplitTexts(ws);
    ParseCores(ws);
  }

  lemma SchemeIsVisible(scheme: string)
    requires |scheme| == 6 && Fold(scheme) == "bearer"
    ensures !IsSpace(scheme[0])
  {
    assert Fold(scheme)[0] == FoldChar(scheme[0]) == 'b';
  }

  // ---------------------------------------------------------------- what is not understood

  /** A bare value is read exactly if it is a token. */
  lemma BareValuesExactly(name: string, value: string)
    requires IsToken(name) && value != "" && value[0] != '"' && Trimmed(IsSpace, value)
    ensures ParseParameter(name + ['='] + value) == if IsToken(value) then Some(Parameter(name, value)) else None
  {
    hide IsSpace, IsTokenChar, Trim;
    NameHasNoEquals(name, "");
    assert name + "" == name;
    IndexOfAppend(name, '=', value);
    var text := name + ['='] + value;
    assert text[..|name|] == name && text[|name| + 1..] == value;
    TokenIsTrimmed(name);
    TrimAround(IsSpace, "", value, "");
    assert "" + (value + "") == value;
  }

  /** In quotes any character may be escaped. */
  lemma AnyCharacterMayBeEscaped(c: char)
    ensures DecodeValue("\"\\" + [c] + "\"") == Some([c])
  {
    var value := "\"\\" + [c] + "\"";
    var inner: string := ['\\', c];
    assert value[1..|value| - 1] == inner && inner[1..] == [c] && [c][1..] == "" && [c] + "" == [c];
    assert DecodeFrom("", false) == Some("");
    assert DecodeFrom([c], true) == Some([c]);
    assert DecodeFrom(inner, false) == Some([c]);
  }

  /** Another scheme, or one that runs on, is refused. */
  lemma OtherSchemesAreRefused(value: string)
    requires Trimmed(IsSpace, value)
    requires |value| < 6 || Fold(value[..6]) != "bearer" || (|value| > 6 && value[6] != ' ' && value[6] != '\t')
    ensures Parse(value) == None
  {
    hide SplitFrom, ParseParameters;
    TrimTrimmed(IsSpace, value);
    assert Fold("Bearer") == "bearer";
  }

  /** A comma needs a parameter before it. */
  lemma EmptyPartsAreRefused(blank: string, rest: string)
    requires IsBlankText(blank)
    ensures SplitFrom(blank + ("," + rest), "", false, false) == None && SplitFrom(blank, "", false, false) == None
  {
    hide Trim;
    SplitPlain(blank, "," + rest, "");
    SplitPlain(blank, "", "");
    assert blank + "" == blank && "" + blank == blank;
    BlankIsNothing(blank);
  }

  lemma {:induction false} BlankIsNothing(blank: string)
    requires IsBlankText(blank)
    ensures TrimSpace(blank) == ""
  {
    if blank != "" {
      BlankIsNothing(blank[1..]);
    }
  }
}
