/** Bearer challenges: the parser and the printer of a `WWW-Authenticate: Bearer`
    header (RFC 6750, section 3; quoted-string is RFC 9110, section 5.6.4). */
module BearerChallenges {
  import opened Text

  datatype Parameter = Parameter(name: string, value: string)

  predicate IsTokenChar(c: char) {
    'a' <= c <= 'z' || 'A' <= c <= 'Z' || '0' <= c <= '9' || c in "!#$%&'*+-.^_`|~:/"
  }

  predicate IsToken(value: string) {
    value != "" && forall c | c in value :: IsTokenChar(c)
  }

  // ---------------------------------------------------------------- parsing

  /** Split what is left at commas outside quoted strings. `part` is the text since the
      last comma. `None` if a part is blank or a quoted string is not closed. */
  function SplitFrom(rest: string, part: string, quoted: bool, escaped: bool): Option<seq<string>> {
    if rest == "" then
      if quoted || escaped || TrimSpace(part) == "" then None else Some([TrimSpace(part)])
    else
      var c := rest[0];
      if escaped then SplitFrom(rest[1..], part + [c], quoted, false)
      else if quoted && c == '\\' then SplitFrom(rest[1..], part + [c], quoted, true)
      else if c == '"' then SplitFrom(rest[1..], part + [c], !quoted, false)
      else if c == ',' && !quoted then
        if TrimSpace(part) == "" then None else Prepend([TrimSpace(part)], SplitFrom(rest[1..], "", false, false))
      else SplitFrom(rest[1..], part + [c], quoted, false)
  }

  /** Undo the escapes between the quotes. */
  function DecodeFrom(rest: string, escaped: bool): Option<string> {
    if rest == "" then (if escaped then None else Some(""))
    else if escaped then Prepend([rest[0]], DecodeFrom(rest[1..], false))
    else if rest[0] == '\\' then DecodeFrom(rest[1..], true)
    else if rest[0] == '"' || rest[0] == '\r' || rest[0] == '\n' then None
    else Prepend([rest[0]], DecodeFrom(rest[1..], false))
  }

  function DecodeValue(value: string): Option<string> {
    if value == "" || value[0] != '"' then (if IsToken(value) then Some(value) else None)
    else if |value| < 2 || value[|value| - 1] != '"' then None
    else DecodeFrom(value[1..|value| - 1], false)
  }

  /** One `name=value` segment. */
  function ParseParameter(segment: string): Option<Parameter> {
    if '=' !in segment then None
    else
      var i := IndexOf(segment, '=');
      var name, raw := TrimSpace(segment[..i]), TrimSpace(segment[i + 1..]);
      if !IsToken(name) || raw == "" then None
      else
        match DecodeValue(raw)
        case None => None
        case Some(value) => Some(Parameter(name, value))
  }

  function ParseParameters(segments: seq<string>): Option<seq<Parameter>> {
    if segments == [] then Some([])
    else
      match ParseParameter(segments[0])
      case None => None
      case Some(p) => Prepend([p], ParseParameters(segments[1..]))
  }

  function Parse(header: string): Option<seq<Parameter>> {
    var value := TrimSpace(header);
    if |value| < 6 || !EqualFold(value[..6], "Bearer") then None
    else if |value| > 6 && value[6] != ' ' && value[6] != '\t' then None
    else
      var rest := TrimSpace(value[6..]);
      if rest == "" then None
      else
        match SplitFrom(rest, "", false, false)
        case None => None
        case Some(segments) => ParseParameters(segments)
  }

  // ---------------------------------------------------------------- printing

  function ReplaceAll(s: string, c: char, with: string): string {
    if s == "" then "" else (if s[0] == c then with else [s[0]]) + ReplaceAll(s[1..], c, with)
  }

  /** Backslashes first, then quotes. */
  function Escape(value: string): string {
    ReplaceAll(ReplaceAll(value, '\\', "\\\\"), '"', "\\\"")
  }

  function Quote(value: string): string {
    "\"" + Escape(value) + "\""
  }

  function RenderParameter(p: Parameter): string {
    p.name + "=" + Quote(p.value)
  }

  function RenderParameters(parameters: seq<Parameter>): seq<string> {
    if parameters == [] then [] else [RenderParameter(parameters[0])] + RenderParameters(parameters[1..])
  }

  function Render(parameters: seq<Parameter>): string {
    "Bearer " + Join(RenderParameters(parameters), ",")
  }

  // ---------------------------------------------------------------- lookup and update

  function Get(parameters: seq<Parameter>, name: string): Option<string> {
    if parameters == [] then None
    else if EqualFold(parameters[0].name, name) then Some(parameters[0].value)
    else Get(parameters[1..], name)
  }

  function Set(parameters: seq<Parameter>, name: string, value: string): seq<Parameter> {
    if parameters == [] then [Parameter(name, value)]
    else if EqualFold(parameters[0].name, name) then [parameters[0].(value := value)] + parameters[1..]
    else [parameters[0]] + Set(parameters[1..], name, value)
  }

  /** Setting binds the name, whatever its case, and rebinds no other. */
  lemma {:induction false} SetThenGet(parameters: seq<Parameter>, name: string, value: string, other: string)
    ensures Get(Set(parameters, name, value), other) ==
            if EqualFold(name, other) then Some(value) else Get(parameters, other)
  {
    if parameters != [] && !EqualFold(parameters[0].name, name) {
      SetThenGet(parameters[1..], name, value, other);
    }
  }

  // ---------------------------------------------------------------- round trip

  /** A value the quoted-string decoder accepts unescaped. */
  predicate OneLine(value: string) {
    '\r' !in value && '\n' !in value
  }

  function EscapeChar(c: char): string {
    if c == '\\' then "\\\\" else if c == '"' then "\\\"" else [c]
  }

  lemma {:induction false} ReplaceAllAppend(a: string, b: string, c: char, with: string)
    ensures ReplaceAll(a + b, c, with) == ReplaceAll(a, c, with) + ReplaceAll(b, c, with)
  {
    if a == "" {
      assert a + b == b;
    } else {
      assert (a + b)[1..] == a[1..] + b;
      ReplaceAllAppend(a[1..], b, c, with);
    }
  }

  /** The two replacement passes escape character by character. */
  lemma {:induction false} EscapeStep(value: string)
    requires value != ""
    ensures Escape(value) == EscapeChar(value[0]) + Escape(value[1..])
  {
    var head := if value[0] == '\\' then "\\\\" else [value[0]];
    ReplaceAllAppend(head, ReplaceAll(value[1..], '\\', "\\\\"), '"', "\\\"");
    assert ReplaceAll(head, '"', "\\\"") == EscapeChar(value[0]) by {
      if value[0] == '\\' {
        assert head[1..] == "\\" && head[1..][1..] == "";
      } else {
        assert head[1..] == "";
      }
    }
  }

  /** Decoding undoes escaping, unless the value has a line break. */
  lemma {:induction false} DecodeEscape(value: string)
    ensures DecodeFrom(Escape(value), false) == if OneLine(value) then Some(value) else None
  {
    hide Escape;
    EscapeNothing();
    if value != "" {
      EscapeStep(value);
      DecodeEscape(value[1..]);
      var tail := Escape(value[1..]);
      var text := EscapeChar(value[0]) + tail;
      if value[0] == '\\' || value[0] == '"' {
        assert text[1..] == [value[0]] + tail && text[1..][1..] == tail;
      } else {
        assert text[1..] == tail;
      }
      assert value == [value[0]] + value[1..];
    }
  }

  /** Outside quotes, text without quotes and commas only extends the part. */
  lemma {:induction false} SplitPlain(text: string, tail: string, part: string)
    requires '"' !in text && ',' !in text
    ensures SplitFrom(text + tail, part, false, false) == SplitFrom(tail, part + text, false, false)
  {
    if text == "" {
      assert text + tail == tail && part + text == part;
    } else {
      assert (text + tail)[1..] == text[1..] + tail;
      SplitPlain(text[1..], tail, part + [text[0]]);
      assert part + [text[0]] + text[1..] == part + text;
    }
  }

  lemma SplitEscapedChar(c: char, tail: string, part: string)
    ensures SplitFrom(EscapeChar(c) + tail, part, true, false) == SplitFrom(tail, part + EscapeChar(c), true, false)
  {
    var head := EscapeChar(c);
    var text := head + tail;
    if |head| == 2 {
      assert text[1..] == [head[1]] + tail && text[1..][1..] == tail;
      assert part + [head[0]] + [head[1]] == part + head;
    } else {
      assert text[1..] == tail;
    }
  }

  lemma EscapeNothing()
    ensures Escape("") == ""
  {
  }

  /** Inside quotes, escaped text only extends the part. */
  lemma {:induction false} SplitEscaped(value: string, tail: string, part: string)
    ensures SplitFrom(Escape(value) + tail, part, true, false) == SplitFrom(tail, part + Escape(value), true, false)
  {
    hide SplitFrom, EscapeChar, ReplaceAll, Escape;
    if value == "" {
      EscapeNothing();
      assert Escape(value) + tail == tail && part + Escape(value) == part;
    } else {
      EscapeStep(value);
      var head, rest := EscapeChar(value[0]), Escape(value[1..]);
      assert Escape(value) + tail == head + (rest + tail);
      SplitEscapedChar(value[0], rest + tail, part);
      SplitEscaped(value[1..], tail, part + head);
      assert part + head + rest == part + Escape(value);
    }
  }

  /** A quoted, escaped value only extends the part. */
  lemma SplitQuoted(value: string, tail: string, part: string)
    ensures SplitFrom(Quote(value) + tail, part, false, false) == SplitFrom(tail, part + Quote(value), false, false)
  {
    var escaped, close := Escape(value), "\"" + tail;
    var text := Quote(value) + tail;
    assert text[1..] == escaped + close;
    SplitEscaped(value, close, part + "\"");
    assert close[1..] == tail;
    assert part + "\"" + escaped + "\"" == part + Quote(value);
  }

  /** A rendered parameter is scanned as one piece. */
  lemma SplitParameter(p: Parameter, tail: string)
    requires IsToken(p.name)
    ensures SplitFrom(RenderParameter(p) + tail, "", false, false) == SplitFrom(tail, RenderParameter(p), false, false)
  {
    hide SplitFrom, Quote;
    var name := p.name + "=";
    assert '"' !in name && ',' !in name;
    assert RenderParameter(p) + tail == name + (Quote(p.value) + tail);
    SplitPlain(name, Quote(p.value) + tail, "");
    assert "" + name == name;
    SplitQuoted(p.value, tail, name);
  }

  lemma RenderedEnds(p: Parameter)
    requires p.name != ""
    ensures var r := RenderParameter(p); r != "" && r[0] == p.name[0] && r[|r| - 1] == '"'
  {
    hide Escape;
  }

  lemma ParameterIsTrimmed(p: Parameter)
    requires IsToken(p.name)
    ensures Trimmed(IsSpace, RenderParameter(p)) && TrimSpace(RenderParameter(p)) == RenderParameter(p) != ""
  {
    hide RenderParameter, TrimLeft, TrimRight, IsSpace, IsTokenChar;
    var r := RenderParameter(p);
    RenderedEnds(p);
    assert IsTokenChar(p.name[0]);
    VisibleCharacter(p.name[0]);
    VisibleCharacter('"');
    TrimTrimmed(IsSpace, r);
  }

  lemma VisibleCharacter(c: char)
    requires IsTokenChar(c) || c == '"'
    ensures !IsSpace(c)
  {
    assert '!' <= c <= '~';
  }

  predicate TokenNames(parameters: seq<Parameter>) {
    forall p | p in parameters :: IsToken(p.name)
  }

  lemma {:induction false} SplitRendered(parameters: seq<Parameter>)
    requires parameters != [] && TokenNames(parameters)
    ensures SplitFrom(Join(RenderParameters(parameters), ","), "", false, false) == Some(RenderParameters(parameters))
  {
    var p, rest := parameters[0], parameters[1..];
    ParameterIsTrimmed(p);
    if rest == [] {
      SplitParameter(p, "");
      assert RenderParameter(p) + "" == RenderParameter(p);
      assert RenderParameters(parameters) == [RenderParameter(p)];
    } else {
      SplitRendered(rest);
      var tail := "," + Join(RenderParameters(rest), ",");
      assert RenderParameters(parameters)[1..] == RenderParameters(rest) && RenderParameters(rest) != [];
      assert Join(RenderParameters(parameters), ",") == RenderParameter(p) + tail;
      SplitParameter(p, tail);
      assert tail[1..] == Join(RenderParameters(rest), ",");
    }
  }

  lemma DecodeQuoted(value: string)
    ensures DecodeValue(Quote(value)) == if OneLine(value) then Some(value) else None
    ensures Quote(value) != "" && TrimSpace(Quote(value)) == Quote(value)
  {
    var raw := Quote(value);
    assert raw[1..|raw| - 1] == Escape(value);
    DecodeEscape(value);
    TrimTrimmed(IsSpace, raw);
  }

  lemma TokenIsTrimmed(name: string)
    requires IsToken(name)
    ensures TrimSpace(name) == name
  {
    hide IsSpace, IsTokenChar, TrimLeft, TrimRight;
    assert IsTokenChar(name[0]) && IsTokenChar(name[|name| - 1]);
    VisibleCharacter(name[0]);
    VisibleCharacter(name[|name| - 1]);
    TrimTrimmed(IsSpace, name);
  }

  lemma ParseRenderedParameter(p: Parameter)
    requires IsToken(p.name)
    ensures ParseParameter(RenderParameter(p)) == if OneLine(p.value) then Some(p) else None
  {
    hide Quote, DecodeValue, TrimSpace;
    var raw := Quote(p.value);
    assert '=' !in p.name;
    assert RenderParameter(p) == p.name + ['='] + raw;
    IndexOfAppend(p.name, '=', raw);
    assert RenderParameter(p)[..|p.name|] == p.name && RenderParameter(p)[|p.name| + 1..] == raw;
    TokenIsTrimmed(p.name);
    DecodeQuoted(p.value);
  }

  lemma {:induction false} ParseRenderedParameters(parameters: seq<Parameter>)
    requires TokenNames(parameters)
    ensures ParseParameters(RenderParameters(parameters)) ==
            if (forall p | p in parameters :: OneLine(p.value)) then Some(parameters) else None
  {
    if parameters != [] {
      var p, rest := parameters[0], parameters[1..];
      ParseRenderedParameter(p);
      ParseRenderedParameters(rest);
      assert RenderParameters(parameters)[1..] == RenderParameters(rest);
      assert parameters == [p] + rest;
    }
  }

  lemma {:induction false} ParsedNamesAreTokens(segments: seq<string>)
    requires ParseParameters(segments).Some?
    ensures TokenNames(ParseParameters(segments).value)
  {
    if segments != [] {
      ParsedNamesAreTokens(segments[1..]);
    }
  }

  lemma ParseRendered(parameters: seq<Parameter>)
    requires parameters != [] && TokenNames(parameters)
    ensures Parse(Render(parameters)) == ParseParameters(RenderParameters(parameters))
  {
    var body := Join(RenderParameters(parameters), ",");
    BodyIsTrimmed(parameters);
    var header := Render(parameters);
    assert header[0] == 'B' && header[|header| - 1] == body[|body| - 1];
    TrimTrimmed(IsSpace, header);
    assert header[..6] == "Bearer" && header[6..] == " " + body;
    TrimLeadingSpace(body);
    SplitRendered(parameters);
  }

  lemma TrimLeadingSpace(body: string)
    requires body != "" && Trimmed(IsSpace, body)
    ensures TrimSpace(" " + body) == body
  {
    assert (" " + body)[1..] == body;
    TrimTrimmed(IsSpace, body);
  }

  lemma {:induction false} BodyIsTrimmed(parameters: seq<Parameter>)
    requires parameters != [] && TokenNames(parameters)
    ensures var body := Join(RenderParameters(parameters), ","); body != "" && Trimmed(IsSpace, body)
  {
    ParameterIsTrimmed(parameters[0]);
    if |parameters| > 1 {
      BodyIsTrimmed(parameters[1..]);
      assert RenderParameters(parameters)[1..] == RenderParameters(parameters[1..]);
    }
  }

  /** Printing and parsing are inverse exactly on the challenges that have a parameter,
      whose names are tokens and whose values have no line break; commas, quotes and
      backslashes in values are no obstacle. */
  lemma RoundTrip(parameters: seq<Parameter>)
    ensures Parse(Render(parameters)) == Some(parameters) <==>
            parameters != [] && TokenNames(parameters) && forall p | p in parameters :: OneLine(p.value)
  {
    if parameters != [] && TokenNames(parameters) {
      ParseRendered(parameters);
      ParseRenderedParameters(parameters);
    } else if parameters == [] {
      NothingToParse();
    } else if Parse(Render(parameters)) == Some(parameters) {
      var segments := SplitFrom(TrimSpace(TrimSpace(Render(parameters))[6..]), "", false, false).value;
      ParsedNamesAreTokens(segments);
    }
  }

  /** A value with a line break does not come back. */
  lemma LineBreakIsLost()
    ensures Parse(Render([Parameter("realm", "a\nb")])) != Some([Parameter("realm", "a\nb")])
  {
    var p := Parameter("realm", "a\nb");
    assert p in [p] && p.value[1] in p.value;
    RoundTrip([p]);
  }

  lemma NothingToParse()
    ensures Parse(Render([])) == None
  {
    var header := Render([]);
    assert header == "Bearer ";
    assert header[..6] == "Bearer";
    TrimTrimmed(IsSpace, "Bearer");
    assert TrimLeft(IsSpace, header) == header;
    assert TrimRight(IsSpace, header) == TrimRight(IsSpace, header[..6]);
    assert "Bearer"[6..] == "";
  }

  /** A rewritten challenge survives the wire: setting a token name to a one-line value,
      printing and parsing gives the updated parameters back. */
  lemma {:induction false} SetSurvives(parameters: seq<Parameter>, name: string, value: string)
    requires TokenNames(parameters) && IsToken(name) && OneLine(value)
    requires forall p | p in parameters :: OneLine(p.value)
    ensures Parse(Render(Set(parameters, name, value))) == Some(Set(parameters, name, value))
  {
    SetKeeps(parameters, name, value);
    RoundTrip(Set(parameters, name, value));
  }

  lemma {:induction false} SetKeeps(parameters: seq<Parameter>, name: string, value: string)
    requires TokenNames(parameters) && IsToken(name) && OneLine(value)
    requires forall p | p in parameters :: OneLine(p.value)
    ensures var updated := Set(parameters, name, value);
            updated != [] && TokenNames(updated) && forall p | p in updated :: OneLine(p.value)
  {
    if parameters != [] && !EqualFold(parameters[0].name, name) {
      SetKeeps(parameters[1..], name, value);
    }
  }

  // ---------------------------------------------------------------- the code

  /** `splitAuthParameters`: one scan with a quoted and an escaped flag. */
  method SplitAuthParameters(value: string) returns (result: Option<seq<string>>)
    ensures result == SplitFrom(value, "", false, false)
  {
    var parts: seq<string> := [];
    var start, quoted, escaped := 0, false, false;
    PrependNothing(SplitFrom(value, "", false, false));
    for index := 0 to |value|
      invariant start <= index
      invariant escaped ==> quoted
      invariant SplitFrom(value, "", false, false) ==
                Prepend(parts, SplitFrom(value[index..], value[start..index], quoted, escaped))
    {
      var c := value[index];
      assert value[index..][0] == c && value[index..][1..] == value[index + 1..];
      assert value[start..index] + [c] == value[start..index + 1];
      if escaped {
        escaped := false;
      } else if quoted && c == '\\' {
        escaped := true;
      } else if c == '"' {
        quoted := !quoted;
      } else if c == ',' && !quoted {
        var part := TrimSpace(value[start..index]);
        if part == "" {
          return None;
        }
        PrependOne(parts, part, SplitFrom(value[index + 1..], "", false, false));
        parts := parts + [part];
        start := index + 1;
        assert value[start..index + 1] == "";
      }
    }
    var part := TrimSpace(value[start..]);
    assert value[|value|..] == "" && value[start..|value|] == value[start..];
    if quoted || escaped || part == "" {
      return None;
    }
    return Some(parts + [part]);
  }

  /** `decodeAuthValue`. */
  method DecodeAuthValue(value: string) returns (result: Option<string>)
    ensures result == DecodeValue(value)
  {
    if value == "" || value[0] != '"' {
      if !IsToken(value) { return None; }
      return Some(value);
    }
    if |value| < 2 || value[|value| - 1] != '"' { return None; }
    var inner := value[1..|value| - 1];
    var decoded, escaped := "", false;
    PrependNothing(DecodeFrom(inner, false));
    assert inner[0..] == inner;
    for index := 0 to |inner|
      invariant DecodeFrom(inner, false) == Prepend(decoded, DecodeFrom(inner[index..], escaped))
    {
      var c := inner[index];
      assert inner[index..][0] == c && inner[index..][1..] == inner[index + 1..];
      PrependOne(decoded, c, DecodeFrom(inner[index + 1..], false));
      if escaped {
        decoded := decoded + [c];
        escaped := false;
      } else if c == '\\' {
        escaped := true;
      } else if c == '"' || c == '\r' || c == '\n' {
        return None;
      } else {
        decoded := decoded + [c];
      }
    }
    assert inner[|inner|..] == "";
    if escaped { return None; }
    assert decoded + "" == decoded;
    return Some(decoded);
  }

  /** Where `Set` writes: at the first parameter of that name, or at the end. */
  lemma {:induction false} SetPosition(parameters: seq<Parameter>, name: string, value: string, index: nat)
    requires index <= |parameters|
    requires forall k | 0 <= k < index :: !EqualFold(parameters[k].name, name)
    requires index < |parameters| ==> EqualFold(parameters[index].name, name)
    ensures Set(parameters, name, value) ==
            if index == |parameters| then parameters + [Parameter(name, value)]
            else parameters[index := parameters[index].(value := value)]
  {
    if index > 0 {
      SetPosition(parameters[1..], name, value, index - 1);
    }
  }

  class BearerChallenge {
    var parameters: seq<Parameter>

    constructor (parameters: seq<Parameter>)
      ensures this.parameters == parameters
    {
      this.parameters := parameters;
    }

    method Lookup(name: string) returns (value: Option<string>)
      ensures value == Get(parameters, name)
    {
      for index := 0 to |parameters|
        invariant Get(parameters, name) == Get(parameters[index..], name)
      {
        if EqualFold(parameters[index].name, name) {
          return Some(parameters[index].value);
        }
      }
      return None;
    }

    /** `set` overwrites the first parameter of that name in place, or appends one. */
    method Update(name: string, value: string)
      modifies this
      ensures parameters == Set(old(parameters), name, value)
    {
      for index := 0 to |parameters|
        invariant parameters == old(parameters)
        invariant forall k | 0 <= k < index :: !EqualFold(parameters[k].name, name)
      {
        if EqualFold(parameters[index].name, name) {
          SetPosition(parameters, name, value, index);
          parameters := parameters[index := parameters[index].(value := value)];
          return;
        }
      }
      SetPosition(parameters, name, value, |parameters|);
      parameters := parameters + [Parameter(name, value)];
    }

    method ToString() returns (header: string)
      ensures header == Render(parameters)
    {
      var parts: seq<string> := [];
      for index := 0 to |parameters|
        invariant RenderParameters(parameters) == parts + RenderParameters(parameters[index..])
      {
        var value := ReplaceAll(parameters[index].value, '\\', "\\\\");
        value := ReplaceAll(value, '"', "\\\"");
        assert parameters[index..][1..] == parameters[index + 1..];
        parts := parts + [parameters[index].name + "=" + ("\"" + value + "\"")];
      }
      assert RenderParameters(parameters[|parameters|..]) == [];
      assert parts + [] == parts;
      return "Bearer " + Join(parts, ",");
    }
  }

  /** `parseBearerChallenge`. */
  method ParseBearerChallenge(header: string) returns (challenge: BearerChallenge?)
    ensures (challenge == null) == (Parse(header) == None)
    ensures challenge != null ==> fresh(challenge) && Some(challenge.parameters) == Parse(header)
  {
    var value := TrimSpace(header);
    if |value| < 6 || !EqualFold(value[..6], "Bearer") { return null; }
    if |value| > 6 && value[6] != ' ' && value[6] != '\t' { return null; }
    var rest := TrimSpace(value[6..]);
    if rest == "" { return null; }
    var segments := SplitAuthParameters(rest);
    if segments.None? { return null; }
    var parameters := ParseSegments(segments.value);
    if parameters.None? { return null; }
    challenge := new BearerChallenge(parameters.value);
  }

  method ParseSegments(segments: seq<string>) returns (result: Option<seq<Parameter>>)
    ensures result == ParseParameters(segments)
  {
    var parameters: seq<Parameter> := [];
    PrependNothing(ParseParameters(segments));
    assert segments[0..] == segments;
    for index := 0 to |segments|
      invariant ParseParameters(segments) == Prepend(parameters, ParseParameters(segments[index..]))
    {
      var segment := segments[index];
      assert segments[index..][1..] == segments[index + 1..];
      if '=' !in segment { return None; }
      var i := IndexOf(segment, '=');
      var name, raw := TrimSpace(segment[..i]), TrimSpace(segment[i + 1..]);
      if !IsToken(name) || raw == "" { return None; }
      var decoded := DecodeAuthValue(raw);
      if decoded.None? { return None; }
      PrependOne(parameters, Parameter(name, decoded.value), ParseParameters(segments[index + 1..]));
      parameters := parameters + [Parameter(name, decoded.value)];
    }
    assert parameters + [] == parameters;
    return Some(parameters);
  }
}
